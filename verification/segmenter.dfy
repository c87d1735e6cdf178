/** The sentence segmenter `splitIntoSentences` (main.js:291-297).

    The text is normalized (CRLF to LF, every white-space run to one space,
    trimmed). If the normalized text holds one of the CJK stops 。！？ it is
    cut after every such stop; otherwise it is cut at a white-space run that
    follows `.`, `?` or `!` and precedes an upper-case ASCII letter, a digit
    or an opening quote. Every piece is trimmed and empty pieces dropped. */
module Segmenter {
  import opened Text

  /** The class `[。！？]` */
  predicate IsCjkStop(c: char) {
    c == '\U{3002}' || c == '\U{FF01}' || c == '\U{FF1F}'
  }

  /** The class `[.?!]` */
  predicate IsLatinStop(c: char) {
    c == '.' || c == '?' || c == '!'
  }

  /** The class `[A-Z0-9"“”'‘]` */
  predicate IsOpener(c: char) {
    || ('A' <= c <= 'Z') || ('0' <= c <= '9')
    || c == '"' || c == '\U{201C}' || c == '\U{201D}' || c == '\'' || c == '\U{2018}'
  }

  predicate HasCjkStop(s: string) {
    exists i :: 0 <= i < |s| && IsCjkStop(s[i])
  }

  /** `s.slice(i).replace(/\r\n/g, '\n')` */
  function CrlfToLfFrom(s: string, i: nat): string
    requires i <= |s|
    decreases |s| - i
  {
    if i == |s| then []
    else if i + 1 < |s| && s[i] == '\r' && s[i + 1] == '\n' then ['\n'] + CrlfToLfFrom(s, i + 2)
    else [s[i]] + CrlfToLfFrom(s, i + 1)
  }

  /** `s.replace(/\r\n/g, '\n')` */
  function CrlfToLf(s: string): string {
    CrlfToLfFrom(s, 0)
  }

  /** Turning CRLF into LF keeps a text all white space exactly when it
      was. */
  lemma {:induction false} CrlfToLfAllSpace(s: string, i: nat)
    requires i <= |s|
    ensures AllSpace(CrlfToLfFrom(s, i)) <==> AllSpace(s[i..])
    decreases |s| - i
  {
    if i < |s| {
      var k := if i + 1 < |s| && s[i] == '\r' && s[i + 1] == '\n' then 2 else 1;
      var c := if k == 2 then '\n' else s[i];
      CrlfToLfAllSpace(s, i + k);
      AllSpaceConcat([c], CrlfToLfFrom(s, i + k));
      assert s[i..] == s[i..i + k] + s[i + k..];
      AllSpaceConcat(s[i..i + k], s[i + k..]);
      assert k == 1 ==> s[i..i + k] == [c];
      assert k == 2 ==> s[i..i + k] == ['\r', '\n'];
    }
  }

  /** A collapsed text holds no carriage return, so the conversion leaves
      it as it is. */
  lemma {:induction false} CrlfToLfKeeps(s: string, i: nat)
    requires i <= |s| && CollapsedFrom(s, i)
    ensures CrlfToLfFrom(s, i) == s[i..]
    decreases |s| - i
  {
    if i < |s| {
      CrlfToLfKeeps(s, i + 1);
      assert s[i..] == [s[i]] + s[i + 1..];
    }
  }

  /** The `normalized` string of main.js:293. */
  function Normalize(text: string): (n: string)
    ensures Normalized(n)
  {
    NormalizeSpace(CrlfToLf(text))
  }

  /** Normalizing is idempotent, and leaves a normalized text as it is. */
  lemma NormalizeKeeps(text: string)
    ensures Normalized(text) ==> Normalize(text) == text
    ensures Normalize(Normalize(text)) == Normalize(text)
  {
    forall s: string | Normalized(s) ensures Normalize(s) == s {
      CrlfToLfKeeps(s, 0);
      assert s[0..] == s;
      NormalizeSpaceKeeps(s);
    }
  }

  /** The normalized text is empty exactly when the text is all white
      space. */
  lemma NormalizeEmpty(text: string)
    ensures |Normalize(text)| == 0 <==> AllSpace(text)
  {
    CrlfToLfAllSpace(text, 0);
    assert text[0..] == text;
    NormalizeSpaceEmpty(CrlfToLf(text));
  }

  /** Position of the first CJK stop of `s` at or after `i`, or `|s|` when
      there is none. */
  function CjkStopFrom(s: string, i: nat): (m: nat)
    requires i <= |s|
    ensures i <= m <= |s|
    ensures m < |s| ==> IsCjkStop(s[m])
    decreases |s| - i
  {
    if i == |s| || IsCjkStop(s[i]) then i else CjkStopFrom(s, i + 1)
  }

  /** No CJK stop lies between `i` and the next one. */
  lemma {:induction false} CjkStopFromIsFirst(s: string, i: nat)
    requires i <= |s|
    ensures forall k :: i <= k < CjkStopFrom(s, i) ==> !IsCjkStop(s[k])
    decreases |s| - i
  {
    if i < |s| && !IsCjkStop(s[i]) {
      CjkStopFromIsFirst(s, i + 1);
    }
  }

  /** `s.slice(i).split(/(?<=[。！？])/g)`: the empty separator matches at
      every position strictly inside the text that follows a CJK stop. */
  function CjkSplitFrom(s: string, i: nat): (pieces: seq<string>)
    requires i <= |s|
    ensures |pieces| >= 1
    decreases |s| - i
  {
    var m := CjkStopFrom(s, i);
    if m + 1 < |s| then [s[i..m + 1]] + CjkSplitFrom(s, m + 1) else [s[i..]]
  }

  /** `s.split(/(?<=[。！？])/g)` */
  function CjkSplit(s: string): seq<string> {
    CjkSplitFrom(s, 0)
  }

  /** Concatenating the CJK pieces gives the text back: the separator is
      empty, so nothing is dropped. */
  lemma {:induction false} CjkJoinFrom(s: string, i: nat)
    requires i < |s|
    ensures Join(CjkSplitFrom(s, i), []) == s[i..]
    decreases |s| - i
  {
    var e := CjkEnd(s, i);
    if e < |s| {
      CjkSplitUnfold(s, i);
      CjkJoinFrom(s, e);
      JoinCons(s[i..e], CjkSplitFrom(s, e), []);
      assert s[i..] == s[i..e] + s[e..];
    } else {
      assert CjkSplitFrom(s, i) == [s[i..]];
    }
  }

  lemma CjkSplitUnfold(s: string, i: nat)
    requires i < |s| && CjkEnd(s, i) < |s|
    ensures CjkSplitFrom(s, i) == [s[i..CjkEnd(s, i)]] + CjkSplitFrom(s, CjkEnd(s, i))
  {
  }

  lemma CjkJoin(s: string)
    ensures Join(CjkSplit(s), []) == s
  {
    if |s| > 0 {
      CjkJoinFrom(s, 0);
    }
  }

  /** The separator `(?<=[.?!])\s+(?=[A-Z0-9"“”'‘])` matches at `q`. The
      greedy `\s+` takes the whole white-space run; backing off cannot help,
      since the lookahead class holds no white space. */
  predicate LatinBreakAt(s: string, q: nat) {
    && 1 <= q < |s| && IsLatinStop(s[q - 1]) && IsSpace(s[q])
    && SkipSpace(s, q) < |s| && IsOpener(s[SkipSpace(s, q)])
  }

  /** The first position at or after `q` where the Latin separator matches,
      or `|s|`. */
  function FirstLatinBreak(s: string, q: nat): (b: nat)
    requires q <= |s|
    ensures q <= b <= |s|
    ensures b < |s| ==> LatinBreakAt(s, b)
    decreases |s| - q
  {
    if q == |s| || LatinBreakAt(s, q) then q else FirstLatinBreak(s, q + 1)
  }

  lemma {:induction false} FirstLatinBreakIsFirst(s: string, q: nat)
    requires q <= |s|
    ensures forall k :: q <= k < FirstLatinBreak(s, q) ==> !LatinBreakAt(s, k)
    decreases |s| - q
  {
    if q < |s| && !LatinBreakAt(s, q) {
      FirstLatinBreakIsFirst(s, q + 1);
    }
  }

  /** `s.slice(i).split(/(?<=[.?!])\s+(?=[A-Z0-9"“”'‘])/g)`, for a start
      `i` that is not itself just after a stop. The separator is dropped. */
  function LatinSplitFrom(s: string, i: nat): (pieces: seq<string>)
    requires i <= |s| && (i == 0 || IsSpace(s[i - 1]))
    ensures |pieces| >= 1
    decreases |s| - i
  {
    var b := FirstLatinBreak(s, i);
    if b < |s| then [s[i..b]] + LatinSplitFrom(s, SkipSpace(s, b)) else [s[i..]]
  }

  /** Every piece but the last is non-empty and ends on its own stop. */
  predicate StopEnded(pieces: seq<string>, stop: char -> bool)
    decreases |pieces|
  {
    |pieces| > 1 ==>
      && |pieces[0]| > 0 && stop(pieces[0][|pieces[0]| - 1])
      && StopEnded(pieces[1..], stop)
  }

  lemma {:induction false} StopEndedAt(pieces: seq<string>, stop: char -> bool, j: nat)
    requires StopEnded(pieces, stop) && j < |pieces| - 1
    ensures |pieces[j]| > 0 && stop(pieces[j][|pieces[j]| - 1])
    decreases j
  {
    if j > 0 {
      StopEndedAt(pieces[1..], stop, j - 1);
    }
  }

  /** Under the Latin rule every piece but the last ends with `.`, `?` or
      `!`: the separator only matches just after one. */
  lemma {:induction false} LatinStopsFrom(s: string, i: nat)
    requires i <= |s| && (i == 0 || IsSpace(s[i - 1]))
    ensures StopEnded(LatinSplitFrom(s, i), IsLatinStop)
    decreases |s| - i
  {
    var b := FirstLatinBreak(s, i);
    if b < |s| {
      var rest := LatinSplitFrom(s, SkipSpace(s, b));
      LatinStopsFrom(s, SkipSpace(s, b));
      LastOfSlice(s, i, b);
      StopEndedCons(s[i..b], rest, IsLatinStop);
    }
  }

  lemma LastOfSlice(s: string, i: nat, b: nat)
    requires i < b <= |s|
    ensures |s[i..b]| > 0 && s[i..b][|s[i..b]| - 1] == s[b - 1]
  {
  }

  lemma StopEndedCons(p: string, rest: seq<string>, stop: char -> bool)
    requires |p| > 0 && stop(p[|p| - 1]) && StopEnded(rest, stop)
    ensures StopEnded([p] + rest, stop)
  {
    var r := [p] + rest;
    assert r[0] == p;
    assert r[1..] == rest;
  }

  lemma LatinStops(s: string)
    ensures forall j :: 0 <= j < |LatinSplit(s)| - 1 ==>
      |LatinSplit(s)[j]| > 0 && IsLatinStop(LatinSplit(s)[j][|LatinSplit(s)[j]| - 1])
  {
    LatinStopsFrom(s, 0);
    forall j | 0 <= j < |LatinSplit(s)| - 1
      ensures |LatinSplit(s)[j]| > 0 && IsLatinStop(LatinSplit(s)[j][|LatinSplit(s)[j]| - 1])
    {
      StopEndedAt(LatinSplit(s), IsLatinStop, j);
    }
  }

  /** `s.split(/(?<=[.?!])\s+(?=[A-Z0-9"“”'‘])/g)`: every piece but the last
      ends with `.`, `?` or `!`. */
  function LatinSplit(s: string): seq<string> {
    LatinSplitFrom(s, 0)
  }

  /** A text without `.`, `?` or `!` is not cut at all. */
  lemma NoLatinStopNoCut(s: string)
    requires forall k :: 0 <= k < |s| ==> !IsLatinStop(s[k])
    ensures LatinSplit(s) == [s]
  {
  }

  /** `.map(s => s.trim()).filter(Boolean)` */
  function TrimPieces(pieces: seq<string>): (r: seq<string>)
    ensures |r| <= |pieces|
    ensures forall j :: 0 <= j < |r| ==> |r[j]| > 0 && Trimmed(r[j])
    decreases |pieces|
  {
    if |pieces| == 0 then []
    else
      var t := Trim(pieces[0]);
      if |t| == 0 then TrimPieces(pieces[1..]) else [t] + TrimPieces(pieces[1..])
  }

  /** The pieces of a normalized text under the rule its contents select:
      the CJK rule when it holds one of 。！？, the Latin rule otherwise. */
  function Pieces(n: string): seq<string> {
    if HasCjkStop(n) then CjkSplit(n) else LatinSplit(n)
  }

  /** `splitIntoSentences(text)`: no sentences exactly when the text is
      empty or all white space, and every sentence is non-empty, trimmed and
      holds no white space other than single ASCII spaces. */
  function SplitIntoSentences(text: string): (sentences: seq<string>)
    ensures |sentences| == 0 <==> AllSpace(text)
    ensures forall j :: 0 <= j < |sentences| ==> |sentences[j]| > 0 && Normalized(sentences[j])
  {
    TrimEmpty(text);
    if |Trim(text)| == 0 then []
    else
      var n := Normalize(text);
      NormalizeEmpty(text);
      PiecesWellFormed(n);
      TrimPieces(Pieces(n))
  }

  lemma PiecesWellFormed(n: string)
    requires Normalized(n) && |n| > 0
    ensures |TrimPieces(Pieces(n))| > 0
    ensures forall j :: 0 <= j < |TrimPieces(Pieces(n))| ==> Normalized(TrimPieces(Pieces(n))[j])
  {
    if HasCjkStop(n) {
      CjkSentences(n);
      var sentences := TrimPieces(CjkSplit(n));
      forall j | 0 <= j < |sentences| ensures Normalized(sentences[j]) {
        CjkShapedAt(sentences, j);
      }
    } else {
      LatinNormal(n);
      TrimPiecesKeeps(LatinSplit(n));
    }
  }

  /** Trimming and filtering changes nothing when every piece is already a
      non-empty trimmed string. */
  lemma {:induction false} TrimPiecesKeeps(pieces: seq<string>)
    requires forall j :: 0 <= j < |pieces| ==> |pieces[j]| > 0 && Trimmed(pieces[j])
    ensures TrimPieces(pieces) == pieces
    decreases |pieces|
  {
    if |pieces| > 0 {
      var rest := pieces[1..];
      assert pieces == [pieces[0]] + rest;
      TrimPiecesKeeps(rest);
      TrimKeeps(pieces[0]);
      TrimPiecesCons(pieces[0], rest);
    }
  }

  lemma TrimPiecesCons(p: string, rest: seq<string>)
    requires |Trim(p)| > 0
    ensures TrimPieces([p] + rest) == [Trim(p)] + TrimPieces(rest)
  {
    var r := [p] + rest;
    assert r[0] == p;
    assert r[1..] == rest;
  }

  /** One Latin cut of a normalized text: the separator is the single space
      at the cut. */
  lemma LatinCut(s: string, i: nat, b: nat)
    requires Normalized(s) && i < |s| && (i == 0 || IsSpace(s[i - 1]))
    requires b == FirstLatinBreak(s, i) && b < |s|
    ensures i < b && b + 1 < |s| && s[b] == ' ' && SkipSpace(s, b) == b + 1
  {
    CollapsedAt(s, b);
    if i > 0 {
      CollapsedAt(s, i - 1);
    }
  }

  lemma LatinUnfold(s: string, i: nat)
    requires Normalized(s) && i < |s| && (i == 0 || IsSpace(s[i - 1]))
    requires FirstLatinBreak(s, i) < |s|
    ensures LatinSplitFrom(s, i)
      == [s[i..FirstLatinBreak(s, i)]] + LatinSplitFrom(s, FirstLatinBreak(s, i) + 1)
  {
    LatinCut(s, i, FirstLatinBreak(s, i));
  }

  /** Under the Latin rule, joining the pieces of a normalized text with
      single spaces gives the text back. */
  lemma {:induction false} LatinJoinFrom(s: string, i: nat)
    requires Normalized(s) && i < |s| && (i == 0 || IsSpace(s[i - 1]))
    ensures Join(LatinSplitFrom(s, i), " ") == s[i..]
    decreases |s| - i
  {
    var b := FirstLatinBreak(s, i);
    if b < |s| {
      LatinCut(s, i, b);
      LatinJoinFrom(s, b + 1);
      LatinUnfold(s, i);
      JoinCons(s[i..b], LatinSplitFrom(s, b + 1), " ");
      SpaceSplit(s, i, b);
    }
  }

  lemma LatinJoin(s: string)
    requires Normalized(s) && |s| > 0
    ensures Join(LatinSplit(s), " ") == s
  {
    LatinJoinFrom(s, 0);
  }

  /** Every piece is a non-empty normalized string. Stated piece by piece,
      so that the solver unfolds it only on demand. */
  predicate NormalPieces(pieces: seq<string>)
    decreases |pieces|
  {
    |pieces| > 0 ==> |pieces[0]| > 0 && Normalized(pieces[0]) && NormalPieces(pieces[1..])
  }

  lemma {:induction false} NormalPiecesAt(pieces: seq<string>, j: nat)
    requires NormalPieces(pieces) && j < |pieces|
    ensures |pieces[j]| > 0 && Normalized(pieces[j])
    decreases j
  {
    if j > 0 {
      NormalPiecesAt(pieces[1..], j - 1);
    }
  }

  lemma NormalPiecesCons(p: string, rest: seq<string>)
    requires |p| > 0 && Normalized(p) && NormalPieces(rest)
    ensures NormalPieces([p] + rest)
  {
    var r := [p] + rest;
    assert r[0] == p;
    assert r[1..] == rest;
  }

  /** The Latin piece that starts at `i` is a non-empty normalized string. */
  lemma LatinPieceNormal(s: string, i: nat)
    requires Normalized(s) && i < |s| && (i == 0 || IsSpace(s[i - 1]))
    ensures i < FirstLatinBreak(s, i) && Normalized(s[i..FirstLatinBreak(s, i)])
  {
    var b := FirstLatinBreak(s, i);
    if b < |s| {
      LatinCut(s, i, b);
    }
    if i > 0 {
      CollapsedAt(s, i - 1);
    }
    NormalizedInfix(s, i, b);
  }

  lemma {:induction false} LatinNormalFrom(s: string, i: nat)
    requires Normalized(s) && i < |s| && (i == 0 || IsSpace(s[i - 1]))
    ensures NormalPieces(LatinSplitFrom(s, i))
    decreases |s| - i
  {
    var b := FirstLatinBreak(s, i);
    LatinPieceNormal(s, i);
    if b < |s| {
      LatinCut(s, i, b);
      LatinNormalFrom(s, b + 1);
      LatinUnfold(s, i);
      NormalPiecesCons(s[i..b], LatinSplitFrom(s, b + 1));
    } else {
      assert s[i..b] == s[i..];
      NormalPiecesCons(s[i..], []);
      assert [s[i..]] + [] == LatinSplitFrom(s, i);
    }
  }

  /** Under the Latin rule every piece of a normalized text is a non-empty
      normalized string. */
  lemma LatinNormal(s: string)
    requires Normalized(s) && |s| > 0
    ensures forall j :: 0 <= j < |LatinSplit(s)| ==> |LatinSplit(s)[j]| > 0 && Normalized(LatinSplit(s)[j])
  {
    LatinNormalFrom(s, 0);
    forall j | 0 <= j < |LatinSplit(s)|
      ensures |LatinSplit(s)[j]| > 0 && Normalized(LatinSplit(s)[j])
    {
      NormalPiecesAt(LatinSplit(s), j);
    }
  }

  /** The number of white-space characters (zero or one, in a collapsed
      text) that trimming removes in front of a piece starting at `i`. */
  function GapAt(text: string, i: nat): nat {
    if i < |text| && text[i] == ' ' then 1 else 0
  }

  /** From position `i` on, `text` consists of `segs` laid end to end, each
      segment preceded by at most one ASCII space and by nothing else. This
      is how the CJK sentences sit in the normalized text. */
  predicate PackedFrom(text: string, i: nat, segs: seq<string>)
    decreases |segs|
  {
    if |segs| == 0 then i == |text|
    else
      var k := i + GapAt(text, i);
      && |segs[0]| > 0 && !IsSpace(segs[0][0])
      && k + |segs[0]| <= |text| && text[k..k + |segs[0]|] == segs[0]
      && PackedFrom(text, k + |segs[0]|, segs[1..])
  }

  predicate Packed(text: string, segs: seq<string>) {
    PackedFrom(text, 0, segs)
  }

  /** A CJK stop occurs in `t` at most as its last character. */
  predicate StopOnlyAtEnd(t: string) {
    forall k :: 0 <= k < |t| - 1 ==> !IsCjkStop(t[k])
  }

  /** Every sentence is a non-empty normalized string with no CJK stop
      before its end, and every sentence but the last ends with one. Stated
      sentence by sentence, so that the solver unfolds it only on demand. */
  predicate CjkShaped(sentences: seq<string>)
    decreases |sentences|
  {
    |sentences| > 0 ==>
      && |sentences[0]| > 0 && Normalized(sentences[0]) && StopOnlyAtEnd(sentences[0])
      && (|sentences| > 1 ==> IsCjkStop(sentences[0][|sentences[0]| - 1]))
      && CjkShaped(sentences[1..])
  }

  lemma {:induction false} CjkShapedAt(sentences: seq<string>, j: nat)
    requires CjkShaped(sentences) && j < |sentences|
    ensures |sentences[j]| > 0 && Normalized(sentences[j]) && StopOnlyAtEnd(sentences[j])
    ensures j < |sentences| - 1 ==> IsCjkStop(sentences[j][|sentences[j]| - 1])
    decreases j
  {
    if j > 0 {
      CjkShapedAt(sentences[1..], j - 1);
    }
  }

  /** Where the CJK piece that starts at `i` ends: just after the next stop,
      or at the end of the text when that stop is the last character or
      there is none. */
  function CjkEnd(s: string, i: nat): (e: nat)
    requires i < |s|
    ensures i < e <= |s|
    ensures e < |s| ==> IsCjkStop(s[e - 1])
  {
    var m := CjkStopFrom(s, i);
    if m + 1 < |s| then m + 1 else |s|
  }

  /** Trimming a piece `s[i..e]` of a collapsed text that ends on a
      non-space character just drops its gap. */
  lemma PieceTrim(s: string, i: nat, e: nat)
    requires Collapsed(s) && i < e <= |s| && !IsSpace(s[e - 1])
    ensures i + GapAt(s, i) < e
    ensures Trim(s[i..e]) == s[i + GapAt(s, i)..e]
  {
    var g := GapAt(s, i);
    if IsSpace(s[i]) {
      CollapsedAt(s, i);
    }
    var p := s[i..e];
    SkipSpaceExact(p, 0, g);
    var u := p[g..];
    assert u == s[i + g..e];
    assert SkipSpaceBack(u, |u|) == |u|;
  }

  /** The trimmed piece is normalized. */
  lemma PieceNormal(s: string, i: nat, e: nat)
    requires Collapsed(s) && i < e <= |s| && !IsSpace(s[e - 1])
    ensures i + GapAt(s, i) < e
    ensures Normalized(s[i + GapAt(s, i)..e])
  {
    if IsSpace(s[i]) {
      CollapsedAt(s, i);
    }
    NormalizedInfix(s, i + GapAt(s, i), e);
  }

  /** The sentence cut from `i` to `e` holds a CJK stop only at its end. */
  lemma PieceStops(s: string, i: nat, g: nat)
    requires i < |s| && i + g < CjkEnd(s, i)
    ensures StopOnlyAtEnd(s[i + g..CjkEnd(s, i)])
  {
    CjkStopFromIsFirst(s, i);
    var t := s[i + g..CjkEnd(s, i)];
    assert forall k :: 0 <= k < |t| - 1 ==> t[k] == s[i + g + k];
  }

  lemma CjkTrimUnfold(s: string, i: nat)
    requires i < |s| && |Trim(s[i..CjkEnd(s, i)])| > 0
    ensures TrimPieces(CjkSplitFrom(s, i)) == [Trim(s[i..CjkEnd(s, i)])] + CjkRest(s, CjkEnd(s, i))
  {
    var e := CjkEnd(s, i);
    if e < |s| {
      assert CjkSplitFrom(s, i) == [s[i..e]] + CjkSplitFrom(s, e);
      TrimPiecesCons(s[i..e], CjkSplitFrom(s, e));
    } else {
      assert s[i..e] == s[i..];
      assert CjkSplitFrom(s, i) == [s[i..e]] + [];
      TrimPiecesCons(s[i..e], []);
    }
  }

  /** The CJK sentences that follow a cut at `e`. */
  function CjkRest(s: string, e: nat): seq<string>
    requires e <= |s|
  {
    if e < |s| then TrimPieces(CjkSplitFrom(s, e)) else []
  }

  /** One CJK cut of a collapsed text that ends on a non-space character:
      the first sentence `t` is the piece up to the cut without its gap. */
  lemma CjkStep(s: string, i: nat) returns (t: string)
    requires Collapsed(s) && |s| > 0 && !IsSpace(s[|s| - 1]) && i < |s|
    ensures i + GapAt(s, i) + |t| == CjkEnd(s, i) && !IsSpace(s[i + GapAt(s, i)])
    ensures t == s[i + GapAt(s, i)..CjkEnd(s, i)]
    ensures TrimPieces(CjkSplitFrom(s, i)) == [t] + CjkRest(s, CjkEnd(s, i))
  {
    var e := CjkEnd(s, i);
    PieceTrim(s, i, e);
    CjkTrimUnfold(s, i);
    t := s[i + GapAt(s, i)..e];
  }

  /** The first CJK sentence is shaped as the rule promises. */
  lemma CjkStepShape(s: string, i: nat, t: string)
    requires Collapsed(s) && |s| > 0 && !IsSpace(s[|s| - 1]) && i < |s|
    requires i + GapAt(s, i) < CjkEnd(s, i) && t == s[i + GapAt(s, i)..CjkEnd(s, i)]
    ensures |t| > 0 && Normalized(t) && StopOnlyAtEnd(t)
    ensures CjkEnd(s, i) < |s| ==> IsCjkStop(t[|t| - 1])
  {
    PieceNormal(s, i, CjkEnd(s, i));
    PieceStops(s, i, GapAt(s, i));
  }

  /** Under the CJK rule, the sentences cut from a collapsed text that ends
      on a non-space character are shaped as the rule promises. */
  lemma {:induction false} CjkShapedFrom(s: string, i: nat)
    requires Collapsed(s) && |s| > 0 && !IsSpace(s[|s| - 1]) && i < |s|
    ensures CjkShaped(TrimPieces(CjkSplitFrom(s, i)))
    decreases |s| - i
  {
    var e := CjkEnd(s, i);
    var t := CjkStep(s, i);
    CjkStepShape(s, i, t);
    if e < |s| {
      CjkShapedFrom(s, e);
    }
    ShapedCons(t, CjkRest(s, e));
  }

  /** Under the CJK rule, the sentences cut from a collapsed text that ends
      on a non-space character pack the text. */
  lemma {:induction false} CjkPackedFrom(s: string, i: nat)
    requires Collapsed(s) && |s| > 0 && !IsSpace(s[|s| - 1]) && i < |s|
    ensures PackedFrom(s, i, TrimPieces(CjkSplitFrom(s, i)))
    decreases |s| - i
  {
    var e := CjkEnd(s, i);
    var t := CjkStep(s, i);
    if e < |s| {
      CjkPackedFrom(s, e);
    }
    PackedCons(s, i, e, t, CjkRest(s, e));
  }

  lemma ShapedCons(t: string, rest: seq<string>)
    requires |t| > 0 && Normalized(t) && StopOnlyAtEnd(t)
    requires |rest| > 0 ==> IsCjkStop(t[|t| - 1])
    requires CjkShaped(rest)
    ensures CjkShaped([t] + rest)
  {
    var r := [t] + rest;
    assert r[0] == t;
    assert r[1..] == rest;
  }

  lemma PackedCons(s: string, i: nat, e: nat, t: string, rest: seq<string>)
    requires i + GapAt(s, i) + |t| == e <= |s| && t == s[i + GapAt(s, i)..e]
    requires |t| > 0 && !IsSpace(s[i + GapAt(s, i)])
    requires PackedFrom(s, e, rest)
    ensures PackedFrom(s, i, [t] + rest)
  {
    var r := [t] + rest;
    assert r[0] == t;
    assert r[1..] == rest;
  }

  lemma CjkSentences(s: string)
    requires Normalized(s) && |s| > 0
    ensures CjkShaped(TrimPieces(CjkSplit(s)))
    ensures Packed(s, TrimPieces(CjkSplit(s)))
  {
    CjkShapedFrom(s, 0);
    CjkPackedFrom(s, 0);
  }

  /** Latin mode (no 。！？ in the normalized text): joining the sentences
      with single spaces reproduces the normalized text, every sentence but
      the last ends with `.`, `?` or `!`, and a text without such a mark is
      one sentence. */
  lemma LatinMode(text: string)
    requires !AllSpace(text) && !HasCjkStop(Normalize(text))
    ensures var sentences := SplitIntoSentences(text);
      && Join(sentences, " ") == Normalize(text)
      && (forall j :: 0 <= j < |sentences| - 1 ==> IsLatinStop(sentences[j][|sentences[j]| - 1]))
      && ((forall i :: 0 <= i < |Normalize(text)| ==> !IsLatinStop(Normalize(text)[i]))
            ==> sentences == [Normalize(text)])
  {
    var n := Normalize(text);
    NormalizeEmpty(text);
    SplitLatin(text);
    LatinJoin(n);
    LatinStops(n);
    LatinWhole(n);
  }

  /** Without a stop, the text is one piece. */
  lemma LatinWhole(n: string)
    ensures (forall i :: 0 <= i < |n| ==> !IsLatinStop(n[i])) ==> LatinSplit(n) == [n]
  {
    if forall i :: 0 <= i < |n| ==> !IsLatinStop(n[i]) {
      NoLatinStopNoCut(n);
    }
  }

  lemma SplitLatin(text: string)
    requires !AllSpace(text) && !HasCjkStop(Normalize(text))
    ensures SplitIntoSentences(text) == LatinSplit(Normalize(text))
  {
    var n := Normalize(text);
    NormalizeEmpty(text);
    LatinNormal(n);
    TrimPiecesKeeps(LatinSplit(n));
  }

  lemma SplitCjk(text: string)
    requires HasCjkStop(Normalize(text))
    ensures SplitIntoSentences(text) == TrimPieces(CjkSplit(Normalize(text)))
  {
    NormalizeEmpty(text);
    TrimEmpty(text);
  }

  /** CJK mode: every sentence but the last ends with one of 。！？, no
      sentence holds one anywhere but at its end, and the sentences pack the
      normalized text with at most one space before each. */
  lemma CjkMode(text: string)
    requires HasCjkStop(Normalize(text))
    ensures var sentences := SplitIntoSentences(text);
      && Packed(Normalize(text), sentences)
      && (forall j :: 0 <= j < |sentences| - 1 ==> IsCjkStop(sentences[j][|sentences[j]| - 1]))
      && (forall j, i :: 0 <= j < |sentences| && 0 <= i < |sentences[j]| - 1 ==>
            !IsCjkStop(sentences[j][i]))
  {
    var n := Normalize(text);
    SplitCjk(text);
    CjkSentences(n);
    var sentences := TrimPieces(CjkSplit(n));
    forall j | 0 <= j < |sentences|
      ensures j < |sentences| - 1 ==> IsCjkStop(sentences[j][|sentences[j]| - 1])
      ensures forall i :: 0 <= i < |sentences[j]| - 1 ==> !IsCjkStop(sentences[j][i])
    {
      CjkShapedAt(sentences, j);
    }
  }
}
