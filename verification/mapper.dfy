/** The sentence–token mapper `buildSentencesAndMapItems` (main.js:263-288).

    Every token gets a character range in the single-space join of the
    token strings. Every segment the segmenter cuts from the page text is
    trimmed and looked up with `indexOf` from a moving start; a segment
    that is found becomes a sentence that records its place in the page
    text and the positions of the tokens whose ranges overlap it. */
module Mapper {
  import opened Text
  import opened Segmenter
  import opened Tokens

  /** A token's character range, both ends as main.js:268-269 computes
      them. */
  datatype Range = Range(start: nat, end: nat)

  /** A sentence as main.js:284 records it. */
  datatype Sentence = Sentence(text: string, startChar: nat, endChar: nat, itemIndices: seq<nat>)

  /** The loop of main.js:266-273 over the strings `strs`, with the cursor
      at `cursor`: each range is as long as its string, and the next one
      starts one character (the joining space) after it ends. */
  function RangesFrom(strs: seq<string>, cursor: nat): seq<Range>
    decreases |strs|
  {
    if |strs| == 0 then []
    else [Range(cursor, cursor + |strs[0]|)] + RangesFrom(strs[1..], cursor + |strs[0]| + 1)
  }

  function Ranges(tokens: seq<Token>): seq<Range> {
    RangesFrom(Strs(tokens), 0)
  }

  /** The ranges start at the cursor, are as long as their strings, and
      are one character apart. */
  lemma {:induction false} RangesFromShape(strs: seq<string>, cursor: nat, j: nat)
    requires j < |strs|
    ensures |RangesFrom(strs, cursor)| == |strs|
    ensures var r := RangesFrom(strs, cursor);
      && (j == 0 ==> r[0].start == cursor)
      && r[j].end == r[j].start + |strs[j]|
      && (j + 1 < |strs| ==> r[j + 1].start == r[j].end + 1)
    decreases |strs|
  {
    var rest := RangesFrom(strs[1..], cursor + |strs[0]| + 1);
    var r := RangesFrom(strs, cursor);
    if j > 0 {
      RangesFromShape(strs[1..], cursor + |strs[0]| + 1, j - 1);
      assert r[j] == rest[j - 1];
      if j + 1 < |strs| {
        RangesFromShape(strs[1..], cursor + |strs[0]| + 1, j);
        assert r[j + 1] == rest[j];
      }
    } else if 1 < |strs| {
      RangesFromShape(strs[1..], cursor + |strs[0]| + 1, 0);
      assert r[1] == rest[0];
    }
  }

  /** From position `i` on, `text` holds `segs` one after another, each
      followed by a single space except the last. This is how the strings
      sit in their single-space join. */
  predicate SpacedFrom(text: string, i: nat, segs: seq<string>)
    decreases |segs|
  {
    |segs| > 0 ==>
      && MatchAt(text, segs[0], i)
      && (|segs| > 1 ==> i + |segs[0]| < |text| && text[i + |segs[0]|] == ' ')
      && SpacedFrom(text, i + |segs[0]| + 1, segs[1..])
  }

  lemma MatchShift(pre: string, b: string, p: string, i: nat)
    requires MatchAt(b, p, i)
    ensures MatchAt(pre + b, p, |pre| + i)
  {
    assert (pre + b)[|pre| + i..|pre| + i + |p|] == b[i..i + |p|];
  }

  lemma {:induction false} SpacedShift(pre: string, b: string, i: nat, segs: seq<string>)
    requires SpacedFrom(b, i, segs)
    ensures SpacedFrom(pre + b, |pre| + i, segs)
    decreases |segs|
  {
    if |segs| > 0 {
      MatchShift(pre, b, segs[0], i);
      SpacedShift(pre, b, i + |segs[0]| + 1, segs[1..]);
      if |segs| > 1 {
        assert (pre + b)[|pre| + i + |segs[0]|] == b[i + |segs[0]|];
      }
    }
  }

  /** The strings lie in their single-space join as `SpacedFrom` says. */
  lemma {:induction false} JoinSpaced(segs: seq<string>)
    ensures SpacedFrom(Join(segs, " "), 0, segs)
    decreases |segs|
  {
    if |segs| == 1 {
      assert Join(segs, " ")[0..|segs[0]|] == segs[0];
    } else if |segs| > 1 {
      var rest := segs[1..];
      var pre := segs[0] + " ";
      JoinSpaced(rest);
      SpacedShift(pre, Join(rest, " "), 0, rest);
      assert segs == [segs[0]] + rest;
      JoinCons(segs[0], rest, " ");
      assert Join(segs, " ") == pre + Join(rest, " ");
      assert Join(segs, " ")[0..|segs[0]|] == segs[0];
      assert Join(segs, " ")[|segs[0]|] == ' ';
    }
  }

  /** Under a spaced layout, the range the mapper computes for a string is
      where the string lies. */
  lemma {:induction false} SpacedRanges(text: string, i: nat, segs: seq<string>, j: nat)
    requires SpacedFrom(text, i, segs) && j < |segs|
    ensures |RangesFrom(segs, i)| == |segs|
    ensures MatchAt(text, segs[j], RangesFrom(segs, i)[j].start)
    decreases j
  {
    RangesFromShape(segs, i, j);
    if j > 0 {
      var rest := RangesFrom(segs[1..], i + |segs[0]| + 1);
      SpacedRanges(text, i + |segs[0]| + 1, segs[1..], j - 1);
      assert RangesFrom(segs, i)[j] == rest[j - 1];
    }
  }

  /** When the page text is the single-space join of the token strings
      (the primary path, main.js:220), every token's range delimits its own
      string in the page text. */
  lemma RangesInJoin(tokens: seq<Token>, j: nat)
    requires j < |tokens|
    ensures |Ranges(tokens)| == |tokens|
    ensures var r := Ranges(tokens)[j];
      r.start + |tokens[j].str| == r.end <= |Join(Strs(tokens), " ")|
      && Join(Strs(tokens), " ")[r.start..r.end] == tokens[j].str
  {
    JoinSpaced(Strs(tokens));
    SpacedRanges(Join(Strs(tokens), " "), 0, Strs(tokens), j);
    RangesFromShape(Strs(tokens), 0, j);
  }

  /** The overlap test of main.js:283, inclusive at both ends. */
  predicate Overlaps(r: Range, st: nat, ed: nat) {
    !(r.end < st || r.start > ed)
  }

  /** The positions from `i` on of the ranges that overlap `st..ed`, in
      increasing order. */
  function IncludedFrom(rs: seq<Range>, st: nat, ed: nat, i: nat): seq<nat>
    requires i <= |rs|
    decreases |rs| - i
  {
    if i == |rs| then []
    else if Overlaps(rs[i], st, ed) then [i] + IncludedFrom(rs, st, ed, i + 1)
    else IncludedFrom(rs, st, ed, i + 1)
  }

  function Included(rs: seq<Range>, st: nat, ed: nat): seq<nat> {
    IncludedFrom(rs, st, ed, 0)
  }

  /** `itemIndices` lists exactly the positions whose ranges overlap the
      sentence, each once and in increasing order. */
  lemma {:induction false} IncludedFromExact(rs: seq<Range>, st: nat, ed: nat, i: nat)
    requires i <= |rs|
    ensures forall n :: n in IncludedFrom(rs, st, ed, i) <==> i <= n < |rs| && Overlaps(rs[n], st, ed)
    ensures Increasing(IncludedFrom(rs, st, ed, i))
    decreases |rs| - i
  {
    if i < |rs| {
      IncludedFromExact(rs, st, ed, i + 1);
      var rest := IncludedFrom(rs, st, ed, i + 1);
      if Overlaps(rs[i], st, ed) {
        var r := [i] + rest;
        assert forall a :: 0 < a < |r| ==> r[a] == rest[a - 1];
        assert forall a :: 0 <= a < |rest| ==> rest[a] in rest;
      }
    }
  }

  lemma IncludedExact(rs: seq<Range>, st: nat, ed: nat)
    ensures forall n :: n in Included(rs, st, ed) <==> 0 <= n < |rs| && Overlaps(rs[n], st, ed)
    ensures Increasing(Included(rs, st, ed))
  {
    IncludedFromExact(rs, st, ed, 0);
  }

  /** What a placed sentence satisfies: a non-empty trimmed text that
      occurs in the page text at `startChar..endChar`, token positions that
      are exactly those overlapping it, and a start at or after `from`. */
  predicate SentenceSound(text: string, rs: seq<Range>, s: Sentence, from: nat) {
    && |s.text| > 0 && Trimmed(s.text)
    && s.endChar == s.startChar + |s.text| && from <= s.startChar
    && MatchAt(text, s.text, s.startChar)
    && s.itemIndices == Included(rs, s.startChar, s.endChar)
  }

  /** The outcome of one segment: the sentence it yields, if any, and where
      the next look-up starts. */
  datatype Lookup = Lookup(found: Option<Sentence>, next: nat)

  /** One pass of the loop body of main.js:277-285 for the trimmed segment
      `t`, looking up from `from`. A blank segment moves the start by one, a
      segment that is not found by its length plus one, and a found sentence
      to its end plus `advance` (main.js:285 uses 1). */
  function Locate(text: string, rs: seq<Range>, t: string, from: nat, advance: nat): (l: Lookup)
    requires Trimmed(t)
    ensures l.found.Some? ==>
      && SentenceSound(text, rs, l.found.value, from)
      && l.found.value.text == t
      && l.next == l.found.value.endChar + advance
    ensures l.found.Some? ==> forall i :: from <= i < l.found.value.startChar ==> !MatchAt(text, t, i)
    ensures l.found.None? ==> from < l.next
    ensures l.found.None? && |t| > 0 ==> forall i :: from <= i ==> !MatchAt(text, t, i)
  {
    if |t| == 0 then Lookup(None, from + 1)
    else
      IndexOfFirst(text, t, from);
      match IndexOf(text, t, from)
      case None => Lookup(None, from + |t| + 1)
      case Some(st) =>
        var ed := st + |t|;
        Lookup(Some(Sentence(t, st, ed, Included(rs, st, ed))), ed + advance)
  }

  /** The second loop of main.js:275-286 over the trimmed segments `ts`,
      looking up from `from`. */
  function Place(text: string, rs: seq<Range>, ts: seq<string>, from: nat, advance: nat): seq<Sentence>
    requires EachTrimmed(ts)
    decreases |ts|
  {
    if |ts| == 0 then []
    else
      var l := Locate(text, rs, ts[0], from, advance);
      if l.found.Some? then [l.found.value] + Place(text, rs, ts[1..], l.next, advance)
      else Place(text, rs, ts[1..], l.next, advance)
  }

  /** `buildSentencesAndMapItems(pageText, items)` as written. */
  function BuildSentences(pageText: string, tokens: seq<Token>): seq<Sentence> {
    Place(pageText, Ranges(tokens), TrimAll(SplitIntoSentences(pageText)), 0, 1)
  }

  /** The same with the look-up resuming right at the end of the previous
      sentence. */
  function BuildSentencesFixed(pageText: string, tokens: seq<Token>): seq<Sentence> {
    Place(pageText, Ranges(tokens), TrimAll(SplitIntoSentences(pageText)), 0, 0)
  }

  /** Every placed sentence is sound, the sentences come in document order
      at least `advance` apart, and there are never more of them than
      segments. */
  lemma PlaceSound(text: string, rs: seq<Range>, ts: seq<string>, from: nat, advance: nat, j: nat)
    requires EachTrimmed(ts) && j < |Place(text, rs, ts, from, advance)|
    ensures |Place(text, rs, ts, from, advance)| <= |ts|
    ensures var r := Place(text, rs, ts, from, advance);
      && SentenceSound(text, rs, r[j], from)
      && (j + 1 < |r| ==> r[j].endChar + advance <= r[j + 1].startChar)
  {
    PlaceLength(text, rs, ts, from, advance);
    PlaceSoundAt(text, rs, ts, from, advance, j);
    if j + 1 < |Place(text, rs, ts, from, advance)| {
      PlaceOrdered(text, rs, ts, from, advance, j);
    }
  }

  lemma {:induction false} PlaceLength(text: string, rs: seq<Range>, ts: seq<string>, from: nat, advance: nat)
    requires EachTrimmed(ts)
    ensures |Place(text, rs, ts, from, advance)| <= |ts|
    decreases |ts|
  {
    if |ts| > 0 {
      var l := Locate(text, rs, ts[0], from, advance);
      PlaceLength(text, rs, ts[1..], l.next, advance);
    }
  }

  lemma {:induction false} PlaceSoundAt(text: string, rs: seq<Range>, ts: seq<string>, from: nat, advance: nat, j: nat)
    requires EachTrimmed(ts) && j < |Place(text, rs, ts, from, advance)|
    ensures SentenceSound(text, rs, Place(text, rs, ts, from, advance)[j], from)
    decreases |ts|
  {
    var l := Locate(text, rs, ts[0], from, advance);
    var tail := Place(text, rs, ts[1..], l.next, advance);
    if l.found.None? {
      PlaceSoundAt(text, rs, ts[1..], l.next, advance, j);
    } else if j > 0 {
      PlaceSoundAt(text, rs, ts[1..], l.next, advance, j - 1);
      ConsAt(l.found.value, tail, j);
    }
  }

  lemma {:induction false} PlaceOrdered(text: string, rs: seq<Range>, ts: seq<string>, from: nat, advance: nat, j: nat)
    requires EachTrimmed(ts) && j + 1 < |Place(text, rs, ts, from, advance)|
    ensures var r := Place(text, rs, ts, from, advance); r[j].endChar + advance <= r[j + 1].startChar
    decreases |ts|
  {
    var l := Locate(text, rs, ts[0], from, advance);
    var tail := Place(text, rs, ts[1..], l.next, advance);
    if l.found.None? {
      PlaceOrdered(text, rs, ts[1..], l.next, advance, j);
    } else if j == 0 {
      PlaceSoundAt(text, rs, ts[1..], l.next, advance, 0);
      ConsAt(l.found.value, tail, 1);
    } else {
      PlaceOrdered(text, rs, ts[1..], l.next, advance, j - 1);
      ConsAt(l.found.value, tail, j);
      ConsAt(l.found.value, tail, j + 1);
    }
  }

  /** Sentence `j` of `r` carries the text of segment `ks[j]`, and the
      `ks` increase: the texts of `r` form a subsequence of `ts`. */
  predicate Picks(r: seq<Sentence>, ts: seq<string>, ks: seq<nat>) {
    && |ks| == |r| && Increasing(ks)
    && forall j :: 0 <= j < |ks| ==> ks[j] < |ts| && r[j].text == ts[ks[j]]
  }

  /** Every index one further on. */
  function Up(ks: seq<nat>): seq<nat> {
    seq(|ks|, m requires 0 <= m < |ks| => ks[m] + 1)
  }

  /** Picks among the later segments are picks among all of them. */
  lemma PicksUp(r: seq<Sentence>, ts: seq<string>, ks: seq<nat>)
    requires |ts| > 0 && Picks(r, ts[1..], ks)
    ensures Picks(r, ts, Up(ks))
  {
  }

  /** A sentence carrying the first segment, in front of picks among the
      later ones. */
  lemma PicksCons(x: Sentence, r: seq<Sentence>, ts: seq<string>, ks: seq<nat>)
    requires |ts| > 0 && x.text == ts[0] && Picks(r, ts[1..], ks)
    ensures Picks([x] + r, ts, [0] + Up(ks))
  {
    PicksUp(r, ts, ks);
    var up := Up(ks);
    forall j | 0 < j < |ks| + 1
      ensures ([0] + up)[j] == up[j - 1] && ([x] + r)[j] == r[j - 1]
    {
      ConsAt(x, r, j);
      ConsAt(0, up, j);
    }
  }

  /** The placed sentences are segments taken in order, so their texts
      form a subsequence of the segments. */
  lemma {:induction false} PlaceSegments(text: string, rs: seq<Range>, ts: seq<string>, from: nat, advance: nat) returns (ks: seq<nat>)
    requires EachTrimmed(ts)
    ensures Picks(Place(text, rs, ts, from, advance), ts, ks)
    decreases |ts|
  {
    if |ts| == 0 {
      ks := [];
    } else {
      var l := Locate(text, rs, ts[0], from, advance);
      var tail := Place(text, rs, ts[1..], l.next, advance);
      var rest := PlaceSegments(text, rs, ts[1..], l.next, advance);
      PlaceUnfold(text, rs, ts, from, advance);
      if l.found.Some? {
        PicksCons(l.found.value, tail, ts, rest);
        ks := [0] + Up(rest);
      } else {
        PicksUp(tail, ts, rest);
        ks := Up(rest);
      }
    }
  }

  /** The texts of the sentences, in order. */
  function Texts(ss: seq<Sentence>): (ts: seq<string>)
    ensures |ts| == |ss|
    decreases |ss|
  {
    if |ss| == 0 then [] else [ss[0].text] + Texts(ss[1..])
  }

  lemma TextsCons(s: Sentence, rest: seq<Sentence>)
    ensures Texts([s] + rest) == [s.text] + Texts(rest)
  {
    var r := [s] + rest;
    assert r[0] == s;
    assert r[1..] == rest;
  }

  /** Every segment is trimmed and non-empty. */
  predicate NonBlank(ts: seq<string>) {
    EachTrimmed(ts) && forall m :: 0 <= m < |ts| ==> |ts[m]| > 0
  }

  lemma NonBlankTail(ts: seq<string>)
    requires |ts| > 0 && NonBlank(ts)
    ensures |ts[0]| > 0 && Trimmed(ts[0]) && NonBlank(ts[1..])
  {
  }

  /** One step of the placement loop. */
  lemma PlaceUnfold(text: string, rs: seq<Range>, ts: seq<string>, from: nat, advance: nat)
    requires |ts| > 0 && EachTrimmed(ts)
    ensures var l := Locate(text, rs, ts[0], from, advance);
      Place(text, rs, ts, from, advance)
        == (if l.found.Some? then [l.found.value] else []) + Place(text, rs, ts[1..], l.next, advance)
  {
  }

  /** A look-up from `from` reaches position `k` first: `k` is `from`
      itself or the position after a space at `from`. */
  predicate Resumes(text: string, from: nat, k: nat) {
    from <= k <= from + 1 && (from < k ==> from < |text| && text[from] == ' ')
  }

  /** A non-empty trimmed segment that lies at `k`, which is the look-up
      start or the position after a space there, is found at `k`. */
  lemma LocateHere(text: string, rs: seq<Range>, t: string, from: nat, advance: nat, k: nat)
    requires |t| > 0 && Trimmed(t) && MatchAt(text, t, k)
    requires Resumes(text, from, k)
    ensures Locate(text, rs, t, from, advance)
      == Lookup(Some(Sentence(t, k, k + |t|, Included(rs, k, k + |t|))), k + |t| + advance)
  {
    MatchHead(text, t, from);
    IndexOfAt(text, t, from, k);
  }

  /** The first segment of a packed layout and where the rest begins. */
  lemma PackedStep(text: string, i: nat, segs: seq<string>) returns (k: nat, next: nat)
    requires |segs| > 0 && PackedFrom(text, i, segs) && NonBlank(segs)
    ensures Resumes(text, i, k) && next == k + |segs[0]|
    ensures MatchAt(text, segs[0], k) && PackedFrom(text, next, segs[1..]) && NonBlank(segs[1..])
  {
    NonBlankTail(segs);
    k := i + GapAt(text, i);
    next := k + |segs[0]|;
  }

  /** The first segment of a spaced layout and where the rest begins. */
  lemma SpacedStep(text: string, k: nat, segs: seq<string>, advance: nat)
    requires |segs| > 0 && SpacedFrom(text, k, segs) && advance <= 1
    ensures MatchAt(text, segs[0], k) && SpacedFrom(text, k + |segs[0]| + 1, segs[1..])
    ensures |segs| > 1 ==> Resumes(text, k + |segs[0]| + advance, k + |segs[0]| + 1)
  {
  }

  /** When the first segment lies where `LocateHere` finds it, placing the
      segments yields it first and goes on from its end. */
  lemma PlaceFound(text: string, rs: seq<Range>, ts: seq<string>, from: nat, advance: nat, k: nat)
    requires |ts| > 0 && NonBlank(ts) && MatchAt(text, ts[0], k)
    requires Resumes(text, from, k)
    ensures NonBlank(ts[1..])
    ensures Texts(Place(text, rs, ts, from, advance))
      == [ts[0]] + Texts(Place(text, rs, ts[1..], k + |ts[0]| + advance, advance))
  {
    NonBlankTail(ts);
    LocateHere(text, rs, ts[0], from, advance, k);
    var l := Locate(text, rs, ts[0], from, advance);
    PlaceUnfold(text, rs, ts, from, advance);
    TextsCons(l.found.value, Place(text, rs, ts[1..], l.next, advance));
  }

  /** When the first segment is found and the rest are all found after
      it, all of them are found. */
  lemma PlaceAll(text: string, rs: seq<Range>, ts: seq<string>, from: nat, advance: nat, k: nat, next: nat)
    requires |ts| > 0 && NonBlank(ts) && MatchAt(text, ts[0], k)
    requires Resumes(text, from, k) && next == k + |ts[0]| + advance
    requires Texts(Place(text, rs, ts[1..], next, advance)) == ts[1..]
    ensures Texts(Place(text, rs, ts, from, advance)) == ts
  {
    PlaceFound(text, rs, ts, from, advance, k);
    HeadTail(ts, Texts(Place(text, rs, ts, from, advance)), ts[1..]);
  }

  /** Segments laid end to end, each after at most one space, are all
      found, in order, when every look-up resumes right at the end of the
      previous sentence. */
  lemma {:induction false} PlacePacked(text: string, rs: seq<Range>, ts: seq<string>, from: nat)
    requires PackedFrom(text, from, ts) && NonBlank(ts)
    ensures Texts(Place(text, rs, ts, from, 0)) == ts
    decreases |ts|
  {
    if |ts| > 0 {
      var k, next := PackedStep(text, from, ts);
      PlacePacked(text, rs, ts[1..], next);
      PlaceAll(text, rs, ts, from, 0, k, next);
    }
  }

  /** Segments that lie one space apart, as in their single-space join, are
      all found, in order, whether a look-up resumes at the end of the
      previous sentence or one character after it. */
  lemma {:induction false} PlaceSpaced(text: string, rs: seq<Range>, ts: seq<string>, from: nat, advance: nat, k: nat)
    requires advance <= 1 && SpacedFrom(text, k, ts) && NonBlank(ts)
    requires |ts| > 0 ==> Resumes(text, from, k)
    ensures Texts(Place(text, rs, ts, from, advance)) == ts
    decreases |ts|
  {
    if |ts| > 0 {
      SpacedStep(text, k, ts, advance);
      NonBlankTail(ts);
      PlaceSpaced(text, rs, ts[1..], k + |ts[0]| + advance, advance, k + |ts[0]| + 1);
      PlaceAll(text, rs, ts, from, advance, k, k + |ts[0]| + advance);
    }
  }


  /** With the look-up resuming at the end of the previous sentence, every
      sentence the segmenter cuts from a normalized page text is found, in
      order, under both the CJK and the Latin rule. */
  lemma FixedFindsEverySentence(text: string, tokens: seq<Token>)
    requires Normalized(text)
    ensures Texts(BuildSentencesFixed(text, tokens)) == SplitIntoSentences(text)
  {
    var ss := SplitIntoSentences(text);
    var rs := Ranges(tokens);
    NormalizeKeeps(text);
    assert NonBlank(ss);
    TrimAllKeeps(ss);
    if AllSpace(text) {
      assert Place(text, rs, ss, 0, 0) == [];
    } else if HasCjkStop(text) {
      CjkMode(text);
      PlacePacked(text, rs, ss, 0);
    } else {
      LatinMode(text);
      JoinSpaced(ss);
      PlaceSpaced(text, rs, ss, 0, 0, 0);
    }
  }

  /** The mapper as written finds every sentence of a normalized page text
      under the Latin rule, where one space separates the sentences. */
  lemma AsWrittenFindsLatinSentences(text: string, tokens: seq<Token>)
    requires Normalized(text) && !HasCjkStop(text)
    ensures Texts(BuildSentences(text, tokens)) == SplitIntoSentences(text)
  {
    var ss := SplitIntoSentences(text);
    var rs := Ranges(tokens);
    NormalizeKeeps(text);
    assert NonBlank(ss);
    TrimAllKeeps(ss);
    if AllSpace(text) {
      assert Place(text, rs, ss, 0, 1) == [];
    } else {
      LatinMode(text);
      JoinSpaced(ss);
      PlaceSpaced(text, rs, ss, 0, 1, 0);
    }
  }

  /** The segmenter cuts "あ。い。" into two sentences. */
  lemma CjkExampleSplit()
    ensures SplitIntoSentences("あ。い。") == ["あ。", "い。"]
  {
    var t := "あ。い。";
    CjkExampleNormalized();
    NormalizeKeeps(t);
    TrimKeeps(t);
    CjkExamplePieces();
    CjkExampleTrimPieces();
  }

  lemma CjkExamplePieces()
    ensures HasCjkStop("あ。い。") && CjkSplit("あ。い。") == ["あ。", "い。"]
  {
    var t := "あ。い。";
    assert IsCjkStop(t[1]);
    assert CjkStopFrom(t, 0) == 1;
    assert CjkStopFrom(t, 2) == 3;
    assert t[0..2] == "あ。" && t[2..] == "い。";
  }

  lemma CjkExampleTrimPieces()
    ensures TrimPieces(["あ。", "い。"]) == ["あ。", "い。"]
  {
    TrimKeeps("あ。");
    TrimKeeps("い。");
    var p := ["あ。", "い。"];
    assert p[1..] == ["い。"];
    assert TrimPieces(p[1..]) == ["い。"];
  }

  /** "あ。い。" is a normalized text. */
  lemma CjkExampleNormalized()
    ensures Normalized("あ。い。")
  {
    var t := "あ。い。";
    assert !IsSpace(t[0]) && !IsSpace(t[1]) && !IsSpace(t[2]) && !IsSpace(t[3]);
    assert CollapsedFrom(t, 3);
    assert CollapsedFrom(t, 1);
  }

  /** The mapper as written loses the second of two CJK sentences with no
      space between them: after "あ。" ends at 2 it resumes at 3, past the
      start of "い。". */
  lemma AsWrittenDropsCjkSentence(tokens: seq<Token>)
    ensures |SplitIntoSentences("あ。い。")| == 2
    ensures Texts(BuildSentences("あ。い。", tokens)) == ["あ。"]
  {
    var t := "あ。い。";
    var rs := Ranges(tokens);
    var ss := ["あ。", "い。"];
    CjkExampleSplit();
    CjkExampleTrimmed();
    TrimAllKeeps(ss);
    CjkExampleFirst(rs);
    CjkExampleSecond(rs);
    PlaceUnfold(t, rs, ss, 0, 1);
    TextsCons(Locate(t, rs, ss[0], 0, 1).found.value, []);
  }

  lemma CjkExampleTrimmed()
    ensures EachTrimmed(["あ。", "い。"])
  {
    var ss := ["あ。", "い。"];
    TrimKeeps(ss[0]);
    TrimKeeps(ss[1]);
  }

  /** The first sentence is found at 0 and the next look-up starts at 3. */
  lemma CjkExampleFirst(rs: seq<Range>)
    ensures Trimmed("あ。")
    ensures var l := Locate("あ。い。", rs, "あ。", 0, 1); l.found.Some? && l.found.value.text == "あ。" && l.next == 3
  {
    var t := "あ。い。";
    assert t[0..2] == "あ。";
    assert MatchAt(t, "あ。", 0);
    IndexOfAt(t, "あ。", 0, 0);
  }

  /** From 3 on, the second sentence is not found. */
  lemma CjkExampleSecond(rs: seq<Range>)
    ensures Trimmed("い。") && EachTrimmed(["い。"])
    ensures Place("あ。い。", rs, ["い。"], 3, 1) == []
  {
    var t := "あ。い。";
    assert !MatchAt(t, "い。", 3);
    assert IndexOf(t, "い。", 3) == None;
    assert ["い。"][1..] == [];
  }

  /** Resuming at the end of the previous sentence finds both. */
  lemma FixedKeepsCjkSentence(tokens: seq<Token>)
    ensures Texts(BuildSentencesFixed("あ。い。", tokens)) == ["あ。", "い。"]
  {
    CjkExampleSplit();
    CjkExampleNormalized();
    FixedFindsEverySentence("あ。い。", tokens);
  }

  lemma RawExampleNormalize()
    ensures Normalize("a  b") == "a b"
  {
    var raw := "a  b";
    var t := "a b";
    assert SkipSpace(raw, 1) == 3;
    assert CollapseFrom(raw, 3) == "b";
    assert Collapse(raw) == t;
    assert Trimmed(t);
    TrimKeeps(t);
    assert CrlfToLfFrom(raw, 3) == "b";
    assert CrlfToLfFrom(raw, 1) == "  b";
  }

  /** "a  b" is one Latin sentence, "a b". */
  lemma RawExampleSplit()
    ensures SplitIntoSentences("a  b") == ["a b"]
  {
    var raw := "a  b";
    var t := "a b";
    RawExampleNormalize();
    RawExampleChars();
    SplitLatin(raw);
    NoLatinStopNoCut(t);
  }

  lemma RawExampleChars()
    ensures !AllSpace("a  b") && !HasCjkStop("a b")
    ensures forall i :: 0 <= i < |"a b"| ==> !IsLatinStop("a b"[i])
  {
    var raw := "a  b";
    var t := "a b";
    assert !IsSpace(raw[0]);
    assert !IsCjkStop(t[0]) && !IsCjkStop(t[1]) && !IsCjkStop(t[2]);
    assert !IsLatinStop(t[0]) && !IsLatinStop(t[1]) && !IsLatinStop(t[2]);
  }

  lemma RawExampleMissing()
    ensures IndexOf("a  b", "a b", 0) == None
  {
    var raw := "a  b";
    var t := "a b";
    assert !MatchAt(raw, t, 0) by { assert raw[0..3][2] != t[2]; }
    assert !MatchAt(raw, t, 1) by { assert raw[1..4][0] != t[0]; }
    assert !MatchAt(raw, t, 2);
    assert IndexOf(raw, t, 2) == None;
  }

  /** On the OCR path the page text is the raw recognized text, while the
      segments come from its normalized form: a sentence holding a doubled
      space is not found in the raw text, and no sentence is emitted. */
  lemma RawTextLosesSentence(tokens: seq<Token>)
    ensures SplitIntoSentences("a  b") == ["a b"]
    ensures BuildSentences("a  b", tokens) == []
  {
    var ss := ["a b"];
    RawExampleSplit();
    RawExampleMissing();
    assert Trimmed(ss[0]);
    TrimAllKeeps(ss);
    assert ss[1..] == [];
    PlaceUnfold("a  b", Ranges(tokens), ss, 0, 1);
  }
}
