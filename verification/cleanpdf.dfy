/** `cleanPdfText` of clean_pdf.js: five string rewrites applied in order
    to text copied out of a PDF. Each step is a function of its own; the
    regular expressions are replaced by scans that make the same choices
    (left to right, longest run). */
module CleanPdf {
  import opened Text

  /** The temporary paragraph marker of step 2. */
  const Marker: string := "__PARAGRAPH_BREAK__"

  /** What the proofs need of a marker: it starts with `_` (so neither a
      space nor a letter begins one), holds no newline, and is longer than
      the short examples below. Steps 2 and 4 take the marker as a
      parameter so that the proofs about them hold for any such marker. */
  predicate MarkerShape(m: string) {
    |m| >= 3 && m[0] == '_' && forall k :: 0 <= k < |m| ==> m[k] != '\n'
  }

  lemma MarkerShaped()
    ensures MarkerShape(Marker)
  {
  }

  /** `s` holds no newline character. */
  predicate NoNewline(s: string) {
    forall k :: 0 <= k < |s| ==> s[k] != '\n'
  }

  /* ---------------- step 1: `replace(/-\n/g, '')` ---------------- */

  /** Deletes every hyphen that ends a line, together with the newline. */
  function Dehyphen(s: string): (r: string)
    ensures |r| <= |s|
  {
    if |s| == 0 then ""
    else if |s| >= 2 && s[0] == '-' && s[1] == '\n' then Dehyphen(s[2..])
    else [s[0]] + Dehyphen(s[1..])
  }

  lemma DehyphenCons(c: char, t: string)
    requires !(c == '-' && |t| > 0 && t[0] == '\n')
    ensures Dehyphen([c] + t) == [c] + Dehyphen(t)
  {
    var s := [c] + t;
    assert s[0] == c;
    assert s[1..] == t;
  }

  lemma DehyphenPair(t: string)
    ensures Dehyphen("-\n" + t) == Dehyphen(t)
  {
    var s := "-\n" + t;
    assert s[2..] == t;
  }

  /** Two occurrences of `-\n` never overlap, so the scan acts on each
      part of a concatenation separately unless a pair straddles the seam. */
  lemma {:induction false} DehyphenConcat(a: string, b: string)
    requires !(|a| > 0 && a[|a| - 1] == '-' && |b| > 0 && b[0] == '\n')
    ensures Dehyphen(a + b) == Dehyphen(a) + Dehyphen(b)
    decreases |a|
  {
    if |a| == 0 {
      assert a + b == b;
    } else if |a| >= 2 && a[0] == '-' && a[1] == '\n' {
      var t := a[2..];
      assert a == "-\n" + t;
      assert |t| > 0 ==> t[|t| - 1] == a[|a| - 1];
      DehyphenConcat(t, b);
      ConcatPairStep(t, b);
    } else {
      var c, t := a[0], a[1..];
      assert a == [c] + t;
      assert |t| > 0 ==> t[|t| - 1] == a[|a| - 1];
      DehyphenConcat(t, b);
      ConcatCharStep(c, t, b);
    }
  }

  lemma ConcatPairStep(t: string, b: string)
    requires Dehyphen(t + b) == Dehyphen(t) + Dehyphen(b)
    ensures Dehyphen("-\n" + t + b) == Dehyphen("-\n" + t) + Dehyphen(b)
  {
    Assoc("-\n", t, b);
    DehyphenPair(t + b);
    DehyphenPair(t);
  }

  lemma ConcatCharStep(c: char, t: string, b: string)
    requires !(c == '-' && |t| > 0 && t[0] == '\n')
    requires !(c == '-' && |t| == 0 && |b| > 0 && b[0] == '\n')
    requires Dehyphen(t + b) == Dehyphen(t) + Dehyphen(b)
    ensures Dehyphen([c] + t + b) == Dehyphen([c] + t) + Dehyphen(b)
  {
    Assoc([c], t, b);
    assert |t + b| > 0 ==> (t + b)[0] == (if |t| > 0 then t[0] else b[0]);
    DehyphenCons(c, t + b);
    DehyphenCons(c, t);
    Assoc([c], Dehyphen(t), Dehyphen(b));
  }

  /** Every `-\n` is deleted, whatever stands around it. */
  lemma DehyphenDrops(a: string, b: string)
    ensures Dehyphen(a + "-\n" + b) == Dehyphen(a) + Dehyphen(b)
  {
    DehyphenConcat(a, "-\n" + b);
    DehyphenPair(b);
    assert a + "-\n" + b == a + ("-\n" + b);
  }

  /** Text without a newline is left as it is. */
  lemma {:induction false} DehyphenKeeps(s: string)
    requires NoNewline(s)
    ensures Dehyphen(s) == s
  {
    if |s| > 0 {
      var c, t := s[0], s[1..];
      assert s == [c] + t;
      assert forall k :: 0 <= k < |t| ==> t[k] == s[k + 1];
      DehyphenCons(c, t);
      DehyphenKeeps(t);
    }
  }

  /* ---------------- step 2: `replace(/\n{2,}/g, m)` ---------------- */

  /** End of the run of newlines of `s` that starts at `i`. */
  function NewlineEnd(s: string, i: nat): (e: nat)
    requires i <= |s|
    ensures i <= e <= |s|
    ensures e < |s| ==> s[e] != '\n'
    decreases |s| - i
  {
    if i < |s| && s[i] == '\n' then NewlineEnd(s, i + 1) else i
  }

  lemma {:induction false} NewlineEndExact(s: string, i: nat, e: nat)
    requires i <= e <= |s| && (forall k :: i <= k < e ==> s[k] == '\n') && (e < |s| ==> s[e] != '\n')
    ensures NewlineEnd(s, i) == e
    decreases e - i
  {
    if i < e {
      NewlineEndExact(s, i + 1, e);
    }
  }

  /** Replaces each maximal run of two or more newlines by the marker `m`;
      a single newline stays. */
  function Paragraphs(s: string, m: string): (r: string)
  {
    if |s| == 0 then ""
    else if s[0] == '\n' then
      var n := NewlineEnd(s, 0);
      if n >= 2 then m + Paragraphs(s[n..], m) else "\n" + Paragraphs(s[1..], m)
    else [s[0]] + Paragraphs(s[1..], m)
  }

  lemma ParagraphsCons(c: char, t: string, m: string)
    requires c != '\n'
    ensures Paragraphs([c] + t, m) == [c] + Paragraphs(t, m)
  {
    var s := [c] + t;
    assert s[0] == c;
    assert s[1..] == t;
  }

  /** Text before the first newline passes step 2 unchanged. */
  lemma {:induction false} ParagraphsPrefix(a: string, u: string, m: string)
    requires NoNewline(a)
    ensures Paragraphs(a + u, m) == a + Paragraphs(u, m)
  {
    if |a| == 0 {
      assert a + u == u;
    } else {
      var c, t := a[0], a[1..];
      assert a == [c] + t;
      assert a + u == [c] + (t + u);
      assert forall k :: 0 <= k < |t| ==> t[k] == a[k + 1];
      ParagraphsCons(c, t + u, m);
      ParagraphsPrefix(t, u, m);
    }
  }

  /** Text without a newline is left as it is. */
  lemma ParagraphsKeeps(s: string, m: string)
    requires NoNewline(s)
    ensures Paragraphs(s, m) == s
  {
    ParagraphsPrefix(s, "", m);
    assert s + "" == s;
  }

  /** Step 2 at a run of exactly `n` newlines. */
  lemma ParagraphsAt(s: string, n: nat, m: string)
    requires 0 < n <= |s| && (forall k :: 0 <= k < n ==> s[k] == '\n') && (n < |s| ==> s[n] != '\n')
    ensures Paragraphs(s, m) == (if n >= 2 then m + Paragraphs(s[n..], m) else "\n" + Paragraphs(s[1..], m))
  {
    NewlineEndExact(s, 0, n);
  }

  /** A run of two or more newlines becomes one marker. */
  lemma ParagraphsRun(n: nat, t: string, m: string)
    requires n >= 2 && (|t| > 0 ==> t[0] != '\n')
    ensures Paragraphs(Newlines(n) + t, m) == m + Paragraphs(t, m)
  {
    var s := Newlines(n) + t;
    assert forall k :: 0 <= k < n ==> s[k] == '\n';
    assert |t| > 0 ==> s[n] == t[0];
    ParagraphsAt(s, n, m);
    assert s[n..] == t;
  }

  /** A single newline is kept by step 2. */
  lemma ParagraphsSingle(c: char, t: string, m: string)
    requires c == '\n' && (|t| > 0 ==> t[0] != '\n')
    ensures Paragraphs([c] + t, m) == [c] + Paragraphs(t, m)
  {
    var s := [c] + t;
    assert s[0] == c && |s| == |t| + 1;
    assert forall k :: 0 <= k < 1 ==> s[k] == '\n';
    assert 1 < |s| ==> s[1] != '\n';
    ParagraphsAt(s, 1, m);
    assert s[1..] == t;
  }

  /* ---------------- step 3: `replace(/\n/g, '')` ---------------- */

  /** Deletes every remaining newline, without putting anything in its place. */
  function DropNewlines(s: string): (r: string)
    ensures |r| <= |s|
    ensures forall k :: 0 <= k < |r| ==> r[k] != '\n'
  {
    if |s| == 0 then ""
    else
      var rest := DropNewlines(s[1..]);
      if s[0] == '\n' then rest
      else
        var r := [s[0]] + rest;
        assert forall k :: 1 <= k < |r| ==> r[k] == rest[k - 1];
        r
  }

  lemma DropNewlinesCons(c: char, t: string)
    ensures DropNewlines([c] + t) == (if c == '\n' then "" else [c]) + DropNewlines(t)
  {
    var s := [c] + t;
    assert s[0] == c;
    assert s[1..] == t;
  }

  /** The characters kept are exactly the non-newline ones, in order. */
  lemma {:induction false} DropNewlinesConcat(a: string, b: string)
    ensures DropNewlines(a + b) == DropNewlines(a) + DropNewlines(b)
  {
    if |a| == 0 {
      assert a + b == b;
    } else {
      var c, t := a[0], a[1..];
      assert a == [c] + t;
      assert a + b == [c] + (t + b);
      DropNewlinesCons(c, t + b);
      DropNewlinesCons(c, t);
      DropNewlinesConcat(t, b);
      var h := if c == '\n' then "" else [c];
      assert h + (DropNewlines(t) + DropNewlines(b)) == (h + DropNewlines(t)) + DropNewlines(b);
    }
  }

  /** Text without a newline is left as it is. */
  lemma {:induction false} DropNewlinesKeeps(s: string)
    requires NoNewline(s)
    ensures DropNewlines(s) == s
  {
    if |s| > 0 {
      var c, t := s[0], s[1..];
      assert s == [c] + t;
      assert forall k :: 0 <= k < |t| ==> t[k] == s[k + 1];
      DropNewlinesCons(c, t);
      DropNewlinesKeeps(t);
    }
  }

  // ---------------- step 4: `replace(/ *m */g, "\n\n")` ----------------

  /** End of the run of ASCII spaces of `s` that starts at `i`. */
  function SpaceEnd(s: string, i: nat): (e: nat)
    requires i <= |s|
    ensures i <= e <= |s|
    ensures e < |s| ==> s[e] != ' '
    decreases |s| - i
  {
    if i < |s| && s[i] == ' ' then SpaceEnd(s, i + 1) else i
  }

  lemma {:induction false} SpaceEndExact(s: string, i: nat, e: nat)
    requires i <= e <= |s| && (forall k :: i <= k < e ==> s[k] == ' ') && (e < |s| ==> s[e] != ' ')
    ensures SpaceEnd(s, i) == e
    decreases e - i
  {
    if i < e {
      SpaceEndExact(s, i + 1, e);
    }
  }

  /** At each position, the spaces there, the marker `m` right after them
      and the spaces after it become one paragraph break; otherwise the
      character is kept. Spaces not followed by the marker are kept one by
      one, as the regular expression fails at each of them. */
  function Unmark(s: string, m: string): (r: string)
    requires |m| > 0
  {
    if |s| == 0 then ""
    else
      var e := SpaceEnd(s, 0);
      if MatchAt(s, m, e) then
        var t := s[e + |m|..];
        "\n\n" + Unmark(t[SpaceEnd(t, 0)..], m)
      else [s[0]] + Unmark(s[1..], m)
  }

  /** Every newline has a newline next to it: newlines come in runs of at
      least two. */
  predicate NoLoneNewline(s: string) {
    forall k :: 0 <= k < |s| && s[k] == '\n' ==> (k > 0 && s[k - 1] == '\n') || (k + 1 < |s| && s[k + 1] == '\n')
  }

  /** A leading newline is followed by another. */
  predicate PairedStart(s: string) {
    |s| > 0 && s[0] == '\n' ==> |s| > 1 && s[1] == '\n'
  }

  lemma PairCons(t: string)
    requires NoLoneNewline(t)
    ensures NoLoneNewline("\n\n" + t) && PairedStart("\n\n" + t)
  {
    var r := "\n\n" + t;
    assert forall k :: 2 <= k < |r| ==> r[k] == t[k - 2];
  }

  lemma CharCons(c: char, t: string)
    requires c != '\n' && NoLoneNewline(t) && PairedStart(t)
    ensures NoLoneNewline([c] + t) && PairedStart([c] + t)
  {
    var r := [c] + t;
    assert forall k :: 1 <= k < |r| ==> r[k] == t[k - 1];
  }

  lemma SuffixNoNewline(s: string, i: nat)
    requires NoNewline(s) && i <= |s|
    ensures NoNewline(s[i..])
  {
    assert forall k :: 0 <= k < |s| - i ==> s[i..][k] == s[i + k];
  }

  /** Applied to text without newlines, step 4 makes newlines only in pairs. */
  lemma {:induction false} UnmarkPaired(s: string, m: string)
    requires |m| > 0 && NoNewline(s)
    ensures NoLoneNewline(Unmark(s, m)) && PairedStart(Unmark(s, m))
    decreases |s|
  {
    if |s| > 0 {
      var e := SpaceEnd(s, 0);
      if MatchAt(s, m, e) {
        var t := s[e + |m|..];
        SuffixNoNewline(s, e + |m|);
        SuffixNoNewline(t, SpaceEnd(t, 0));
        UnmarkPaired(t[SpaceEnd(t, 0)..], m);
        PairCons(Unmark(t[SpaceEnd(t, 0)..], m));
      } else {
        SuffixNoNewline(s, 1);
        UnmarkPaired(s[1..], m);
        CharCons(s[0], Unmark(s[1..], m));
      }
    }
  }

  lemma UnmarkCons(c: char, t: string, m: string)
    requires |m| > 0 && !MatchAt([c] + t, m, SpaceEnd([c] + t, 0))
    ensures Unmark([c] + t, m) == [c] + Unmark(t, m)
  {
    var s := [c] + t;
    assert s[0] == c;
    assert s[1..] == t;
  }

  /** Text in which the marker occurs nowhere is left as it is. */
  lemma {:induction false} UnmarkKeeps(s: string, m: string)
    requires |m| > 0 && forall i :: 0 <= i <= |s| ==> !MatchAt(s, m, i)
    ensures Unmark(s, m) == s
  {
    if |s| > 0 {
      var c, t := s[0], s[1..];
      assert s == [c] + t;
      assert !MatchAt(s, m, SpaceEnd(s, 0));
      UnmarkCons(c, t, m);
      NoMatchTail(s, m);
      UnmarkKeeps(t, m);
    }
  }

  lemma NoMatchTail(s: string, m: string)
    requires |s| > 0 && forall i :: 0 <= i <= |s| ==> !MatchAt(s, m, i)
    ensures forall i :: 0 <= i <= |s[1..]| ==> !MatchAt(s[1..], m, i)
  {
    var t := s[1..];
    forall i | 0 <= i <= |t| ensures !MatchAt(t, m, i) {
      assert !MatchAt(s, m, i + 1);
      if i + |m| <= |t| {
        assert t[i..i + |m|] == s[i + 1..i + 1 + |m|];
      }
    }
  }

  /** Text shorter than the marker cannot contain it. */
  lemma UnmarkKeepsShort(s: string, m: string)
    requires |s| < |m|
    ensures Unmark(s, m) == s
  {
    UnmarkKeeps(s, m);
  }

  /** A character that is neither a space nor the marker's first
      character cannot start a break. */
  lemma UnmarkPlainCons(c: char, t: string, m: string)
    requires |m| > 0 && c != ' ' && c != m[0]
    ensures Unmark([c] + t, m) == [c] + Unmark(t, m)
  {
    var s := [c] + t;
    SpaceEndExact(s, 0, 0);
    assert s[0] == c;
    MatchHead(s, m, 0);
    UnmarkCons(c, t, m);
  }

  /** The marker with the spaces on both sides of it becomes `\n\n`. */
  lemma UnmarkBreak(before: nat, after: nat, t: string, m: string)
    requires |m| > 0 && m[0] != ' ' && (|t| > 0 ==> t[0] != ' ')
    ensures Unmark(Spaces(before) + m + Spaces(after) + t, m) == "\n\n" + Unmark(t, m)
  {
    var u := Spaces(after) + t;
    var q := m + u;
    var s := Spaces(before) + q;
    Assoc(Spaces(before), m, u);
    Assoc(Spaces(before) + m, Spaces(after), t);
    assert q[0] == m[0];
    SpacesThen(before, q);
    MarkerThen(s, before, m, u);
    SpacesThen(after, t);
    UnmarkAt(s, m);
  }

  /** Step 4 at a match: the break, then the rest after the spaces that
      follow the marker. */
  lemma UnmarkAt(s: string, m: string)
    requires |m| > 0 && |s| > 0 && MatchAt(s, m, SpaceEnd(s, 0))
    ensures var t := s[SpaceEnd(s, 0) + |m|..]; Unmark(s, m) == "\n\n" + Unmark(t[SpaceEnd(t, 0)..], m)
  {
  }

  /** `n` spaces in front of a text not starting with a space. */
  lemma SpacesThen(n: nat, t: string)
    requires |t| > 0 ==> t[0] != ' '
    ensures SpaceEnd(Spaces(n) + t, 0) == n && (Spaces(n) + t)[n..] == t
  {
    var s := Spaces(n) + t;
    assert forall k :: 0 <= k < n ==> s[k] == ' ';
    assert n < |s| ==> s[n] == t[0];
    SpaceEndExact(s, 0, n);
  }

  /** Text that continues with the marker at `i` matches it there. */
  lemma MarkerThen(s: string, i: nat, m: string, u: string)
    requires i <= |s| && s[i..] == m + u
    ensures MatchAt(s, m, i) && s[i + |m|..] == u
  {
    assert s[i..i + |m|] == s[i..][..|m|];
    assert s[i + |m|..] == s[i..][|m|..];
  }

  /** `n` ASCII spaces. */
  function Spaces(n: nat): (r: string)
    ensures |r| == n && forall k :: 0 <= k < n ==> r[k] == ' '
  {
    seq(n, _ => ' ')
  }

  /** `n` newlines. */
  function Newlines(n: nat): (r: string)
    ensures |r| == n && forall k :: 0 <= k < n ==> r[k] == '\n'
  {
    seq(n, _ => '\n')
  }

  /* ---------------- step 5 and the whole ---------------- */

  /** The five steps with marker `m`. */
  function Clean(text: string, m: string): (r: string)
    requires |m| > 0
    ensures Trimmed(r)
    ensures NoLoneNewline(r)
  {
    var u := Unmark(DropNewlines(Paragraphs(Dehyphen(text), m)), m);
    UnmarkPaired(DropNewlines(Paragraphs(Dehyphen(text), m)), m);
    TrimPaired(u);
    Trim(u)
  }

  /** `cleanPdfText(text)` */
  function CleanPdfText(text: string): (r: string)
    ensures Trimmed(r)
    ensures NoLoneNewline(r)
  {
    Clean(text, Marker)
  }

  /** Trimming keeps newlines paired: it cuts only at white space, and the
      trimmed text starts and ends on a non-space character. */
  lemma TrimPaired(s: string)
    requires NoLoneNewline(s)
    ensures NoLoneNewline(Trim(s))
  {
    TrimIsInfix(s);
    var a := SkipSpace(s, 0);
    var r := Trim(s);
    forall k | 0 <= k < |r| && r[k] == '\n'
      ensures (k > 0 && r[k - 1] == '\n') || (k + 1 < |r| && r[k + 1] == '\n')
    {
      assert IsSpace(r[k]);
      assert 0 < k < |r| - 1;
      assert r[k] == s[a + k] && r[k - 1] == s[a + k - 1] && r[k + 1] == s[a + k + 1];
    }
  }

  /* ---------------- the rules, one at a time ---------------- */

  /** The steps before step 4 leave text without a newline as it is. */
  lemma FirstStepsKeep(s: string, m: string)
    requires |m| > 0 && NoNewline(s)
    ensures Clean(s, m) == Trim(Unmark(s, m))
  {
    DehyphenKeeps(s);
    ParagraphsKeeps(s, m);
    DropNewlinesKeeps(s);
  }

  /** Text with no newline and no marker is merely trimmed: every space,
      including runs of several, is kept. */
  lemma PlainTextTrimmed(text: string, m: string)
    requires |m| > 0 && NoNewline(text)
    requires forall i :: 0 <= i <= |text| ==> !MatchAt(text, m, i)
    ensures Clean(text, m) == Trim(text)
  {
    FirstStepsKeep(text, m);
    UnmarkKeeps(text, m);
  }

  /** A hyphen followed by a newline is deleted with it, gluing the two
      halves of the word. */
  lemma HyphenDeleted(a: string, b: string, m: string)
    requires |m| > 0
    requires !(|a| > 0 && a[|a| - 1] == '-' && |b| > 0 && b[0] == '\n')
    ensures Clean(a + "-\n" + b, m) == Clean(a + b, m)
  {
    DehyphenDrops(a, b);
    DehyphenConcat(a, b);
  }

  /** A newline on its own is deleted without a space in its place. */
  lemma NewlineDeleted(a: string, b: string, m: string)
    requires |m| > 0 && NoNewline(a) && NoNewline(b)
    requires |a| > 0 ==> a[|a| - 1] != '-'
    ensures Clean(a + "\n" + b, m) == Clean(a + b, m)
  {
    var x := a + "\n" + b;
    assert x == a + ("\n" + b);
    DehyphenConcat(a, "\n" + b);
    DehyphenKeeps(a);
    DehyphenCons('\n', b);
    DehyphenKeeps(b);
    assert Dehyphen(x) == x;
    ParagraphsPrefix(a, "\n" + b, m);
    ParagraphsSingle('\n', b, m);
    ParagraphsKeeps(b, m);
    assert Paragraphs(x, m) == x;
    DropNewlinesConcat(a, "\n" + b);
    DropNewlinesCons('\n', b);
    DropNewlinesKeeps(a);
    DropNewlinesKeeps(b);
    var y := a + b;
    assert DropNewlines(x) == y;
    assert forall k :: 0 <= k < |y| ==> y[k] == (if k < |a| then a[k] else b[k - |a|]);
    FirstStepsKeep(y, m);
  }

  /** A run of two or more newlines between two lines becomes `\n\n`, and
      the spaces on both sides of it are removed. */
  lemma ParagraphBreak(a: string, before: nat, n: nat, after: nat, b: string, m: string)
    requires MarkerShape(m) && n >= 2
    requires NoNewline(a) && NoNewline(b)
    requires |a| > 0 ==> a[|a| - 1] != ' ' && (before == 0 ==> a[|a| - 1] != '-')
    requires |b| > 0 ==> b[0] != ' '
    requires forall k :: 0 <= k < |a| ==> a[k] != m[0]
    ensures Clean(a + Spaces(before) + Newlines(n) + Spaces(after) + b, m) == Trim(a + "\n\n" + Unmark(b, m))
  {
    BreakFirstSteps(a, before, n, after, b, m);
    UnmarkBeforeBreak(a, before, after, b, m);
  }

  /** Steps 1 to 3 turn the newline run into the marker and change
      nothing else. */
  lemma BreakFirstSteps(a: string, before: nat, n: nat, after: nat, b: string, m: string)
    requires MarkerShape(m) && n >= 2
    requires NoNewline(a) && NoNewline(b)
    requires |a| > 0 && before == 0 ==> a[|a| - 1] != '-'
    requires |b| > 0 ==> b[0] != ' '
    ensures DropNewlines(Paragraphs(Dehyphen(a + Spaces(before) + Newlines(n) + Spaces(after) + b), m))
      == a + (Spaces(before) + m + Spaces(after) + b)
  {
    var sa := a + Spaces(before);
    var sb := Spaces(after) + b;
    var x := sa + (Newlines(n) + sb);
    assert x == a + Spaces(before) + Newlines(n) + Spaces(after) + b;
    BreakParts(a, before, after, b);
    BreakStep1(sa, n, sb);
    BreakStep2(sa, n, sb, m);
    BreakStep3(sa, sb, m);
    Regroup(a, Spaces(before), m, Spaces(after), b);
  }

  lemma Regroup(a: string, p: string, m: string, q: string, b: string)
    ensures (a + p) + m + (q + b) == a + (p + m + q + b)
  {
    assert (a + p) + m + (q + b) == a + (p + m + q + b);
  }

  lemma BreakParts(a: string, before: nat, after: nat, b: string)
    requires NoNewline(a) && NoNewline(b)
    requires |a| > 0 && before == 0 ==> a[|a| - 1] != '-'
    requires |b| > 0 ==> b[0] != ' '
    ensures NoNewline(a + Spaces(before)) && NoNewline(Spaces(after) + b)
    ensures |a + Spaces(before)| > 0 ==> (a + Spaces(before))[|a + Spaces(before)| - 1] != '-'
    ensures |Spaces(after) + b| > 0 ==> (Spaces(after) + b)[0] != '\n'
  {
    var sa := a + Spaces(before);
    assert forall k :: 0 <= k < |sa| ==> sa[k] == (if k < |a| then a[k] else ' ');
    var sb := Spaces(after) + b;
    assert forall k :: 0 <= k < |sb| ==> sb[k] == (if k < after then ' ' else b[k - after]);
  }

  lemma BreakStep1(sa: string, n: nat, sb: string)
    requires NoNewline(sa) && NoNewline(sb)
    requires |sa| > 0 ==> sa[|sa| - 1] != '-'
    ensures Dehyphen(sa + (Newlines(n) + sb)) == sa + (Newlines(n) + sb)
  {
    DehyphenConcat(sa, Newlines(n) + sb);
    DehyphenKeeps(sa);
    NewlinesDehyphen(n, sb);
  }

  lemma BreakStep2(sa: string, n: nat, sb: string, m: string)
    requires NoNewline(sa) && NoNewline(sb) && n >= 2
    requires |sb| > 0 ==> sb[0] != '\n'
    ensures Paragraphs(sa + (Newlines(n) + sb), m) == sa + m + sb
  {
    ParagraphsPrefix(sa, Newlines(n) + sb, m);
    ParagraphsRun(n, sb, m);
    ParagraphsKeeps(sb, m);
  }

  lemma BreakStep3(sa: string, sb: string, m: string)
    requires NoNewline(sa) && NoNewline(sb) && MarkerShape(m)
    ensures DropNewlines(sa + m + sb) == sa + m + sb
  {
    var y := sa + m + sb;
    assert forall k :: 0 <= k < |y| ==> y[k] == (if k < |sa| then sa[k] else if k < |sa| + |m| then m[k - |sa|] else sb[k - |sa| - |m|]);
    DropNewlinesKeeps(y);
  }

  /** Newlines survive step 1 when nothing hyphenates them. */
  lemma {:induction false} NewlinesDehyphen(n: nat, t: string)
    requires NoNewline(t)
    ensures Dehyphen(Newlines(n) + t) == Newlines(n) + t
  {
    if n == 0 {
      assert Newlines(0) + t == t;
      DehyphenKeeps(t);
    } else {
      assert Newlines(n) + t == ['\n'] + (Newlines(n - 1) + t);
      DehyphenCons('\n', Newlines(n - 1) + t);
      NewlinesDehyphen(n - 1, t);
    }
  }

  lemma {:induction false} SpaceEndBefore(s: string, i: nat, j: nat)
    requires i <= j < |s| && s[j] != ' '
    ensures SpaceEnd(s, i) <= j
    decreases j - i
  {
    if i < j && s[i] == ' ' {
      SpaceEndBefore(s, i + 1, j);
    }
  }

  /** Where the first non-space character is not the marker's first
      character, step 4 keeps the first character. */
  lemma UnmarkSkip(s: string, m: string)
    requires |m| > 0 && SpaceEnd(s, 0) < |s| && s[SpaceEnd(s, 0)] != m[0]
    ensures Unmark(s, m) == [s[0]] + Unmark(s[1..], m)
  {
    var e := SpaceEnd(s, 0);
    MatchHead(s, m, e);
  }

  /** Step 4 copies a line holding no marker character, then turns the
      break into `\n\n`. */
  lemma {:induction false} UnmarkBeforeBreak(a: string, before: nat, after: nat, b: string, m: string)
    requires MarkerShape(m)
    requires |a| > 0 ==> a[|a| - 1] != ' '
    requires |b| > 0 ==> b[0] != ' '
    requires forall k :: 0 <= k < |a| ==> a[k] != m[0]
    ensures Unmark(a + (Spaces(before) + m + Spaces(after) + b), m) == a + "\n\n" + Unmark(b, m)
    decreases |a|
  {
    var rest := Spaces(before) + m + Spaces(after) + b;
    if |a| == 0 {
      assert a + rest == rest;
      UnmarkBreak(before, after, b, m);
      assert a + "\n\n" == "\n\n";
    } else {
      var c, t := a[0], a[1..];
      UnmarkLinePrefix(a, rest, m);
      assert |t| > 0 ==> t[|t| - 1] == a[|a| - 1];
      assert forall k :: 0 <= k < |t| ==> t[k] == a[k + 1];
      UnmarkBeforeBreak(t, before, after, b, m);
      var tail := Unmark(b, m);
      Assoc([c], t + "\n\n", tail);
      Assoc([c], t, "\n\n");
      assert a == [c] + t;
    }
  }

  /** The first character of a line that holds no marker character and
      does not end in a space is copied by step 4. */
  lemma UnmarkLinePrefix(a: string, rest: string, m: string)
    requires |m| > 0 && |a| > 0 && a[|a| - 1] != ' '
    requires forall k :: 0 <= k < |a| ==> a[k] != m[0]
    ensures Unmark(a + rest, m) == [a[0]] + Unmark(a[1..] + rest, m)
  {
    var s := a + rest;
    assert forall k :: 0 <= k < |a| ==> s[k] == a[k];
    SpaceEndBefore(s, 0, |a| - 1);
    UnmarkSkip(s, m);
    assert s[1..] == a[1..] + rest;
  }

  /* ---------------- examples ---------------- */

  /** A hyphen before a space is not a line-end hyphen: the paragraph
      break after it survives. */
  lemma SpacedHyphenKept(m: string)
    requires MarkerShape(m)
    ensures Clean("a- \n\nb", m) == "a-\n\nb"
  {
    SpacedHyphenBreak(m);
    TrimKeeps("a-\n\nb");
  }

  lemma SpacedHyphenBreak(m: string)
    requires MarkerShape(m)
    ensures Clean("a- \n\nb", m) == Trim("a-\n\nb")
  {
    SpacedHyphenLiteral();
    ParagraphBreak("a-", 1, 2, 0, "b", m);
    UnmarkKeepsShort("b", m);
    BreakLiteral("a-", "b");
    BreakLiterals();
  }

  lemma SpacedHyphenLiteral()
    ensures "a-" + Spaces(1) + Newlines(2) + Spaces(0) + "b" == "a- \n\nb"
  {
    assert Spaces(1) == " " && Newlines(2) == "\n\n" && Spaces(0) == "";
  }

  /** A hyphen right before a paragraph break glues the two paragraphs. */
  lemma HyphenBreakGlued(m: string)
    requires MarkerShape(m)
    ensures Clean("a-\n\nb", m) == "ab"
  {
    HyphenBreakDeleted(m);
    PlainTextTrimmed("ab", m);
    TrimKeeps("ab");
  }

  lemma HyphenBreakDeleted(m: string)
    requires MarkerShape(m)
    ensures Clean("a-\n\nb", m) == Clean("ab", m)
  {
    assert "a-\n\nb" == "a" + "-\n" + "\nb";
    HyphenDeleted("a", "\nb", m);
    assert "a" + "\nb" == "a" + "\n" + "b";
    NewlineDeleted("a", "b", m);
    assert "a" + "b" == "ab";
  }

  /** Cleaning is not idempotent: a second pass changes the output of
      the first. */
  lemma NotIdempotent(m: string)
    requires MarkerShape(m)
    ensures var once := Clean("a- \n\nb", m); Clean(once, m) != once
  {
    SpacedHyphenKept(m);
    HyphenBreakGlued(m);
    assert "ab" != "a-\n\nb";
  }

  /** The marker inside the input is read as a paragraph break. */
  lemma MarkerInInput(m: string)
    requires MarkerShape(m)
    ensures Clean("a" + m + "b", m) == "a\n\nb"
  {
    var s := "a" + m + "b";
    assert forall k :: 0 <= k < |s| ==> s[k] == (if k == 0 then 'a' else if k <= |m| then m[k - 1] else 'b');
    FirstStepsKeep(s, m);
    MarkerUnmarked(m);
    TrimKeeps("a\n\nb");
  }

  lemma MarkerUnmarked(m: string)
    requires MarkerShape(m)
    ensures Unmark("a" + m + "b", m) == "a\n\nb"
  {
    Regroup("a", Spaces(0), m, Spaces(0), "b");
    assert "a" + Spaces(0) == "a";
    assert Spaces(0) + "b" == "b";
    UnmarkBeforeBreak("a", 0, 0, "b", m);
    UnmarkKeepsShort("b", m);
    BreakLiteral("a", "b");
    BreakLiterals();
  }

  /** The break between two short lines, as one literal. */
  lemma BreakLiteral(a: string, b: string)
    requires |a| <= 2 && |b| == 1
    ensures a + "\n\n" + b == a + ['\n', '\n', b[0]]
  {
    assert "\n\n" + b == ['\n', '\n', b[0]];
    Assoc(a, "\n\n", b);
  }

  lemma BreakLiterals()
    ensures "a-" + ['\n', '\n', 'b'] == "a-\n\nb"
    ensures "a" + ['\n', '\n', 'b'] == "a\n\nb"
  {
  }

  /** `cleanPdfText` is not idempotent. */
  lemma CleanPdfTextNotIdempotent()
    ensures var once := CleanPdfText("a- \n\nb"); CleanPdfText(once) != once
  {
    MarkerShaped();
    NotIdempotent(Marker);
  }

  /** `cleanPdfText` turns its own marker, met in the input, into a
      paragraph break. */
  lemma CleanPdfTextMarkerCollision()
    ensures CleanPdfText("a" + Marker + "b") == "a\n\nb"
  {
    MarkerShaped();
    MarkerInInput(Marker);
  }
}
