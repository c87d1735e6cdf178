/** Character-level helpers shared by the sentence segmenter, the
    sentence-token mapper, the quote scorer and the PDF text cleaner:
    JavaScript's notion of white space, `trim()`, the `replace(/\s+/g, ' ')`
    collapse, `Array.prototype.join` and `String.prototype.indexOf`.

    Strings are sequences of code points; UTF-16 surrogate pairs are not
    modelled, so `.length` and code-point counts coincide here. */
module Text {

  datatype Option<+T> = None | Some(value: T)

  /** The characters matched by JavaScript's `\s` class, which are also the
      characters `String.prototype.trim` removes: tab, line feed, vertical
      tab, form feed, carriage return, space, no-break space, ogham space
      mark, the space separators U+2000..U+200A, line separator, paragraph
      separator, narrow no-break space, medium mathematical space,
      ideographic space and the byte-order mark. */
  predicate IsSpace(c: char) {
    || c == '\t' || c == '\n' || c == '\U{000B}' || c == '\U{000C}' || c == '\r'
    || c == ' ' || c == '\U{00A0}' || c == '\U{1680}'
    || ('\U{2000}' <= c <= '\U{200A}')
    || c == '\U{2028}' || c == '\U{2029}' || c == '\U{202F}' || c == '\U{205F}'
    || c == '\U{3000}' || c == '\U{FEFF}'
  }

  predicate AllSpace(s: string) {
    forall i :: 0 <= i < |s| ==> IsSpace(s[i])
  }

  lemma AllSpaceConcat(a: string, b: string)
    ensures AllSpace(a + b) <==> AllSpace(a) && AllSpace(b)
  {
    if AllSpace(a) && AllSpace(b) {
      forall i | 0 <= i < |a + b| ensures IsSpace((a + b)[i]) {
        if i >= |a| { assert (a + b)[i] == b[i - |a|]; }
      }
    }
    if AllSpace(a + b) {
      forall i | 0 <= i < |a| ensures IsSpace(a[i]) {
        assert (a + b)[i] == a[i];
      }
      forall i | 0 <= i < |b| ensures IsSpace(b[i]) {
        assert (a + b)[|a| + i] == b[i];
      }
    }
  }

  /** `s` has no white space at either end. */
  predicate Trimmed(s: string) {
    |s| > 0 ==> !IsSpace(s[0]) && !IsSpace(s[|s| - 1])
  }

  /** From position `i` on, every white-space character of `s` is an ASCII
      space and is not followed by another white-space character. Stated
      position by position, so that the solver unfolds it only on demand. */
  predicate CollapsedFrom(s: string, i: nat)
    decreases |s| - i
  {
    || i >= |s|
    || (&& (IsSpace(s[i]) ==> s[i] == ' ' && (i + 1 < |s| ==> !IsSpace(s[i + 1])))
        && CollapsedFrom(s, i + 1))
  }

  /** What `replace(/\s+/g, ' ')` leaves behind: every white-space character
      is an ASCII space and no two of them are adjacent. */
  predicate Collapsed(s: string) {
    CollapsedFrom(s, 0)
  }

  /** The same property as one quantified statement. */
  predicate CollapsedAll(s: string) {
    && (forall i :: 0 <= i < |s| && IsSpace(s[i]) ==> s[i] == ' ')
    && (forall i, j :: 0 <= i < |s| && j == i + 1 && j < |s| ==> !(IsSpace(s[i]) && IsSpace(s[j])))
  }

  lemma {:induction false} CollapsedFromAt(s: string, i: nat, k: nat)
    requires CollapsedFrom(s, i) && i <= k < |s| && IsSpace(s[k])
    ensures s[k] == ' ' && (k + 1 < |s| ==> !IsSpace(s[k + 1]))
    decreases k - i
  {
    if i < k {
      CollapsedFromAt(s, i + 1, k);
    }
  }

  /** A white-space character of a collapsed string is a lone ASCII space. */
  lemma CollapsedAt(s: string, k: nat)
    requires Collapsed(s) && k < |s| && IsSpace(s[k])
    ensures s[k] == ' ' && (k + 1 < |s| ==> !IsSpace(s[k + 1]))
  {
    CollapsedFromAt(s, 0, k);
  }

  lemma {:induction false} CollapsedFromIntro(s: string, i: nat)
    requires i <= |s| && CollapsedAll(s)
    ensures CollapsedFrom(s, i)
    decreases |s| - i
  {
    if i < |s| {
      CollapsedFromIntro(s, i + 1);
      if IsSpace(s[i]) && i + 1 < |s| {
        assert !(IsSpace(s[i]) && IsSpace(s[i + 1]));
      }
    }
  }

  lemma CollapsedIff(s: string)
    ensures Collapsed(s) <==> CollapsedAll(s)
  {
    if CollapsedAll(s) {
      CollapsedFromIntro(s, 0);
    }
    if Collapsed(s) {
      forall i | 0 <= i < |s| && IsSpace(s[i]) ensures s[i] == ' ' {
        CollapsedAt(s, i);
      }
      forall i, j | 0 <= i < |s| && j == i + 1 && j < |s| ensures !(IsSpace(s[i]) && IsSpace(s[j])) {
        if IsSpace(s[i]) { CollapsedAt(s, i); }
      }
    }
  }

  /** What `replace(/\s+/g, ' ').trim()` produces. */
  predicate Normalized(s: string) {
    Collapsed(s) && Trimmed(s)
  }

  /** End of the white-space run of `s` that starts at `q`. */
  function SkipSpace(s: string, q: nat): (e: nat)
    requires q <= |s|
    ensures q <= e <= |s|
    ensures e < |s| ==> !IsSpace(s[e])
    ensures q < e ==> IsSpace(s[e - 1])
    decreases |s| - q
  {
    if q < |s| && IsSpace(s[q]) then SkipSpace(s, q + 1) else q
  }

  lemma {:induction false} SkipSpaceSkipsSpace(s: string, q: nat)
    requires q <= |s|
    ensures forall k :: q <= k < SkipSpace(s, q) ==> IsSpace(s[k])
    decreases |s| - q
  {
    if q < |s| && IsSpace(s[q]) {
      SkipSpaceSkipsSpace(s, q + 1);
    }
  }

  /** A white-space run ending before a non-space character is what
      `SkipSpace` skips. */
  lemma {:induction false} SkipSpaceExact(s: string, q: nat, e: nat)
    requires q <= e <= |s| && (forall k :: q <= k < e ==> IsSpace(s[k]))
    requires e < |s| ==> !IsSpace(s[e])
    ensures SkipSpace(s, q) == e
    decreases e - q
  {
    if q < e {
      SkipSpaceExact(s, q + 1, e);
    }
  }

  /** One white-space character before a non-space one is skipped alone. */
  lemma SkipOneSpace(s: string, q: nat)
    requires q < |s| && IsSpace(s[q]) && (q + 1 < |s| ==> !IsSpace(s[q + 1]))
    ensures SkipSpace(s, q) == q + 1 && SkipSpace(s, q + 1) == q + 1
  {
  }

  /** Start of the white-space run of `s` that ends at `q`. */
  function SkipSpaceBack(s: string, q: nat): (b: nat)
    requires q <= |s|
    ensures b <= q
    ensures b > 0 ==> !IsSpace(s[b - 1])
    decreases q
  {
    if q > 0 && IsSpace(s[q - 1]) then SkipSpaceBack(s, q - 1) else q
  }

  lemma {:induction false} SkipSpaceBackSkipsSpace(s: string, q: nat)
    requires q <= |s|
    ensures forall k :: SkipSpaceBack(s, q) <= k < q ==> IsSpace(s[k])
    decreases q
  {
    if q > 0 && IsSpace(s[q - 1]) {
      SkipSpaceBackSkipsSpace(s, q - 1);
    }
  }

  /** `s.trimStart()` */
  function TrimStart(s: string): (r: string)
    ensures |r| <= |s|
    ensures |r| > 0 ==> !IsSpace(r[0])
  {
    s[SkipSpace(s, 0)..]
  }

  /** `s.trimEnd()` */
  function TrimEnd(s: string): (r: string)
    ensures |r| <= |s|
    ensures |r| > 0 ==> !IsSpace(r[|r| - 1])
  {
    s[..SkipSpaceBack(s, |s|)]
  }

  /** `s.trim()` */
  function Trim(s: string): (r: string)
    ensures Trimmed(r)
  {
    TrimEnd(TrimStart(s))
  }

  /** `trim` removes white space only, and all of it at both ends: the
      result is the infix of `s` between a white-space prefix and a
      white-space suffix. Together with `Trimmed` this determines it. */
  lemma TrimIsInfix(s: string)
    ensures var a := SkipSpace(s, 0); var r := Trim(s);
      && a + |r| <= |s| && r == s[a..a + |r|]
      && AllSpace(s[..a]) && AllSpace(s[a + |r|..])
  {
    var a := SkipSpace(s, 0);
    var t := s[a..];
    var b := SkipSpaceBack(t, |t|);
    SpacePrefix(s, a);
    SpaceSuffix(t, b);
    assert Trim(s) == t[..b] == s[a..a + b];
    assert s[a + b..] == t[b..];
  }

  lemma SpacePrefix(s: string, a: nat)
    requires a == SkipSpace(s, 0)
    ensures AllSpace(s[..a])
  {
    SkipSpaceSkipsSpace(s, 0);
    assert forall k :: 0 <= k < a ==> s[..a][k] == s[k];
  }

  lemma SpaceSuffix(t: string, b: nat)
    requires b == SkipSpaceBack(t, |t|)
    ensures AllSpace(t[b..])
  {
    SkipSpaceBackSkipsSpace(t, |t|);
    var u := t[b..];
    assert forall k :: 0 <= k < |u| ==> u[k] == t[b + k];
  }

  /** A white-space run after a non-space character is what
      `SkipSpaceBack` skips. */
  lemma {:induction false} SkipSpaceBackExact(s: string, q: nat, b: nat)
    requires b <= q <= |s| && (forall k :: b <= k < q ==> IsSpace(s[k]))
    requires b > 0 ==> !IsSpace(s[b - 1])
    ensures SkipSpaceBack(s, q) == b
    decreases q - b
  {
    if b < q {
      SkipSpaceBackExact(s, q - 1, b);
    }
  }

  /** Trimming a non-empty trimmed text padded with white space on both
      sides gives the text. */
  lemma TrimPad(pre: string, t: string, post: string)
    requires AllSpace(pre) && AllSpace(post) && |t| > 0 && Trimmed(t)
    ensures Trim(pre + t + post) == t
  {
    var x := pre + t + post;
    assert forall k :: 0 <= k < |pre| ==> x[k] == pre[k];
    assert x[|pre|] == t[0];
    SkipSpaceExact(x, 0, |pre|);
    var y := t + post;
    assert x[|pre|..] == y;
    assert forall k :: |t| <= k < |y| ==> y[k] == post[k - |t|];
    assert y[|t| - 1] == t[|t| - 1];
    SkipSpaceBackExact(y, |y|, |t|);
    assert y[..|t|] == t;
  }

  /** `trim` gives the empty string exactly on white space. */
  lemma TrimEmpty(s: string)
    ensures |Trim(s)| == 0 <==> AllSpace(s)
  {
    TrimIsInfix(s);
    var a := SkipSpace(s, 0);
    if |Trim(s)| == 0 {
      assert s == s[..a] + s[a..];
      AllSpaceConcat(s[..a], s[a..]);
    } else {
      assert s[a] == Trim(s)[0];
    }
  }

  /** `trim` leaves a trimmed string alone. */
  lemma TrimKeeps(s: string)
    requires Trimmed(s)
    ensures Trim(s) == s
  {
    if |s| > 0 {
      assert SkipSpace(s, 0) == 0;
      assert SkipSpaceBack(s, |s|) == |s|;
    }
  }

  predicate EachTrimmed(ts: seq<string>) {
    forall m :: 0 <= m < |ts| ==> Trimmed(ts[m])
  }

  /** `s.trim()` applied to every string. */
  function TrimAll(segs: seq<string>): (ts: seq<string>)
    ensures |ts| == |segs| && EachTrimmed(ts)
  {
    seq(|segs|, m requires 0 <= m < |segs| => Trim(segs[m]))
  }

  /** Segments that are already trimmed stay as they are. */
  lemma TrimAllKeeps(segs: seq<string>)
    requires EachTrimmed(segs)
    ensures TrimAll(segs) == segs
  {
    forall m | 0 <= m < |segs| ensures TrimAll(segs)[m] == segs[m] {
      TrimKeeps(segs[m]);
    }
  }

  /** Putting a non-space character, or a single space before a non-space
      character, in front of a collapsed string keeps it collapsed. */
  lemma CollapsedCons(c: char, t: string)
    requires Collapsed(t)
    requires IsSpace(c) ==> c == ' ' && (|t| > 0 ==> !IsSpace(t[0]))
    ensures Collapsed([c] + t)
  {
    var r := [c] + t;
    CollapsedIff(t);
    forall i | 0 <= i < |r| && IsSpace(r[i]) ensures r[i] == ' ' {
      if i > 0 { assert r[i] == t[i - 1]; }
    }
    forall i, j | 0 <= i < |r| && j == i + 1 && j < |r| ensures !(IsSpace(r[i]) && IsSpace(r[j])) {
      assert r[j] == t[j - 1];
      if i > 0 { assert r[i] == t[i - 1]; }
    }
    CollapsedIff(r);
  }

  /** `s.slice(i).replace(/\s+/g, ' ')`: every maximal run of white space
      becomes a single ASCII space; every other character is kept. */
  function CollapseFrom(s: string, i: nat): (r: string)
    requires i <= |s|
    ensures |r| <= |s| - i
    ensures |r| == 0 <==> i == |s|
    ensures i < |s| ==> (IsSpace(r[0]) <==> IsSpace(s[i]))
    ensures Collapsed(r)
    decreases |s| - i
  {
    if i == |s| then []
    else if IsSpace(s[i]) then
      var c := CollapseFrom(s, SkipSpace(s, i));
      CollapsedCons(' ', c);
      [' '] + c
    else
      var c := CollapseFrom(s, i + 1);
      CollapsedCons(s[i], c);
      [s[i]] + c
  }

  /** A run of non-space characters is kept as it is. */
  lemma {:induction false} CollapseWord(s: string, i: nat, b: nat)
    requires i <= b <= |s| && forall k :: i <= k < b ==> !IsSpace(s[k])
    ensures CollapseFrom(s, i) == s[i..b] + CollapseFrom(s, b)
    decreases b - i
  {
    if i < b {
      CollapseWord(s, i + 1, b);
      assert s[i..b] == [s[i]] + s[i + 1..b];
      Assoc([s[i]], s[i + 1..b], CollapseFrom(s, b));
    }
  }

  /** `s.replace(/\s+/g, ' ')` */
  function Collapse(s: string): (r: string)
    ensures Collapsed(r)
  {
    CollapseFrom(s, 0)
  }

  /** Collapsing keeps the text all white space exactly when it was. */
  lemma {:induction false} CollapseFromAllSpace(s: string, i: nat)
    requires i <= |s|
    ensures AllSpace(CollapseFrom(s, i)) <==> AllSpace(s[i..])
    decreases |s| - i
  {
    if i < |s| {
      var r := CollapseFrom(s, i);
      if IsSpace(s[i]) {
        var e := SkipSpace(s, i);
        CollapseFromAllSpace(s, e);
        SkipSpaceSkipsSpace(s, i);
        assert s[i..] == s[i..e] + s[e..];
        AllSpaceConcat(s[i..e], s[e..]);
        AllSpaceConcat([' '], CollapseFrom(s, e));
      } else {
        assert !IsSpace(r[0]) && !IsSpace(s[i..][0]);
      }
    }
  }

  /** Collapsing leaves an already collapsed text as it is. */
  lemma {:induction false} CollapseFromKeeps(s: string, i: nat)
    requires i <= |s| && CollapsedFrom(s, i)
    ensures CollapseFrom(s, i) == s[i..]
    decreases |s| - i
  {
    if i < |s| {
      CollapseFromKeeps(s, i + 1);
      if IsSpace(s[i]) {
        assert SkipSpace(s, i + 1) == i + 1;
      }
      assert s[i..] == [s[i]] + s[i + 1..];
    }
  }

  /** `s.replace(/\s+/g, ' ').trim()` */
  function NormalizeSpace(s: string): (r: string)
    ensures Normalized(r)
  {
    var c := Collapse(s);
    TrimOfCollapsed(c);
    Trim(c)
  }

  /** Normalizing leaves a normalized text as it is. */
  lemma NormalizeSpaceKeeps(s: string)
    requires Normalized(s)
    ensures NormalizeSpace(s) == s
  {
    CollapseFromKeeps(s, 0);
    assert s[0..] == s;
    TrimKeeps(s);
  }

  /** Normalizing gives the empty string exactly on white space. */
  lemma NormalizeSpaceEmpty(s: string)
    ensures |NormalizeSpace(s)| == 0 <==> AllSpace(s)
  {
    CollapseFromAllSpace(s, 0);
    assert s[0..] == s;
    TrimEmpty(Collapse(s));
  }

  lemma TrimOfCollapsed(c: string)
    requires Collapsed(c)
    ensures Collapsed(Trim(c))
  {
    var a := SkipSpace(c, 0);
    CollapsedInfix(c, a, |c|);
    var t := c[a..];
    assert t == c[a..|c|];
    var b := SkipSpaceBack(t, |t|);
    CollapsedInfix(t, 0, b);
    assert Trim(c) == t[0..b];
  }

  /** The infix of a collapsed string is collapsed. */
  lemma CollapsedInfix(s: string, i: nat, j: nat)
    requires Collapsed(s) && i <= j <= |s|
    ensures Collapsed(s[i..j])
  {
    var t := s[i..j];
    CollapsedIff(s);
    assert forall k :: 0 <= k < |t| ==> t[k] == s[i + k];
    CollapsedIff(t);
  }

  /** An infix of a normalized string that starts and ends on non-space
      characters is normalized. */
  lemma NormalizedInfix(s: string, i: nat, j: nat)
    requires Collapsed(s) && i < j <= |s|
    requires !IsSpace(s[i]) && !IsSpace(s[j - 1])
    ensures Normalized(s[i..j])
  {
    CollapsedInfix(s, i, j);
  }

  /** `parts.join(sep)` */
  function Join(parts: seq<string>, sep: string): string
    decreases |parts|
  {
    if |parts| == 0 then []
    else if |parts| == 1 then parts[0]
    else parts[0] + sep + Join(parts[1..], sep)
  }

  /** `!s.trim()`: `s` is empty or all white space. Phrased through
      `SkipSpace` so that a proof mentioning it does not see slices. */
  predicate Blank(s: string) {
    SkipSpace(s, 0) == |s|
  }

  lemma BlankMeans(s: string)
    ensures Blank(s) <==> AllSpace(s)
    ensures Blank(s) <==> |Trim(s)| == 0
  {
    SkipSpaceSkipsSpace(s, 0);
    TrimEmpty(s);
    if AllSpace(s) {
      SkipSpaceExact(s, 0, |s|);
    }
  }

  lemma JoinCons(p: string, rest: seq<string>, sep: string)
    requires |rest| >= 1
    ensures Join([p] + rest, sep) == p + sep + Join(rest, sep)
  {
    var r := [p] + rest;
    assert r[0] == p;
    assert r[1..] == rest;
  }

  /** Cutting a text at a space. */
  lemma SpaceSplit(s: string, i: nat, b: nat)
    requires i <= b < |s| && s[b] == ' '
    ensures s[i..] == s[i..b] + " " + s[b + 1..]
  {
    assert s[i..] == s[i..b] + s[b..];
    assert s[b..] == " " + s[b + 1..];
  }

  /** The numbers strictly increase. */
  predicate Increasing(xs: seq<nat>) {
    forall a, b :: 0 <= a < b < |xs| ==> xs[a] < xs[b]
  }

  /** A number below all of an increasing sequence, in front of it. */
  lemma IncreasingCons(x: nat, xs: seq<nat>)
    requires Increasing(xs) && forall q :: 0 <= q < |xs| ==> x < xs[q]
    ensures Increasing([x] + xs)
  {
    var r := [x] + xs;
    assert forall p :: 1 <= p < |r| ==> r[p] == xs[p - 1];
  }

  /** Regrouping a concatenation; stated once so that proofs need not
      unfold the parts. */
  lemma Assoc<T>(x: seq<T>, y: seq<T>, z: seq<T>)
    ensures x + (y + z) == (x + y) + z
  {
  }

  /** Indexing into a sequence with one element in front. */
  lemma ConsAt<T>(x: T, tail: seq<T>, j: nat)
    requires 0 < j <= |tail|
    ensures ([x] + tail)[0] == x && ([x] + tail)[j] == tail[j - 1]
  {
  }

  /** A sequence that starts with the head of `s` and goes on with the
      rest of `s` is `s`. */
  lemma HeadTail<T>(s: seq<T>, x: seq<T>, rest: seq<T>)
    requires |s| > 0 && x == [s[0]] + rest && rest == s[1..]
    ensures x == s
  {
  }

  /** `pat` occurs in `text` at position `i`. */
  predicate MatchAt(text: string, pat: string, i: nat) {
    i + |pat| <= |text| && text[i..i + |pat|] == pat
  }

  lemma MatchHead(text: string, pat: string, i: nat)
    ensures MatchAt(text, pat, i) && |pat| > 0 ==> text[i] == pat[0]
  {
    if MatchAt(text, pat, i) && |pat| > 0 {
      assert text[i..i + |pat|][0] == pat[0];
    }
  }

  /** `text.indexOf(pat, from)`: the least position at or after `from` where
      `pat` occurs; a start beyond the end is clamped to `|text|`, where only
      the empty pattern can match. `None` stands for JavaScript's -1. */
  function IndexOf(text: string, pat: string, from: nat): (r: Option<nat>)
    ensures r.Some? ==> MatchAt(text, pat, r.value)
    ensures r.Some? ==> from <= r.value || (|pat| == 0 && r.value == |text|)
    decreases |text| - from
  {
    if from >= |text| then
      if MatchAt(text, pat, |text|) then Some(|text|) else None
    else if MatchAt(text, pat, from) then Some(from)
    else IndexOf(text, pat, from + 1)
  }

  /** `pat` occurs nowhere from `from` up to the position found, or nowhere
      at all from `from` on when it is not found. */
  lemma {:induction false} IndexOfFirst(text: string, pat: string, from: nat)
    ensures var r := IndexOf(text, pat, from);
      forall i :: from <= i && (r.None? || i < r.value) ==> !MatchAt(text, pat, i)
    decreases |text| - from
  {
    if from < |text| && !MatchAt(text, pat, from) {
      IndexOfFirst(text, pat, from + 1);
    }
  }

  /** A non-empty pattern that occurs at `k`, and nowhere between `from`
      and `k`, is found at `k`. */
  lemma IndexOfAt(text: string, pat: string, from: nat, k: nat)
    requires |pat| > 0 && from <= k && MatchAt(text, pat, k)
    requires forall i :: from <= i < k ==> !MatchAt(text, pat, i)
    ensures IndexOf(text, pat, from) == Some(k)
  {
    IndexOfFirst(text, pat, from);
  }

  /** `text.includes(pat)` */
  predicate Contains(text: string, pat: string) {
    IndexOf(text, pat, 0).Some?
  }

  lemma ContainsMeansMatch(text: string, pat: string)
    ensures Contains(text, pat) <==> exists i :: MatchAt(text, pat, i)
  {
    IndexOfFirst(text, pat, 0);
    if exists i :: MatchAt(text, pat, i) {
      var i :| MatchAt(text, pat, i);
      assert 0 <= i;
    }
  }
}
