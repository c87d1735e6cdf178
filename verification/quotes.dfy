/** Quote candidates: `scoreSentences` of main.js. Each sentence is
    white-space normalized, duplicates and texts shorter than two
    characters are dropped, the rest are scored and sorted stably by score
    and then length, both descending. Scores are exact reals. */
module Quotes {
  import opened Text

  /** One scored quote candidate. */
  datatype Candidate = Candidate(text: string, score: real, len: nat)

  /* ---------------- keywords ---------------- */

  /** The non-empty strings of `ts[i..]`, in order. */
  function NonEmptyFrom(ts: seq<string>, i: nat): (r: seq<string>)
    requires i <= |ts|
    ensures |r| <= |ts| - i
    ensures forall j :: 0 <= j < |r| ==> |r[j]| > 0
    ensures EachTrimmed(ts) ==> EachTrimmed(r)
    decreases |ts| - i
  {
    if i == |ts| then []
    else if |ts[i]| == 0 then NonEmptyFrom(ts, i + 1)
    else
      var rest := NonEmptyFrom(ts, i + 1);
      var r := [ts[i]] + rest;
      assert r[0] == ts[i];
      assert forall j :: 1 <= j < |r| ==> r[j] == rest[j - 1];
      r
  }

  lemma {:induction false} NonEmptyFromMembers(ts: seq<string>, i: nat, k: string)
    requires i <= |ts|
    ensures k in NonEmptyFrom(ts, i) <==> |k| > 0 && exists j :: i <= j < |ts| && ts[j] == k
    decreases |ts| - i
  {
    if i < |ts| {
      NonEmptyFromMembers(ts, i + 1, k);
      var rest := NonEmptyFrom(ts, i + 1);
      if exists j :: i <= j < |ts| && ts[j] == k {
        var j :| i <= j < |ts| && ts[j] == k;
        assert j == i || (i + 1 <= j < |ts| && ts[j] == k);
      }
      if |ts[i]| > 0 {
        var r := [ts[i]] + rest;
        assert r[0] == ts[i];
        assert r[1..] == rest;
        assert k in r <==> k == r[0] || k in rest;
      }
    }
  }

  /** `(keywords || []).map(k => k.trim()).filter(Boolean)` */
  function CleanKeywords(keywords: seq<string>): (kws: seq<string>)
    ensures |kws| <= |keywords|
    ensures forall j :: 0 <= j < |kws| ==> |kws[j]| > 0 && Trimmed(kws[j])
  {
    NonEmptyFrom(TrimAll(keywords), 0)
  }

  /** The cleaned list holds exactly the non-empty trimmed keywords. */
  lemma CleanKeywordsMembers(keywords: seq<string>, k: string)
    ensures k in CleanKeywords(keywords) <==> |k| > 0 && exists w :: w in keywords && Trim(w) == k
  {
    var ts := TrimAll(keywords);
    NonEmptyFromMembers(ts, 0, k);
    if exists w :: w in keywords && Trim(w) == k {
      var w :| w in keywords && Trim(w) == k;
      var j :| 0 <= j < |keywords| && keywords[j] == w;
      assert ts[j] == k;
    }
    if exists j :: 0 <= j < |ts| && ts[j] == k {
      var j :| 0 <= j < |ts| && ts[j] == k;
      assert keywords[j] in keywords;
    }
  }

  lemma {:induction false} NonEmptyShift(a: seq<string>, b: seq<string>, j: nat)
    requires j <= |b|
    ensures NonEmptyFrom(a + b, |a| + j) == NonEmptyFrom(b, j)
    decreases |b| - j
  {
    if j < |b| {
      assert (a + b)[|a| + j] == b[j];
      NonEmptyShift(a, b, j + 1);
    }
  }

  lemma {:induction false} NonEmptySplit(a: seq<string>, b: seq<string>, i: nat)
    requires i <= |a|
    ensures NonEmptyFrom(a + b, i) == NonEmptyFrom(a, i) + NonEmptyFrom(b, 0)
    decreases |a| - i
  {
    if i == |a| {
      NonEmptyShift(a, b, 0);
    } else {
      assert (a + b)[i] == a[i];
      NonEmptySplit(a, b, i + 1);
      if |a[i]| > 0 {
        Assoc([a[i]], NonEmptyFrom(a, i + 1), NonEmptyFrom(b, 0));
      }
    }
  }

  /** Cleaning keeps the order of the keywords: cleaning two lists one
      after the other is cleaning each. */
  lemma CleanKeywordsConcat(a: seq<string>, b: seq<string>)
    ensures CleanKeywords(a + b) == CleanKeywords(a) + CleanKeywords(b)
  {
    assert TrimAll(a + b) == TrimAll(a) + TrimAll(b);
    NonEmptySplit(TrimAll(a), TrimAll(b), 0);
  }

  /** One keyword is kept, trimmed, exactly when it is not blank. */
  lemma CleanKeywordsOne(k: string)
    ensures CleanKeywords([k]) == if |Trim(k)| > 0 then [Trim(k)] else []
  {
    assert TrimAll([k]) == [Trim(k)];
  }

  /* ---------------- score ---------------- */

  /** The length part of the score: 10 inside `[minLen, maxLen]`, otherwise
      minus a fifth of how far the length lies outside. */
  function LengthScore(len: nat, minLen: int, maxLen: int): (r: real)
    ensures minLen <= len <= maxLen ==> r == 10.0
    ensures !(minLen <= len <= maxLen) ==> r < 0.0
    ensures minLen <= maxLen && len < minLen ==> r == -0.2 * (minLen - len) as real
    ensures minLen <= maxLen && maxLen < len ==> r == -0.2 * (len - maxLen) as real
  {
    if minLen <= len <= maxLen then 10.0
    else
      var diff := if minLen - len >= len - maxLen then minLen - len else len - maxLen;
      -(diff as real) * 0.2
  }

  /** Number of entries of `kws[i..]` that `text` contains; a keyword listed
      twice counts twice. */
  function HitsFrom(text: string, kws: seq<string>, i: nat): (n: nat)
    requires i <= |kws|
    ensures n <= |kws| - i
    decreases |kws| - i
  {
    if i == |kws| then 0
    else (if Contains(text, kws[i]) then 1 else 0) + HitsFrom(text, kws, i + 1)
  }

  /** The positions in `kws[i..]` of the entries `text` contains. */
  function HitSet(text: string, kws: seq<string>, i: nat): set<nat> {
    set j: nat | i <= j < |kws| && Contains(text, kws[j])
  }

  /** The hit count is the number of entries the text contains. */
  lemma {:induction false} HitsCount(text: string, kws: seq<string>, i: nat)
    requires i <= |kws|
    ensures HitsFrom(text, kws, i) == |HitSet(text, kws, i)|
    decreases |kws| - i
  {
    if i == |kws| {
      assert HitSet(text, kws, i) == {};
    } else {
      HitsCount(text, kws, i + 1);
      var rest := HitSet(text, kws, i + 1);
      assert i !in rest;
      if Contains(text, kws[i]) {
        assert HitSet(text, kws, i) == rest + {i};
      } else {
        assert HitSet(text, kws, i) == rest;
      }
    }
  }

  /** No hit means no keyword occurs; all hits means every keyword does. */
  lemma {:induction false} HitsFromBounds(text: string, kws: seq<string>, i: nat)
    requires i <= |kws|
    ensures HitsFrom(text, kws, i) == 0 <==> forall j :: i <= j < |kws| ==> !Contains(text, kws[j])
    ensures HitsFrom(text, kws, i) == |kws| - i <==> forall j :: i <= j < |kws| ==> Contains(text, kws[j])
    decreases |kws| - i
  {
    if i < |kws| {
      HitsFromBounds(text, kws, i + 1);
    }
  }

  /** The list punctuation `、 , ， : ： ; ；`. */
  predicate ClausePunct(c: char) {
    c == '、' || c == ',' || c == '，' || c == ':' || c == '：' || c == ';' || c == '；'
  }

  predicate HasClausePunct(s: string) {
    exists i :: 0 <= i < |s| && ClausePunct(s[i])
  }

  /** Score of a normalized text: the length part, 3 per keyword hit and 1
      for list punctuation. */
  function Score(text: string, kws: seq<string>, minLen: int, maxLen: int): (r: real)
    ensures minLen <= |text| <= maxLen ==> 10.0 <= r <= 10.0 + 3.0 * |kws| as real + 1.0
    ensures !(minLen <= |text| <= maxLen) ==> r < 3.0 * |kws| as real + 1.0
    ensures (forall j :: 0 <= j < |kws| ==> Contains(text, kws[j])) && HasClausePunct(text) ==>
      r == LengthScore(|text|, minLen, maxLen) + 3.0 * |kws| as real + 1.0
    ensures r == LengthScore(|text|, minLen, maxLen) + 3.0 * |HitSet(text, kws, 0)| as real
      + (if HasClausePunct(text) then 1.0 else 0.0)
  {
    HitsFromBounds(text, kws, 0);
    HitsCount(text, kws, 0);
    LengthScore(|text|, minLen, maxLen)
    + 3.0 * HitsFrom(text, kws, 0) as real
    + (if HasClausePunct(text) then 1.0 else 0.0)
  }

  /* ---------------- collection ---------------- */

  /** A candidate as the scorer builds it. */
  predicate Scored(c: Candidate, kws: seq<string>, minLen: int, maxLen: int) {
    && Normalized(c.text) && |c.text| >= 2 && c.len == |c.text|
    && c.score == Score(c.text, kws, minLen, maxLen)
  }

  predicate DistinctTexts(cs: seq<Candidate>) {
    forall i, j :: 0 <= i < j < |cs| ==> cs[i].text != cs[j].text
  }

  /** Texts some sentence of `ss[i..]` normalizes to, with at least two
      characters, not yet in `seen`. */
  predicate Eligible(ss: seq<string>, i: nat, seen: set<string>, t: string) {
    |t| >= 2 && t !in seen && exists k :: i <= k < |ss| && NormalizeSpace(ss[k]) == t
  }

  /** The collecting loop from sentence `i` on, with the texts in `seen`
      already taken. */
  function CollectFrom(ss: seq<string>, i: nat, seen: set<string>, kws: seq<string>, minLen: int, maxLen: int)
    : (r: seq<Candidate>)
    requires i <= |ss|
    ensures forall j :: 0 <= j < |r| ==> Scored(r[j], kws, minLen, maxLen) && r[j].text !in seen
    ensures DistinctTexts(r)
    decreases |ss| - i
  {
    if i == |ss| then []
    else
      var norm := NormalizeSpace(ss[i]);
      if |norm| == 0 || norm in seen then CollectFrom(ss, i + 1, seen, kws, minLen, maxLen)
      else
        var rest := CollectFrom(ss, i + 1, seen + {norm}, kws, minLen, maxLen);
        if |norm| < 2 then rest
        else
          var c := Candidate(norm, Score(norm, kws, minLen, maxLen), |norm|);
          ConsCollected(c, rest, seen, kws, minLen, maxLen);
          [c] + rest
  }

  /** A new candidate in front of the candidates collected after it. */
  lemma ConsCollected(c: Candidate, rest: seq<Candidate>, seen: set<string>, kws: seq<string>, minLen: int, maxLen: int)
    requires Scored(c, kws, minLen, maxLen) && c.text !in seen
    requires forall j :: 0 <= j < |rest| ==> Scored(rest[j], kws, minLen, maxLen) && rest[j].text !in seen + {c.text}
    requires DistinctTexts(rest)
    ensures forall j :: 0 <= j < |[c] + rest| ==> Scored(([c] + rest)[j], kws, minLen, maxLen) && ([c] + rest)[j].text !in seen
    ensures DistinctTexts([c] + rest)
  {
    var r := [c] + rest;
    assert r[0] == c;
    assert forall j :: 1 <= j < |r| ==> r[j] == rest[j - 1];
  }

  /** The texts of a candidate sequence with one more in front. */
  lemma ConsTexts(c: Candidate, rest: seq<Candidate>, t: string)
    ensures (exists d :: d in [c] + rest && d.text == t) <==> c.text == t || exists d :: d in rest && d.text == t
  {
    var r := [c] + rest;
    assert forall d :: d in r <==> d == c || d in rest;
  }

  /** The collected texts are exactly the eligible ones. */
  lemma {:induction false} CollectFromTexts(ss: seq<string>, i: nat, seen: set<string>, kws: seq<string>,
                                             minLen: int, maxLen: int, t: string)
    requires i <= |ss|
    ensures (exists c :: c in CollectFrom(ss, i, seen, kws, minLen, maxLen) && c.text == t)
      <==> Eligible(ss, i, seen, t)
    decreases |ss| - i
  {
    if i < |ss| {
      var norm := NormalizeSpace(ss[i]);
      if |norm| == 0 || norm in seen {
        CollectFromTexts(ss, i + 1, seen, kws, minLen, maxLen, t);
        CollectSkip(ss, i, seen, kws, minLen, maxLen, t);
      } else {
        CollectFromTexts(ss, i + 1, seen + {norm}, kws, minLen, maxLen, t);
        CollectTake(ss, i, seen, kws, minLen, maxLen, t);
      }
    }
  }

  /** A sentence that normalizes to nothing, or to a text already seen,
      adds no candidate. */
  lemma CollectSkip(ss: seq<string>, i: nat, seen: set<string>, kws: seq<string>,
                    minLen: int, maxLen: int, t: string)
    requires i < |ss|
    requires |NormalizeSpace(ss[i])| == 0 || NormalizeSpace(ss[i]) in seen
    requires (exists c :: c in CollectFrom(ss, i + 1, seen, kws, minLen, maxLen) && c.text == t)
      <==> Eligible(ss, i + 1, seen, t)
    ensures (exists c :: c in CollectFrom(ss, i, seen, kws, minLen, maxLen) && c.text == t)
      <==> Eligible(ss, i, seen, t)
  {
    if Eligible(ss, i, seen, t) {
      var k :| i <= k < |ss| && NormalizeSpace(ss[k]) == t;
      assert k != i;
    }
  }

  /** A new text is taken when it has two characters or more, and marked
      as seen either way. */
  lemma CollectTake(ss: seq<string>, i: nat, seen: set<string>, kws: seq<string>,
                    minLen: int, maxLen: int, t: string)
    requires i < |ss|
    requires |NormalizeSpace(ss[i])| > 0 && NormalizeSpace(ss[i]) !in seen
    requires (exists c :: c in CollectFrom(ss, i + 1, seen + {NormalizeSpace(ss[i])}, kws, minLen, maxLen) && c.text == t)
      <==> Eligible(ss, i + 1, seen + {NormalizeSpace(ss[i])}, t)
    ensures (exists c :: c in CollectFrom(ss, i, seen, kws, minLen, maxLen) && c.text == t)
      <==> Eligible(ss, i, seen, t)
  {
    var norm := NormalizeSpace(ss[i]);
    var r := CollectFrom(ss, i, seen, kws, minLen, maxLen);
    var rest := CollectFrom(ss, i + 1, seen + {norm}, kws, minLen, maxLen);
    if t != norm && Eligible(ss, i, seen, t) {
      var k :| i <= k < |ss| && NormalizeSpace(ss[k]) == t;
      assert k != i;
      assert Eligible(ss, i + 1, seen + {norm}, t);
    }
    if |norm| >= 2 {
      var c := Candidate(norm, Score(norm, kws, minLen, maxLen), |norm|);
      assert r == [c] + rest;
      ConsTexts(c, rest, t);
    } else {
      assert r == rest;
    }
  }

  /** The loop over all sentences, before sorting. */
  function Collect(ss: seq<string>, kws: seq<string>, minLen: int, maxLen: int): (r: seq<Candidate>)
    ensures forall j :: 0 <= j < |r| ==> Scored(r[j], kws, minLen, maxLen)
    ensures DistinctTexts(r)
  {
    CollectFrom(ss, 0, {}, kws, minLen, maxLen)
  }

  /* ---------------- order of first appearance ---------------- */

  /** The sentences, white-space normalized. */
  function Norms(ss: seq<string>): (ns: seq<string>)
    ensures |ns| == |ss|
  {
    seq(|ss|, k requires 0 <= k < |ss| => NormalizeSpace(ss[k]))
  }

  /** The position of the first string of `ns[i..]` equal to `t`, or
      `|ns|` when there is none. */
  function FirstIn(ns: seq<string>, t: string, i: nat): nat
    requires i <= |ns|
    decreases |ns| - i
  {
    if i == |ns| then |ns|
    else if ns[i] == t then i
    else FirstIn(ns, t, i + 1)
  }

  lemma {:induction false} FirstInMeans(ns: seq<string>, t: string, i: nat)
    requires i <= |ns|
    ensures var k := FirstIn(ns, t, i);
      && i <= k <= |ns|
      && (k < |ns| ==> ns[k] == t)
      && forall m :: i <= m < k ==> ns[m] != t
    decreases |ns| - i
  {
    if i < |ns| && ns[i] != t {
      FirstInMeans(ns, t, i + 1);
    }
  }

  /** Where `t` first appears among the normalized sentences. */
  function First(ss: seq<string>, t: string): nat {
    FirstIn(Norms(ss), t, 0)
  }

  /** Where the text of each candidate first appears in `ns`. */
  function Firsts(ns: seq<string>, cs: seq<Candidate>): (ps: seq<nat>)
    ensures |ps| == |cs|
  {
    seq(|cs|, p requires 0 <= p < |cs| => FirstIn(ns, cs[p].text, 0))
  }

  lemma FirstsCons(ns: seq<string>, c: Candidate, cs: seq<Candidate>)
    ensures Firsts(ns, [c] + cs) == [FirstIn(ns, c.text, 0)] + Firsts(ns, cs)
  {
    var r := [c] + cs;
    assert forall p :: 1 <= p < |r| ==> r[p] == cs[p - 1];
  }

  /** The candidates come in the order their texts first appear among the
      normalized sentences. */
  predicate InOrder(ss: seq<string>, cs: seq<Candidate>) {
    Increasing(Firsts(Norms(ss), cs))
  }

  /** All numbers lie in `[lo, hi)`. */
  predicate Within(ps: seq<nat>, lo: nat, hi: nat) {
    forall p :: 0 <= p < |ps| ==> lo <= ps[p] < hi
  }

  /** Every non-empty string of `ns` before `i` is in `seen`. */
  predicate SeenBefore(ns: seq<string>, i: nat, seen: set<string>) {
    forall k :: 0 <= k < i <= |ns| && |ns[k]| > 0 ==> ns[k] in seen
  }

  /** A non-empty text not yet seen first appears at `i` or later. */
  lemma FirstAfter(ns: seq<string>, i: nat, seen: set<string>, t: string)
    requires i <= |ns| && SeenBefore(ns, i, seen) && |t| > 0 && t !in seen
    ensures i <= FirstIn(ns, t, 0)
  {
    FirstInMeans(ns, t, 0);
  }

  /** Going past position `i` with its text marked as seen keeps every
      earlier text seen. */
  lemma SeenNext(ns: seq<string>, i: nat, seen: set<string>, seen2: set<string>)
    requires i < |ns| && SeenBefore(ns, i, seen) && seen <= seen2
    requires |ns[i]| > 0 ==> ns[i] in seen2
    ensures SeenBefore(ns, i + 1, seen2)
  {
  }

  /** One step of the collecting loop. */
  lemma CollectStep(ss: seq<string>, i: nat, seen: set<string>, kws: seq<string>, minLen: int, maxLen: int)
    requires i < |ss|
    ensures var norm := NormalizeSpace(ss[i]);
      CollectFrom(ss, i, seen, kws, minLen, maxLen)
        == if |norm| == 0 || norm in seen then CollectFrom(ss, i + 1, seen, kws, minLen, maxLen)
           else if |norm| < 2 then CollectFrom(ss, i + 1, seen + {norm}, kws, minLen, maxLen)
           else
             [Candidate(norm, Score(norm, kws, minLen, maxLen), |norm|)]
             + CollectFrom(ss, i + 1, seen + {norm}, kws, minLen, maxLen)
  {
  }

  /** The collecting loop takes each text at its first appearance, so it
      takes the texts in the order they first appear. */
  lemma {:induction false} CollectFromOrder(ss: seq<string>, ns: seq<string>, i: nat, seen: set<string>,
                                             kws: seq<string>, minLen: int, maxLen: int)
    requires ns == Norms(ss) && i <= |ss| && SeenBefore(ns, i, seen)
    ensures var r := CollectFrom(ss, i, seen, kws, minLen, maxLen);
      Within(Firsts(ns, r), i, |ss|) && Increasing(Firsts(ns, r))
    decreases |ss| - i
  {
    if i < |ss| {
      var norm := NormalizeSpace(ss[i]);
      assert ns[i] == norm;
      CollectStep(ss, i, seen, kws, minLen, maxLen);
      var seen2 := if |norm| == 0 || norm in seen then seen else seen + {norm};
      var rest := CollectFrom(ss, i + 1, seen2, kws, minLen, maxLen);
      SeenNext(ns, i, seen, seen2);
      CollectFromOrder(ss, ns, i + 1, seen2, kws, minLen, maxLen);
      OrderWiden(Firsts(ns, rest), i, |ss|);
      if |norm| > 0 && norm !in seen && |norm| >= 2 {
        FirstAfter(ns, i, seen, norm);
        FirstInMeans(ns, norm, 0);
        OrderCons(ns, Candidate(norm, Score(norm, kws, minLen, maxLen), |norm|), rest, i, |ss|);
      }
    }
  }

  lemma OrderWiden(ps: seq<nat>, i: nat, n: nat)
    requires Within(ps, i + 1, n)
    ensures Within(ps, i, n)
  {
  }

  /** A candidate that first appears at `i`, in front of candidates that
      first appear after `i`, in order. */
  lemma OrderCons(ns: seq<string>, c: Candidate, rest: seq<Candidate>, i: nat, n: nat)
    requires FirstIn(ns, c.text, 0) == i < n
    requires Within(Firsts(ns, rest), i + 1, n) && Increasing(Firsts(ns, rest))
    ensures Within(Firsts(ns, [c] + rest), i, n) && Increasing(Firsts(ns, [c] + rest))
  {
    FirstsCons(ns, c, rest);
    IncreasingCons(i, Firsts(ns, rest));
  }

  /** The candidates come in the order their texts first appear among the
      sentences, each text at the position of a sentence that normalizes
      to it. */
  lemma CollectInOrder(ss: seq<string>, kws: seq<string>, minLen: int, maxLen: int)
    ensures var r := Collect(ss, kws, minLen, maxLen);
      && (forall p :: 0 <= p < |r| ==> First(ss, r[p].text) < |ss| && NormalizeSpace(ss[First(ss, r[p].text)]) == r[p].text)
      && InOrder(ss, r)
  {
    var r := Collect(ss, kws, minLen, maxLen);
    var ns := Norms(ss);
    CollectFromOrder(ss, ns, 0, {}, kws, minLen, maxLen);
    forall p | 0 <= p < |r|
      ensures First(ss, r[p].text) < |ss| && NormalizeSpace(ss[First(ss, r[p].text)]) == r[p].text
    {
      assert Firsts(ns, r)[p] == First(ss, r[p].text);
      FirstInMeans(ns, r[p].text, 0);
    }
  }

  /* ---------------- ordering ---------------- */

  /** `(b.score - a.score) || (b.len - a.len)`: negative when `a` goes first. */
  function Compare(a: Candidate, b: Candidate): real {
    if b.score - a.score != 0.0 then b.score - a.score else (b.len - a.len) as real
  }

  /** `a` strictly outranks `b`: higher score, or equal score and longer. */
  predicate Outranks(a: Candidate, b: Candidate) {
    a.score > b.score || (a.score == b.score && a.len > b.len)
  }

  predicate SameRank(a: Candidate, b: Candidate) {
    a.score == b.score && a.len == b.len
  }

  /** The comparator orders by score, then length, both descending. */
  lemma CompareMeans(a: Candidate, b: Candidate)
    ensures Compare(a, b) < 0.0 <==> Outranks(a, b)
    ensures Compare(a, b) > 0.0 <==> Outranks(b, a)
    ensures Compare(a, b) == 0.0 <==> SameRank(a, b)
  {
  }

  /** No later candidate outranks an earlier one. */
  predicate Ranked(cs: seq<Candidate>) {
    forall i, j :: 0 <= i < j < |cs| ==> !Outranks(cs[j], cs[i])
  }

  /** Inserts `x` in front of the first element that does not outrank it,
      so `x` stays ahead of equally ranked elements that follow it. */
  function Insert(x: Candidate, t: seq<Candidate>): (r: seq<Candidate>)
    ensures multiset(r) == multiset{x} + multiset(t)
  {
    if |t| == 0 then [x]
    else if Outranks(t[0], x) then
      assert t == [t[0]] + t[1..];
      [t[0]] + Insert(x, t[1..])
    else
      [x] + t
  }

  /** Inserting into a ranked sequence keeps it ranked. */
  lemma {:induction false} InsertRanked(x: Candidate, t: seq<Candidate>)
    requires Ranked(t)
    ensures Ranked(Insert(x, t))
  {
    if |t| > 0 && Outranks(t[0], x) {
      var rest := Insert(x, t[1..]);
      InsertRanked(x, t[1..]);
      InsertBelow(x, t);
      RankedCons(t[0], rest);
    } else if |t| > 0 {
      assert forall j :: 0 <= j < |t| ==> !Outranks(t[j], x) by {
        forall j | 0 <= j < |t| ensures !Outranks(t[j], x) {
          assert j > 0 ==> !Outranks(t[j], t[0]);
        }
      }
      RankedCons(x, t);
    }
  }

  /** A head that nothing after it outranks keeps a ranked sequence
      ranked. */
  lemma RankedCons(h: Candidate, rest: seq<Candidate>)
    requires Ranked(rest)
    requires forall j :: 0 <= j < |rest| ==> !Outranks(rest[j], h)
    ensures Ranked([h] + rest)
  {
    var r := [h] + rest;
    assert r[0] == h;
    assert forall j :: 1 <= j < |r| ==> r[j] == rest[j - 1];
  }

  /** Nothing that the insertion puts after the head of a ranked
      sequence outranks that head. */
  lemma InsertBelow(x: Candidate, t: seq<Candidate>)
    requires Ranked(t) && |t| > 0 && Outranks(t[0], x)
    ensures forall j :: 0 <= j < |Insert(x, t[1..])| ==> !Outranks(Insert(x, t[1..])[j], t[0])
  {
    var rest := Insert(x, t[1..]);
    forall j | 0 <= j < |rest| ensures !Outranks(rest[j], t[0]) {
      assert rest[j] in multiset(rest);
      if rest[j] != x {
        assert rest[j] in multiset(t[1..]);
        var m :| 0 <= m < |t[1..]| && t[1..][m] == rest[j];
        assert t[m + 1] == rest[j];
      }
    }
  }

  /** Stable insertion sort: `Array.prototype.sort` with the comparator. */
  function Sort(s: seq<Candidate>): (r: seq<Candidate>)
    ensures multiset(r) == multiset(s)
    ensures Ranked(r)
  {
    if |s| == 0 then []
    else
      assert s == [s[0]] + s[1..];
      var t := Sort(s[1..]);
      InsertRanked(s[0], t);
      Insert(s[0], t)
  }

  /** `[c]` when `c` is ranked like `k`, else nothing. */
  function Keep(c: Candidate, k: Candidate): (r: seq<Candidate>)
    ensures r == [c] || r == []
    ensures |r| == 1 <==> SameRank(c, k)
  {
    if SameRank(c, k) then [c] else []
  }

  /** The elements of `s` ranked equal to `k`, in their order in `s`. */
  function RankFilter(s: seq<Candidate>, k: Candidate): (r: seq<Candidate>)
    ensures |r| <= |s|
  {
    if |s| == 0 then []
    else Keep(s[0], k) + RankFilter(s[1..], k)
  }

  lemma FilterCons(c: Candidate, t: seq<Candidate>, k: Candidate)
    ensures RankFilter([c] + t, k) == Keep(c, k) + RankFilter(t, k)
  {
    var s := [c] + t;
    assert s[0] == c;
    assert s[1..] == t;
  }

  lemma {:induction false} InsertStable(x: Candidate, t: seq<Candidate>, k: Candidate)
    ensures RankFilter(Insert(x, t), k) == Keep(x, k) + RankFilter(t, k)
  {
    if |t| > 0 && Outranks(t[0], x) {
      InsertStable(x, t[1..], k);
      InsertStableStep(x, t, k);
    } else if |t| > 0 {
      FilterCons(x, t, k);
    } else {
      FilterCons(x, t, k);
      assert [x] + t == [x];
    }
  }

  /** A candidate passed over by the insertion is filtered out or kept
      in front of the inserted one, which it outranks. */
  lemma InsertStableStep(x: Candidate, t: seq<Candidate>, k: Candidate)
    requires |t| > 0 && Outranks(t[0], x)
    requires RankFilter(Insert(x, t[1..]), k) == Keep(x, k) + RankFilter(t[1..], k)
    ensures RankFilter(Insert(x, t), k) == Keep(x, k) + RankFilter(t, k)
  {
    var t0, u := t[0], t[1..];
    InsertPast(x, t);
    HeadTail(t, [t0] + u, u);
    PassOver(t0, x, k, Insert(x, u), u);
  }

  /** The insertion passes over a head that outranks the inserted one. */
  lemma InsertPast(x: Candidate, t: seq<Candidate>)
    requires |t| > 0 && Outranks(t[0], x)
    ensures Insert(x, t) == [t[0]] + Insert(x, t[1..])
  {
  }

  lemma PassOver(y: Candidate, x: Candidate, k: Candidate, rest: seq<Candidate>, u: seq<Candidate>)
    requires Outranks(y, x)
    requires RankFilter(rest, k) == Keep(x, k) + RankFilter(u, k)
    ensures RankFilter([y] + rest, k) == Keep(x, k) + RankFilter([y] + u, k)
  {
    FilterCons(y, rest, k);
    FilterCons(y, u, k);
    if SameRank(x, k) {
      assert Keep(y, k) == [];
      EmptyFront(RankFilter(u, k));
      EmptyFront(RankFilter(rest, k));
    } else {
      assert Keep(x, k) == [];
      EmptyFront(RankFilter(u, k));
      EmptyFront(RankFilter([y] + u, k));
      Assoc(Keep(y, k), Keep(x, k), RankFilter(u, k));
    }
  }

  lemma EmptyFront(s: seq<Candidate>)
    ensures [] + s == s
  {
  }

  /** The sort is stable: equally ranked candidates keep their order. */
  lemma {:induction false} SortStable(s: seq<Candidate>, k: Candidate)
    ensures RankFilter(Sort(s), k) == RankFilter(s, k)
  {
    if |s| > 0 {
      SortStable(s[1..], k);
      InsertStable(s[0], Sort(s[1..]), k);
    }
  }

  /* ---------------- scoreSentences ---------------- */

  /** `scoreSentences(sentences, keywords, minLen, maxLen)` */
  function ScoreSentences(sentences: seq<string>, keywords: seq<string>, minLen: int, maxLen: int)
    : (r: seq<Candidate>)
    ensures Ranked(r)
    ensures forall c :: c in r ==> Scored(c, CleanKeywords(keywords), minLen, maxLen)
  {
    var cs := Collect(sentences, CleanKeywords(keywords), minLen, maxLen);
    var r := Sort(cs);
    assert forall c :: c in r ==> c in multiset(cs);
    r
  }

  /** A permutation of candidates with distinct texts has distinct texts. */
  lemma PermutationDistinct(a: seq<Candidate>, b: seq<Candidate>)
    requires multiset(a) == multiset(b) && DistinctTexts(a)
    ensures DistinctTexts(b)
  {
    forall i, j | 0 <= i < j < |b|
      ensures b[i].text != b[j].text
    {
      if b[i].text == b[j].text {
        assert b[i] in multiset(a) && b[j] in multiset(a);
        var p :| 0 <= p < |a| && a[p] == b[i];
        var q :| 0 <= q < |a| && a[q] == b[j];
        if p == q {
          assert b[i] == b[j];
          var m := multiset(b);
          assert b == b[..i] + [b[i]] + b[i + 1..j] + [b[j]] + b[j + 1..];
          assert m[b[i]] >= 2;
          assert multiset(a)[a[p]] >= 2;
          DistinctOnce(a, p);
        }
      }
    }
  }

  /** In a sequence with distinct texts every element occurs once. */
  lemma DistinctOnce(a: seq<Candidate>, p: nat)
    requires DistinctTexts(a) && p < |a|
    ensures multiset(a)[a[p]] == 1
  {
    var x := a[p];
    assert a == a[..p] + [x] + a[p + 1..];
    assert x !in a[..p] by {
      forall q | 0 <= q < p ensures a[..p][q] != x { assert a[q].text != x.text; }
    }
    assert x !in a[p + 1..] by {
      var b := a[p + 1..];
      forall q | 0 <= q < |b| ensures b[q] != x { assert b[q] == a[p + 1 + q]; }
    }
  }

  /** The quotes offered: pairwise distinct texts, exactly the normalized
      sentences of at least two characters. Their order is the subject of
      `ScoreSentencesTies`. */
  lemma ScoreSentencesMeans(sentences: seq<string>, keywords: seq<string>, minLen: int, maxLen: int, t: string)
    ensures DistinctTexts(ScoreSentences(sentences, keywords, minLen, maxLen))
    ensures (exists c :: c in ScoreSentences(sentences, keywords, minLen, maxLen) && c.text == t)
      <==> |t| >= 2 && exists s :: s in sentences && NormalizeSpace(s) == t
  {
    var cs := Collect(sentences, CleanKeywords(keywords), minLen, maxLen);
    var r := Sort(cs);
    PermutationDistinct(cs, r);
    CollectFromTexts(sentences, 0, {}, CleanKeywords(keywords), minLen, maxLen, t);
    SameTexts(cs, r, t);
    EligibleFromStart(sentences, t);
  }

  /** A permutation offers the same texts. */
  lemma SameTexts(a: seq<Candidate>, b: seq<Candidate>, t: string)
    requires multiset(a) == multiset(b)
    ensures (exists c :: c in a && c.text == t) <==> (exists c :: c in b && c.text == t)
  {
    assert forall c :: c in a <==> c in b by {
      forall c ensures c in a <==> c in b {
        assert c in a <==> c in multiset(a);
        assert c in b <==> c in multiset(b);
      }
    }
  }

  /** Eligible from the first sentence, with nothing seen yet. */
  lemma EligibleFromStart(sentences: seq<string>, t: string)
    ensures Eligible(sentences, 0, {}, t) <==> |t| >= 2 && exists s :: s in sentences && NormalizeSpace(s) == t
  {
    if exists s :: s in sentences && NormalizeSpace(s) == t {
      var s :| s in sentences && NormalizeSpace(s) == t;
      var k :| 0 <= k < |sentences| && sentences[k] == s;
    }
  }

  /** Every candidate the rank filter keeps is one of the candidates. */
  lemma {:induction false} RankFilterFrom(s: seq<Candidate>, k: Candidate)
    ensures forall c :: c in RankFilter(s, k) ==> c in s
  {
    if |s| > 0 {
      RankFilterFrom(s[1..], k);
      assert forall c :: c in s[1..] ==> c in s;
    }
  }

  /** Keeping some of the candidates keeps them in order. */
  lemma {:induction false} InOrderFilter(ns: seq<string>, s: seq<Candidate>, k: Candidate)
    requires Increasing(Firsts(ns, s))
    ensures Increasing(Firsts(ns, RankFilter(s, k)))
  {
    if |s| > 0 {
      var u := s[1..];
      var ps := Firsts(ns, s);
      FirstsCons(ns, s[0], u);
      assert s == [s[0]] + u;
      assert Increasing(Firsts(ns, u)) by {
        var qs := Firsts(ns, u);
        assert forall p :: 0 <= p < |qs| ==> qs[p] == ps[p + 1];
      }
      InOrderFilter(ns, u, k);
      var f := RankFilter(u, k);
      if SameRank(s[0], k) {
        var fs := Firsts(ns, f);
        RankFilterFrom(u, k);
        forall q | 0 <= q < |fs| ensures ps[0] < fs[q] {
          assert f[q] in u;
          var m :| 0 <= m < |u| && u[m] == f[q];
          assert ps[m + 1] == fs[q];
        }
        FirstsCons(ns, s[0], f);
        IncreasingCons(ps[0], fs);
      } else {
        assert Keep(s[0], k) == [];
        EmptyFront(f);
      }
    }
  }

  /** Equally ranked quotes are offered in the order their sentences first
      appear. */
  lemma ScoreSentencesTies(sentences: seq<string>, keywords: seq<string>, minLen: int, maxLen: int, k: Candidate)
    ensures InOrder(sentences, RankFilter(ScoreSentences(sentences, keywords, minLen, maxLen), k))
  {
    var cs := Collect(sentences, CleanKeywords(keywords), minLen, maxLen);
    CollectInOrder(sentences, CleanKeywords(keywords), minLen, maxLen);
    SortStable(cs, k);
    InOrderFilter(Norms(sentences), cs, k);
  }

  /** Sorting keeps equally ranked candidates in collection order. */
  lemma ScoreSentencesStable(sentences: seq<string>, keywords: seq<string>, minLen: int, maxLen: int, k: Candidate)
    ensures var cs := Collect(sentences, CleanKeywords(keywords), minLen, maxLen);
      RankFilter(ScoreSentences(sentences, keywords, minLen, maxLen), k) == RankFilter(cs, k)
  {
    SortStable(Collect(sentences, CleanKeywords(keywords), minLen, maxLen), k);
  }
}
