/** The pure part of the click handler `handleCanvasClick`
    (main.js:314-339): pick the token nearest to the click among the
    clicked page's tokens and resolve it to a sentence of that page.

    Coordinates are exact reals; the DOM event, the bounding rectangle, the
    toasts, the clipboard write and the highlight are not part of this
    model. */
module Click {
  import opened Text
  import opened Segmenter
  import opened Tokens
  import opened Mapper

  /** What a click comes to: no token on the page, no sentence to copy, or
      the sentence copied and the token highlighted. */
  datatype Outcome = NoTextOnPage | DetectionFailed | Copied(sentence: Sentence, token: Token)

  /** The tokens of page `page` from position `i` on, in order
      (main.js:315). */
  function OnPageFrom(tokens: seq<Token>, page: int, i: nat): (r: seq<Token>)
    requires i <= |tokens|
    ensures |r| <= |tokens| - i
    ensures forall j :: 0 <= j < |r| ==> r[j].page == page && r[j] in tokens
    ensures forall k :: i <= k < |tokens| && tokens[k].page == page ==> tokens[k] in r
    decreases |tokens| - i
  {
    if i == |tokens| then []
    else if tokens[i].page == page then [tokens[i]] + OnPageFrom(tokens, page, i + 1)
    else OnPageFrom(tokens, page, i + 1)
  }

  function OnPage(tokens: seq<Token>, page: int): (r: seq<Token>)
    ensures forall t :: t in r <==> t in tokens && t.page == page
  {
    OnPageFrom(tokens, page, 0)
  }

  /** Filtering from a position inside `b` of `a + b` filters `b`. */
  lemma {:induction false} OnPageShift(a: seq<Token>, b: seq<Token>, page: int, j: nat)
    requires j <= |b|
    ensures OnPageFrom(a + b, page, |a| + j) == OnPageFrom(b, page, j)
    decreases |b| - j
  {
    if j < |b| {
      assert (a + b)[|a| + j] == b[j];
      OnPageShift(a, b, page, j + 1);
    }
  }

  lemma {:induction false} OnPageSplit(a: seq<Token>, b: seq<Token>, page: int, i: nat)
    requires i <= |a|
    ensures OnPageFrom(a + b, page, i) == OnPageFrom(a, page, i) + OnPageFrom(b, page, 0)
    decreases |a| - i
  {
    if i == |a| {
      OnPageShift(a, b, page, 0);
    } else {
      assert (a + b)[i] == a[i];
      OnPageSplit(a, b, page, i + 1);
      if a[i].page == page {
        Assoc([a[i]], OnPageFrom(a, page, i + 1), OnPageFrom(b, page, 0));
      }
    }
  }

  /** The page filter keeps the order of the tokens: filtering two runs of
      tokens one after the other is filtering each. */
  lemma OnPageConcat(a: seq<Token>, b: seq<Token>, page: int)
    ensures OnPage(a + b, page) == OnPage(a, page) + OnPage(b, page)
  {
    OnPageSplit(a, b, page, 0);
  }

  /** One token is kept exactly when it is on the page. */
  lemma OnPageOne(t: Token, page: int)
    ensures OnPage([t], page) == if t.page == page then [t] else []
  {
  }

  lemma {:induction false} OnPageAllFrom(a: seq<Token>, page: int, i: nat)
    requires i <= |a| && forall k :: i <= k < |a| ==> a[k].page == page
    ensures OnPageFrom(a, page, i) == a[i..]
    decreases |a| - i
  {
    if i < |a| {
      OnPageAllFrom(a, page, i + 1);
      assert a[i..] == [a[i]] + a[i + 1..];
    }
  }

  /** Tokens that are all on the page are all kept, in order. */
  lemma OnPageAll(a: seq<Token>, page: int)
    requires forall t :: t in a ==> t.page == page
    ensures OnPage(a, page) == a
  {
    OnPageAllFrom(a, page, 0);
  }

  /** A token with a position of its own: the OCR placeholders sit at the
      origin (main.js:320). */
  predicate Spatial(t: Token) {
    !Placeholder(t)
  }

  /** Squared distance from the click `(x, y)` to the token's anchor, the
      middle of its box horizontally and half a height above its baseline
      (main.js:322-327). */
  function Dist(t: Token, x: real, y: real): (d: real)
    ensures d >= 0.0
  {
    var dx := t.x + t.width / 2.0 - x;
    var dy := t.y - t.height / 2.0 - y;
    dx * dx + dy * dy
  }

  /** None of the first `n` tokens is spatial. */
  predicate NoSpatial(items: seq<Token>, n: nat)
    requires n <= |items|
  {
    forall k :: 0 <= k < n ==> !Spatial(items[k])
  }

  /** `b` is the first spatial token among the first `n` at the least
      distance from the click: no spatial token there is nearer, and every
      spatial token before it is strictly farther. */
  predicate IsNearest(items: seq<Token>, x: real, y: real, b: nat, n: nat) {
    && b < n <= |items| && Spatial(items[b])
    && (forall k :: 0 <= k < n && Spatial(items[k]) ==> Dist(items[b], x, y) <= Dist(items[k], x, y))
    && (forall k :: 0 <= k < b && Spatial(items[k]) ==> Dist(items[b], x, y) < Dist(items[k], x, y))
  }

  /** The loop of main.js:319-329 from token `i` on, with the best so far
      in `best`: placeholders are skipped and a token replaces the best only
      when it is strictly nearer. */
  function NearestFrom(items: seq<Token>, x: real, y: real, i: nat, best: Option<nat>): (r: Option<nat>)
    requires i <= |items|
    requires best.None? ==> NoSpatial(items, i)
    requires best.Some? ==> IsNearest(items, x, y, best.value, i)
    ensures r.None? ==> NoSpatial(items, |items|)
    ensures r.Some? ==> IsNearest(items, x, y, r.value, |items|)
    decreases |items| - i
  {
    if i == |items| then best
    else if !Spatial(items[i]) then NearestFrom(items, x, y, i + 1, best)
    else if best.None? || Dist(items[i], x, y) < Dist(items[best.value], x, y) then
      NearestFrom(items, x, y, i + 1, Some(i))
    else NearestFrom(items, x, y, i + 1, best)
  }

  /** The position of the nearest spatial token, if there is one. */
  function Nearest(items: seq<Token>, x: real, y: real): (r: Option<nat>)
    ensures r.None? <==> NoSpatial(items, |items|)
    ensures r.Some? ==> IsNearest(items, x, y, r.value, |items|)
  {
    NearestFrom(items, x, y, 0, None)
  }

  /** There is only one first nearest token. */
  lemma NearestUnique(items: seq<Token>, x: real, y: real, b: nat, c: nat, n: nat)
    requires IsNearest(items, x, y, b, n) && IsNearest(items, x, y, c, n)
    ensures b == c
  {
  }

  /** The position of the chosen token (main.js:331-333): the nearest
      spatial one, or the first when none is spatial. */
  function Choose(items: seq<Token>, x: real, y: real): (b: nat)
    requires |items| > 0
    ensures b < |items|
    ensures NoSpatial(items, |items|) ==> b == 0
    ensures !NoSpatial(items, |items|) ==> IsNearest(items, x, y, b, |items|)
  {
    match Nearest(items, x, y)
    case Some(b) => b
    case None => 0
  }

  /** The position of the first sentence from `i` on whose `itemIndices`
      hold `key` (the `find` of main.js:337). */
  function FindFrom(sentences: seq<Sentence>, key: nat, i: nat): (r: Option<nat>)
    requires i <= |sentences|
    ensures r.Some? ==> i <= r.value < |sentences| && key in sentences[r.value].itemIndices
    ensures forall k :: i <= k < |sentences| && (r.None? || k < r.value) ==> key !in sentences[k].itemIndices
    decreases |sentences| - i
  {
    if i == |sentences| then None
    else if key in sentences[i].itemIndices then Some(i)
    else FindFrom(sentences, key, i + 1)
  }

  /** `s` is what looking up `key` in `sentences` yields: the first
      sentence whose `itemIndices` hold `key`, or the first sentence when
      none does. */
  predicate FoundFor(sentences: seq<Sentence>, key: nat, s: Sentence) {
    if exists k :: 0 <= k < |sentences| && key in sentences[k].itemIndices then
      exists j :: 0 <= j < |sentences| && s == sentences[j] && key in sentences[j].itemIndices
        && forall k :: 0 <= k < j ==> key !in sentences[k].itemIndices
    else |sentences| > 0 && s == sentences[0]
  }

  /** The sentence that holds `key`, else the first sentence
      (main.js:337-338). */
  function Pick(sentences: seq<Sentence>, key: nat): (r: Option<Sentence>)
    ensures r.None? <==> |sentences| == 0
    ensures r.Some? ==> r.value in sentences
    ensures r.Some? && key in r.value.itemIndices ==>
      exists j :: 0 <= j < |sentences| && r.value == sentences[j]
        && forall k :: 0 <= k < j ==> key !in sentences[k].itemIndices
    ensures r.Some? && key !in r.value.itemIndices ==>
      r.value == sentences[0] && forall k :: 0 <= k < |sentences| ==> key !in sentences[k].itemIndices
    ensures r.Some? ==> FoundFor(sentences, key, r.value)
  {
    match FindFrom(sentences, key, 0)
    case Some(j) => Some(sentences[j])
    case None => if |sentences| == 0 then None else Some(sentences[0])
  }

  /** The sentences of page `page`, none when the page has no entry
      (main.js:336). */
  function SentencesOf(pageSentences: seq<seq<Sentence>>, page: int): seq<Sentence> {
    if 1 <= page <= |pageSentences| then pageSentences[page - 1] else []
  }

  /** `handleCanvasClick(pageNum, x, y)` as written: the chosen token's
      `idx` is looked up among the sentences' `itemIndices`. */
  function Resolve(tokens: seq<Token>, pageSentences: seq<seq<Sentence>>, page: int, x: real, y: real): (o: Outcome)
    ensures o == NoTextOnPage <==> |OnPage(tokens, page)| == 0
    ensures o == DetectionFailed <==> |OnPage(tokens, page)| > 0 && |SentencesOf(pageSentences, page)| == 0
    ensures o.Copied? ==> o.token in tokens && o.token.page == page && o.sentence in SentencesOf(pageSentences, page)
    ensures o.Copied? ==> FoundFor(SentencesOf(pageSentences, page), o.token.idx, o.sentence)
  {
    var items := OnPage(tokens, page);
    if |items| == 0 then NoTextOnPage
    else
      var chosen := items[Choose(items, x, y)];
      match Pick(SentencesOf(pageSentences, page), chosen.idx)
      case None => DetectionFailed
      case Some(s) => Copied(s, chosen)
  }

  /** The same with the chosen token looked up by its position among the
      page's tokens, which is what `itemIndices` records. */
  function ResolveByPosition(tokens: seq<Token>, pageSentences: seq<seq<Sentence>>, page: int, x: real, y: real): (o: Outcome)
    ensures o == NoTextOnPage <==> |OnPage(tokens, page)| == 0
    ensures o == DetectionFailed <==> |OnPage(tokens, page)| > 0 && |SentencesOf(pageSentences, page)| == 0
    ensures o.Copied? ==> o.token in tokens && o.token.page == page && o.sentence in SentencesOf(pageSentences, page)
    ensures o.Copied? ==> var items := OnPage(tokens, page);
      |items| > 0 && o.token == items[Choose(items, x, y)]
      && FoundFor(SentencesOf(pageSentences, page), Choose(items, x, y), o.sentence)
  {
    var items := OnPage(tokens, page);
    if |items| == 0 then NoTextOnPage
    else
      var b := Choose(items, x, y);
      match Pick(SentencesOf(pageSentences, page), b)
      case None => DetectionFailed
      case Some(s) => Copied(s, items[b])
  }

  /** The chosen token is the first nearest spatial token of the page, or
      the page's first token when none is spatial. */
  lemma ResolveChoosesNearest(tokens: seq<Token>, pageSentences: seq<seq<Sentence>>, page: int, x: real, y: real)
    requires Resolve(tokens, pageSentences, page, x, y).Copied?
    ensures var items := OnPage(tokens, page);
      var t := Resolve(tokens, pageSentences, page, x, y).token;
      && (NoSpatial(items, |items|) ==> t == items[0])
      && (!NoSpatial(items, |items|) ==>
            exists b: nat :: IsNearest(items, x, y, b, |items|) && t == items[b])
  {
    var items := OnPage(tokens, page);
    var b := Choose(items, x, y);
    if !NoSpatial(items, |items|) {
      assert IsNearest(items, x, y, b, |items|);
    }
  }

  /** When every token's `idx` is its position on the page, as for OCR
      placeholders and for primary tokens with no blank item before a
      non-blank one, the two look-ups agree. */
  lemma ResolveAgrees(tokens: seq<Token>, pageSentences: seq<seq<Sentence>>, page: int, x: real, y: real)
    requires var items := OnPage(tokens, page); forall j :: 0 <= j < |items| ==> items[j].idx == j
    ensures Resolve(tokens, pageSentences, page, x, y) == ResolveByPosition(tokens, pageSentences, page, x, y)
  {
    var items := OnPage(tokens, page);
    if |items| > 0 {
      var b := Choose(items, x, y);
      assert items[b].idx == b;
      var ss := SentencesOf(pageSentences, page);
      assert Pick(ss, items[b].idx) == Pick(ss, b);
    }
  }

  /** Looked up by position, the copied sentence holds the chosen token
      whenever any sentence of the page does. */
  lemma ByPositionHoldsToken(tokens: seq<Token>, pageSentences: seq<seq<Sentence>>, page: int, x: real, y: real)
    requires ResolveByPosition(tokens, pageSentences, page, x, y).Copied?
    ensures var items := OnPage(tokens, page);
      var b := Choose(items, x, y);
      var ss := SentencesOf(pageSentences, page);
      (exists k :: 0 <= k < |ss| && b in ss[k].itemIndices) ==>
        b in ResolveByPosition(tokens, pageSentences, page, x, y).sentence.itemIndices
  {
  }

  /** A page whose first pdf.js item is blank: the tokens of "あ。" and
      "い。" keep the raw indices 1 and 2 but sit at positions 0 and 1. */
  const BlankFirst: seq<Item> := [Item(" ", 0.0, 0.0, 0.0, 0.0), Item("あ。", 10.0, 20.0, 10.0, 10.0), Item("い。", 50.0, 20.0, 10.0, 10.0)]
  const TokA: Token := Token(1, "あ。", 10.0, 20.0, 10.0, 10.0, 1)
  const TokB: Token := Token(1, "い。", 50.0, 20.0, 10.0, 10.0, 2)
  const SentA: Sentence := Sentence("あ。", 0, 2, [0])
  const SentB: Sentence := Sentence("い。", 3, 5, [1])

  lemma BlankFirstTokens()
    ensures PrimaryTokens(1, BlankFirst) == [TokA, TokB]
    ensures Join(Strs([TokA, TokB]), " ") == "あ。 い。"
  {
    assert SkipSpace(" ", 0) == 1;
    assert Blank(BlankFirst[0].str);
    assert !Blank(BlankFirst[1].str) && !Blank(BlankFirst[2].str);
    PrimaryStep(1, BlankFirst, 0);
    PrimaryStep(1, BlankFirst, 1);
    PrimaryStep(1, BlankFirst, 2);
    assert Strs([TokA, TokB]) == ["あ。", "い。"];
    assert ["あ。", "い。"][1..] == ["い。"];
  }

  lemma BlankFirstNormalized()
    ensures Normalized("あ。 い。")
  {
    var t := "あ。 い。";
    assert !IsSpace(t[0]) && !IsSpace(t[1]) && t[2] == ' ' && !IsSpace(t[3]) && !IsSpace(t[4]);
    assert CollapsedFrom(t, 3);
    assert CollapsedFrom(t, 0);
  }

  lemma BlankFirstPieces()
    ensures HasCjkStop("あ。 い。") && CjkSplit("あ。 い。") == ["あ。", " い。"]
  {
    var t := "あ。 い。";
    assert IsCjkStop(t[1]) && !IsCjkStop(t[2]) && !IsCjkStop(t[3]) && IsCjkStop(t[4]);
    assert CjkStopFrom(t, 0) == 1;
    assert CjkStopFrom(t, 2) == 4;
    assert t[0..2] == "あ。" && t[2..] == " い。";
  }

  lemma BlankFirstTrim()
    ensures Trim(" い。") == "い。"
  {
    var p := " い。";
    assert SkipSpace(p, 0) == 1;
    assert TrimStart(p) == "い。";
    TrimKeeps("い。");
  }

  lemma BlankFirstSplit()
    ensures SplitIntoSentences("あ。 い。") == ["あ。", "い。"]
  {
    var t := "あ。 い。";
    BlankFirstNormalized();
    NormalizeKeeps(t);
    TrimKeeps(t);
    BlankFirstPieces();
    BlankFirstTrimPieces();
  }

  lemma BlankFirstTrimPieces()
    ensures TrimPieces(["あ。", " い。"]) == ["あ。", "い。"]
  {
    BlankFirstTrim();
    TrimKeeps("あ。");
    var p := ["あ。", " い。"];
    assert p[1..] == [" い。"];
    assert TrimPieces(p[1..]) == ["い。"];
  }

  /** The mapper records "あ。" with the token at position 0 and "い。"
      with the token at position 1. */
  lemma BlankFirstSentences()
    ensures BuildSentences("あ。 い。", [TokA, TokB]) == [SentA, SentB]
  {
    var t := "あ。 い。";
    var ss := ["あ。", "い。"];
    var rs := Ranges([TokA, TokB]);
    BlankFirstSplit();
    BlankFirstRanges();
    TrimKeeps(ss[0]);
    TrimKeeps(ss[1]);
    TrimAllKeeps(ss);
    BlankFirstPlace(rs);
  }

  lemma BlankFirstPlace(rs: seq<Range>)
    requires EachTrimmed(["あ。", "い。"])
    ensures Place("あ。 い。", rs, ["あ。", "い。"], 0, 1)
      == [Sentence("あ。", 0, 2, Included(rs, 0, 2)), Sentence("い。", 3, 5, Included(rs, 3, 5))]
  {
    var t := "あ。 い。";
    var ss := ["あ。", "い。"];
    assert MatchAt(t, ss[0], 0) && MatchAt(t, ss[1], 3);
    LocateHere(t, rs, ss[0], 0, 1, 0);
    LocateHere(t, rs, ss[1], 3, 1, 3);
    assert ss[1..] == ["い。"] && ss[1..][1..] == [];
    PlaceUnfold(t, rs, ss, 0, 1);
    PlaceUnfold(t, rs, ss[1..], 3, 1);
  }

  lemma BlankFirstRanges()
    ensures var rs := Ranges([TokA, TokB]);
      rs == [Range(0, 2), Range(3, 5)] && Included(rs, 0, 2) == [0] && Included(rs, 3, 5) == [1]
  {
    assert Strs([TokA, TokB]) == ["あ。", "い。"];
    assert ["あ。", "い。"][1..] == ["い。"];
    assert RangesFrom(["い。"], 3) == [Range(3, 5)];
    var rs := [Range(0, 2), Range(3, 5)];
    assert IncludedFrom(rs, 0, 2, 1) == [];
    assert IncludedFrom(rs, 3, 5, 1) == [1];
  }

  /** Ingesting the page without OCR gives these tokens, the text
      "あ。 い。" and the two sentences. */
  lemma BlankFirstPage()
    ensures var page := IngestPage(1, BlankFirst, false, None);
      page == Page("あ。 い。", [TokA, TokB]) && BuildSentences(page.text, page.tokens) == [SentA, SentB]
  {
    BlankFirstTokens();
    BlankFirstSentences();
  }

  /** Clicking on "あ。" copies "い。": the chosen token's raw index 1 is
      the position of the token of "い。". Looked up by position, "あ。" is
      copied. */
  lemma IdxHazard()
    ensures Resolve([TokA, TokB], [[SentA, SentB]], 1, 15.0, 15.0) == Copied(SentB, TokA)
    ensures ResolveByPosition([TokA, TokB], [[SentA, SentB]], 1, 15.0, 15.0) == Copied(SentA, TokA)
  {
    var items := [TokA, TokB];
    assert OnPageFrom(items, 1, 2) == [];
    assert OnPageFrom(items, 1, 1) == [TokB];
    assert OnPage(items, 1) == items;
    assert Dist(TokA, 15.0, 15.0) == 0.0;
    assert Dist(TokB, 15.0, 15.0) == 1600.0;
    assert Choose(items, 15.0, 15.0) == 0;
    assert SentencesOf([[SentA, SentB]], 1) == [SentA, SentB];
    assert FindFrom([SentA, SentB], 1, 0) == Some(1);
    assert FindFrom([SentA, SentB], 0, 0) == Some(0);
  }
}
