/** Page ingestion (main.js:181-241): the tokens a page contributes and the
    page text its sentences are cut from.

    Primary extraction keeps every pdf.js text item whose string is not
    blank, and a token remembers the item's raw index in `idx`, blank items
    included. When the joined text is missing or shorter than eight
    characters after trimming and automatic OCR is on, the OCR text (when
    it has more than two characters after trimming) replaces the page text
    as it is, and the tokens become one placeholder per OCR word, numbered
    by position. */
module Tokens {
  import opened Text

  /** A text fragment of a page. `x`, `y` are its anchor in canvas pixels,
      `idx` the number it is looked up by when a click is resolved. */
  datatype Token = Token(page: int, str: string, x: real, y: real, width: real, height: real, idx: nat)

  /** One pdf.js text item, its geometry already in canvas pixels. */
  datatype Item = Item(str: string, x: real, y: real, width: real, height: real)

  /** What a page contributes: the text its sentences are cut from, and its
      tokens. */
  datatype Page = Page(text: string, tokens: seq<Token>)

  /** The tokens' strings, in order. */
  function Strs(tokens: seq<Token>): (strs: seq<string>)
    ensures |strs| == |tokens|
  {
    seq(|tokens|, j requires 0 <= j < |tokens| => tokens[j].str)
  }

  /** The token of main.js:213 for the item at raw index `k`. */
  function TokenOf(page: int, it: Item, k: nat): Token {
    Token(page, it.str, it.x, it.y, it.width, it.height, k)
  }

  /** The loop of main.js:188-215 from raw index `k` on: blank items are
      skipped, every other item becomes a token numbered by its raw index. */
  function PrimaryFrom(page: int, items: seq<Item>, k: nat): seq<Token>
    requires k <= |items|
    decreases |items| - k
  {
    if k == |items| then []
    else if Blank(items[k].str) then PrimaryFrom(page, items, k + 1)
    else [TokenOf(page, items[k], k)] + PrimaryFrom(page, items, k + 1)
  }

  function PrimaryTokens(page: int, items: seq<Item>): seq<Token> {
    PrimaryFrom(page, items, 0)
  }

  lemma PrimaryStep(page: int, items: seq<Item>, k: nat)
    requires k < |items|
    ensures Blank(items[k].str) ==> PrimaryFrom(page, items, k) == PrimaryFrom(page, items, k + 1)
    ensures !Blank(items[k].str) ==>
      PrimaryFrom(page, items, k) == [TokenOf(page, items[k], k)] + PrimaryFrom(page, items, k + 1)
  {
  }

  /** Every primary token copies the non-blank item whose raw index it
      keeps, and that index is at least `k` plus the token's position. */
  lemma {:induction false} PrimaryFromAt(page: int, items: seq<Item>, k: nat, j: nat)
    requires k <= |items| && j < |PrimaryFrom(page, items, k)|
    ensures var t := PrimaryFrom(page, items, k)[j];
      && k + j <= t.idx < |items| && t == TokenOf(page, items[t.idx], t.idx) && !Blank(t.str)
    decreases |items| - k
  {
    PrimaryStep(page, items, k);
    if Blank(items[k].str) {
      PrimaryFromAt(page, items, k + 1, j);
    } else if j > 0 {
      PrimaryFromAt(page, items, k + 1, j - 1);
      ConsAt(TokenOf(page, items[k], k), PrimaryFrom(page, items, k + 1), j);
    }
  }

  /** The raw indices of the primary tokens strictly increase. */
  lemma {:induction false} PrimaryFromOrdered(page: int, items: seq<Item>, k: nat, j: nat)
    requires k <= |items| && j + 1 < |PrimaryFrom(page, items, k)|
    ensures PrimaryFrom(page, items, k)[j].idx < PrimaryFrom(page, items, k)[j + 1].idx
    decreases |items| - k
  {
    PrimaryStep(page, items, k);
    if Blank(items[k].str) {
      PrimaryFromOrdered(page, items, k + 1, j);
    } else {
      var rest := PrimaryFrom(page, items, k + 1);
      ConsAt(TokenOf(page, items[k], k), rest, j + 1);
      PrimaryFromAt(page, items, k + 1, j);
      if j > 0 {
        ConsAt(TokenOf(page, items[k], k), rest, j);
        PrimaryFromOrdered(page, items, k + 1, j - 1);
      }
    }
  }

  /** A blank item before a token pushes its raw index beyond `k` plus its
      position. */
  lemma {:induction false} PrimaryFromShift(page: int, items: seq<Item>, k: nat, j: nat, m: nat)
    requires k <= m < |items| && j < |PrimaryFrom(page, items, k)|
    requires m < PrimaryFrom(page, items, k)[j].idx && Blank(items[m].str)
    ensures k + j < PrimaryFrom(page, items, k)[j].idx
    decreases |items| - k
  {
    PrimaryStep(page, items, k);
    if Blank(items[k].str) {
      PrimaryFromAt(page, items, k + 1, j);
    } else if j > 0 {
      ConsAt(TokenOf(page, items[k], k), PrimaryFrom(page, items, k + 1), j);
      PrimaryFromShift(page, items, k + 1, j - 1, m);
    }
  }

  /** Every non-blank item at or after `k` yields a token. */
  lemma {:induction false} PrimaryFromHas(page: int, items: seq<Item>, k: nat, m: nat) returns (j: nat)
    requires k <= m < |items| && !Blank(items[m].str)
    ensures j < |PrimaryFrom(page, items, k)| && PrimaryFrom(page, items, k)[j].idx == m
    decreases m - k
  {
    PrimaryStep(page, items, k);
    if m == k {
      j := 0;
    } else {
      var rest := PrimaryFrom(page, items, k + 1);
      var i := PrimaryFromHas(page, items, k + 1, m);
      if Blank(items[k].str) {
        j := i;
      } else {
        ConsAt(TokenOf(page, items[k], k), rest, i + 1);
        j := i + 1;
      }
    }
  }

  /** Blank items occur only after every non-blank one. */
  predicate BlanksTrail(items: seq<Item>) {
    forall m1, m2 :: 0 <= m1 < m2 < |items| && Blank(items[m1].str) ==> Blank(items[m2].str)
  }

  lemma {:induction false} PrimaryFromDense(page: int, items: seq<Item>, k: nat, j: nat)
    requires k <= |items| && BlanksTrail(items) && j < |PrimaryFrom(page, items, k)|
    requires k < |items| ==> !Blank(items[k].str) || forall m :: k <= m < |items| ==> Blank(items[m].str)
    ensures PrimaryFrom(page, items, k)[j].idx == k + j
    decreases |items| - k
  {
    PrimaryStep(page, items, k);
    if Blank(items[k].str) {
      PrimaryFromAt(page, items, k, j);
    } else if j > 0 {
      ConsAt(TokenOf(page, items[k], k), PrimaryFrom(page, items, k + 1), j);
      PrimaryFromDense(page, items, k + 1, j - 1);
    }
  }

  /** The `idx` hazard: a primary token's `idx` equals its position in the
      page's token list exactly when no blank item comes before a non-blank
      one. */
  lemma PrimaryIdxIsPosition(page: int, items: seq<Item>)
    ensures (forall j :: 0 <= j < |PrimaryTokens(page, items)| ==> PrimaryTokens(page, items)[j].idx == j)
      <==> BlanksTrail(items)
  {
    var toks := PrimaryTokens(page, items);
    if BlanksTrail(items) {
      forall j | 0 <= j < |toks| ensures toks[j].idx == j {
        PrimaryFromDense(page, items, 0, j);
      }
    } else {
      var m1, m2 :| 0 <= m1 < m2 < |items| && Blank(items[m1].str) && !Blank(items[m2].str);
      var j := PrimaryFromHas(page, items, 0, m2);
      PrimaryFromShift(page, items, 0, j, m1);
    }
  }

  /** The position just after the run of non-space characters at `q`. */
  function SkipWord(s: string, q: nat): (e: nat)
    requires q <= |s|
    ensures q <= e <= |s|
    ensures e < |s| ==> IsSpace(s[e])
    decreases |s| - q
  {
    if q == |s| || IsSpace(s[q]) then q else SkipWord(s, q + 1)
  }

  lemma {:induction false} SkipWordSkipsWord(s: string, q: nat)
    requires q <= |s|
    ensures forall k :: q <= k < SkipWord(s, q) ==> !IsSpace(s[k])
    decreases |s| - q
  {
    if q < |s| && !IsSpace(s[q]) {
      SkipWordSkipsWord(s, q + 1);
    }
  }

  /** `s.slice(i).split(/\s+/).filter(Boolean)`: the separators are the
      maximal white-space runs, so the non-empty pieces are the maximal runs
      of other characters. */
  function WordsFrom(s: string, i: nat): seq<string>
    requires i <= |s|
    decreases |s| - i
  {
    var a := SkipSpace(s, i);
    if a == |s| then []
    else
      var b := SkipWord(s, a);
      assert a < b;
      [s[a..b]] + WordsFrom(s, b)
  }

  function Words(s: string): seq<string> {
    WordsFrom(s, 0)
  }

  lemma WordsStep(s: string, i: nat)
    requires i <= |s| && SkipSpace(s, i) < |s|
    ensures SkipSpace(s, i) < SkipWord(s, SkipSpace(s, i))
    ensures WordsFrom(s, i)
      == [s[SkipSpace(s, i)..SkipWord(s, SkipSpace(s, i))]] + WordsFrom(s, SkipWord(s, SkipSpace(s, i)))
  {
  }

  lemma WordsSame(s: string, i: nat, i2: nat)
    requires i <= |s| && i2 <= |s| && SkipSpace(s, i) == SkipSpace(s, i2)
    ensures WordsFrom(s, i) == WordsFrom(s, i2)
  {
  }

  /** Every OCR word is non-empty and holds no white space. */
  lemma {:induction false} WordsFromShape(s: string, i: nat, j: nat)
    requires i <= |s| && j < |WordsFrom(s, i)|
    ensures |WordsFrom(s, i)[j]| > 0
    ensures forall k :: 0 <= k < |WordsFrom(s, i)[j]| ==> !IsSpace(WordsFrom(s, i)[j][k])
    decreases |s| - i
  {
    var a := SkipSpace(s, i);
    var b := SkipWord(s, a);
    WordsStep(s, i);
    var w := s[a..b];
    if j == 0 {
      SkipWordSkipsWord(s, a);
      assert forall k :: 0 <= k < |w| ==> w[k] == s[a + k];
    } else {
      WordsFromShape(s, b, j - 1);
      ConsAt(w, WordsFrom(s, b), j);
    }
  }

  /** On a normalized text, joining the words with single spaces gives the
      text back. */
  lemma {:induction false} WordsFromJoin(s: string, i: nat)
    requires Normalized(s) && i < |s| && !IsSpace(s[i])
    ensures Join(WordsFrom(s, i), " ") == s[i..]
    decreases |s| - i
  {
    var b := SkipWord(s, i);
    if b < |s| {
      WordsNext(s, i);
      WordsFromJoin(s, b + 1);
      WordsJoinStep(s, i);
    } else {
      SkipSpaceExact(s, i, i);
      WordsStep(s, i);
      assert SkipSpace(s, b) == |s|;
      assert s[i..b] == s[i..];
    }
  }

  /** In a normalized text a word that is not the last is followed by one
      space and then the next word. */
  lemma WordsNext(s: string, i: nat)
    requires Normalized(s) && i < |s| && !IsSpace(s[i]) && SkipWord(s, i) < |s|
    ensures var b := SkipWord(s, i); b + 1 < |s| && !IsSpace(s[b + 1])
  {
    var b := SkipWord(s, i);
    CollapsedAt(s, b);
  }

  lemma WordsJoinStep(s: string, i: nat)
    requires Normalized(s) && i < |s| && !IsSpace(s[i])
    requires var b := SkipWord(s, i); b + 1 < |s| && Join(WordsFrom(s, b + 1), " ") == s[b + 1..]
    ensures Join(WordsFrom(s, i), " ") == s[i..]
  {
    var b := SkipWord(s, i);
    WordsAfterSpace(s, i);
    JoinCons(s[i..b], WordsFrom(s, b + 1), " ");
    SpaceSplit(s, i, b);
  }

  /** The words from the start of a word that one space follows. */
  lemma WordsAfterSpace(s: string, i: nat)
    requires Normalized(s) && i < |s| && !IsSpace(s[i]) && SkipWord(s, i) + 1 < |s|
    ensures var b := SkipWord(s, i);
      && s[b] == ' ' && |WordsFrom(s, b + 1)| >= 1
      && WordsFrom(s, i) == [s[i..b]] + WordsFrom(s, b + 1)
  {
    SkipSpaceExact(s, i, i);
    var b := SkipWord(s, i);
    WordsStep(s, i);
    CollapsedAt(s, b);
    SkipOneSpace(s, b);
    WordsSame(s, b, b + 1);
    WordsStep(s, b + 1);
  }

  lemma WordsJoin(s: string)
    requires Normalized(s)
    ensures Join(Words(s), " ") == s
  {
    if |s| > 0 {
      WordsFromJoin(s, 0);
    } else {
      assert Words(s) == [];
    }
  }

  /** From the start of a word, collapsing white space gives the words
      joined by single spaces, followed by one space when the text ends in
      white space. */
  lemma {:induction false} CollapseWords(s: string, i: nat)
    requires i < |s| && !IsSpace(s[i])
    ensures var j := Join(WordsFrom(s, i), " ");
      && |j| > 0 && Trimmed(j)
      && CollapseFrom(s, i) == j + (if IsSpace(s[|s| - 1]) then " " else "")
    decreases |s| - i
  {
    var b := SkipWord(s, i);
    SkipSpaceExact(s, i, i);
    WordsStep(s, i);
    SkipWordSkipsWord(s, i);
    CollapseWord(s, i, b);
    var w := s[i..b];
    assert w[0] == s[i] && w[|w| - 1] == s[b - 1];
    if b == |s| {
      assert WordsFrom(s, b) == [];
      assert [w] + [] == [w];
      assert w + [] == w;
    } else {
      var e := SkipSpace(s, b);
      var tail := CollapseFrom(s, e);
      assert CollapseFrom(s, b) == [' '] + tail;
      if e == |s| {
        assert WordsFrom(s, b) == [];
        assert [w] + [] == [w];
        assert tail == [];
      } else {
        CollapseWords(s, e);
        CollapseWordsStep(s, b, e, w);
      }
    }
  }

  /** The step of `CollapseWords` past the white space after a word. */
  lemma CollapseWordsStep(s: string, b: nat, e: nat, w: string)
    requires b < e < |s| && e == SkipSpace(s, b) && |w| > 0 && !IsSpace(w[0])
    requires var j := Join(WordsFrom(s, e), " ");
      && |j| > 0 && Trimmed(j)
      && CollapseFrom(s, e) == j + (if IsSpace(s[|s| - 1]) then " " else "")
    ensures var j := Join([w] + WordsFrom(s, b), " ");
      && |j| > 0 && Trimmed(j)
      && w + ([' '] + CollapseFrom(s, e)) == j + (if IsSpace(s[|s| - 1]) then " " else "")
  {
    SkipSpaceExact(s, e, e);
    WordsSame(s, b, e);
    WordsStep(s, e);
    JoinPad(w, WordsFrom(s, e), if IsSpace(s[|s| - 1]) then " " else "", CollapseFrom(s, e));
  }

  /** A word, one space and a padded join of more words. */
  lemma JoinPad(w: string, ws: seq<string>, pad: string, c: string)
    requires |ws| >= 1 && |w| > 0 && !IsSpace(w[0])
    requires var j := Join(ws, " "); |j| > 0 && Trimmed(j) && c == j + pad
    ensures var j := Join([w] + ws, " ");
      && |j| > 0 && Trimmed(j)
      && w + ([' '] + c) == j + pad
  {
    var j := Join(ws, " ");
    JoinCons(w, ws, " ");
    var whole := w + " " + j;
    assert whole[0] == w[0] && whole[|whole| - 1] == j[|j| - 1];
    assert w + ([' '] + (j + pad)) == whole + pad;
  }

  /** Splitting into words and joining them with single spaces is the
      `replace(/\s+/g, ' ').trim()` normalization, for every text. */
  lemma WordsNormalize(s: string)
    ensures Join(Words(s), " ") == NormalizeSpace(s)
  {
    var a := SkipSpace(s, 0);
    if a == |s| {
      SkipSpaceSkipsSpace(s, 0);
      NormalizeSpaceEmpty(s);
    } else {
      SkipSpaceSkipsSpace(s, 0);
      SkipSpaceExact(s, a, a);
      WordsSame(s, 0, a);
      CollapseWords(s, a);
      var j := Join(WordsFrom(s, a), " ");
      var pre: string := if a > 0 then " " else "";
      var post: string := if IsSpace(s[|s| - 1]) then " " else "";
      assert CollapseFrom(s, 0) == pre + CollapseFrom(s, a);
      assert Collapse(s) == pre + j + post;
      TrimPad(pre, j, post);
    }
  }

  /** The placeholder tokens of the OCR path (main.js:231-236): one per
      word, without geometry, numbered by position. */
  function OcrTokens(page: int, words: seq<string>): seq<Token> {
    seq(|words|, j requires 0 <= j < |words| => Token(page, words[j], 0.0, 0.0, 0.0, 0.0, j))
  }

  /** The condition of main.js:223: the joined text is empty or shorter
      than eight characters once trimmed, and automatic OCR is on. */
  predicate NeedOcr(joined: string, autoOcr: bool) {
    (|joined| == 0 || |Trim(joined)| < 8) && autoOcr
  }

  /** main.js:181-241 for one page. `ocr` is what the OCR run returns for
      the page's canvas, `None` when it fails; it is only consulted when
      OCR is needed. */
  function IngestPage(page: int, items: seq<Item>, autoOcr: bool, ocr: Option<string>): Page {
    var toks := PrimaryTokens(page, items);
    var joined := Join(Strs(toks), " ");
    if NeedOcr(joined, autoOcr) && ocr.Some? && |Trim(ocr.value)| > 2 then
      Page(ocr.value, OcrTokens(page, Words(ocr.value)))
    else Page(joined, toks)
  }

  /** A token without coordinates: main.js:320 skips a token when both
      `x` and `y` are zero. */
  predicate Placeholder(t: Token) {
    t.x == 0.0 && t.y == 0.0
  }

  /** The two ways a page is ingested. Either the page text is the
      single-space join of the non-blank items' strings, and the tokens are
      those items; or OCR was needed and accepted, the page text is the raw
      OCR text, and the tokens are placeholders for its words, each `idx`
      equal to its position. */
  lemma IngestCases(page: int, items: seq<Item>, autoOcr: bool, ocr: Option<string>)
    ensures var p := IngestPage(page, items, autoOcr, ocr);
      var toks := PrimaryTokens(page, items);
      || (&& p.tokens == toks && p.text == Join(Strs(toks), " ")
          && !(NeedOcr(p.text, autoOcr) && ocr.Some? && |Trim(ocr.value)| > 2))
      || (&& NeedOcr(Join(Strs(toks), " "), autoOcr) && ocr.Some? && p.text == ocr.value
          && |Trim(p.text)| > 2 && Strs(p.tokens) == Words(p.text)
          && forall j :: 0 <= j < |p.tokens| ==> Placeholder(p.tokens[j]) && p.tokens[j].idx == j)
  {
    var p := IngestPage(page, items, autoOcr, ocr);
    if p.tokens != PrimaryTokens(page, items) || p.text != Join(Strs(PrimaryTokens(page, items)), " ") {
      assert Strs(p.tokens) == Words(p.text);
    }
  }

  /** Text with more than seven non-blank characters never goes to OCR. */
  lemma LongTextSkipsOcr(page: int, items: seq<Item>, autoOcr: bool, ocr: Option<string>)
    requires |Trim(Join(Strs(PrimaryTokens(page, items)), " "))| >= 8
    ensures IngestPage(page, items, autoOcr, ocr).tokens == PrimaryTokens(page, items)
  {
  }

  /** The OCR hazard: the raw OCR text need not be the join of its words,
      so token ranges computed from the words need not line up with it. */
  lemma OcrTextIsNotTheJoin()
    ensures Words("a  b") == ["a", "b"]
    ensures Join(Words("a  b"), " ") != "a  b"
  {
    var s := "a  b";
    assert SkipSpace(s, 4) == 4;
    assert SkipSpace(s, 3) == 3;
    assert SkipSpace(s, 2) == 3;
    assert SkipSpace(s, 1) == 3;
    assert SkipSpace(s, 0) == 0;
    assert SkipWord(s, 4) == 4;
    assert SkipWord(s, 3) == 4;
    assert SkipWord(s, 1) == 1;
    assert SkipWord(s, 0) == 1;
    assert WordsFrom(s, 4) == [];
    assert WordsFrom(s, 1) == [s[3..4]] + WordsFrom(s, 4);
    assert WordsFrom(s, 0) == [s[0..1]] + WordsFrom(s, 1);
    assert s[0..1] == "a" && s[3..4] == "b";
    assert Join(["a", "b"], " ") == "a b";
  }
}
