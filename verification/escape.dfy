/** `escapeHtml` of main.js: three global replacements, `&` first, then
    `<` and `>`. Escaping `&` first is what keeps the entities that the
    later replacements insert from being escaped again. */
module Escape {
  import opened Text

  /** `s.replace(/c/g, rep)` for a one-character pattern `c`. */
  function Replace(s: string, c: char, rep: string): (r: string)
    ensures c !in rep ==> c !in r
    ensures forall d :: d in r ==> d in s || d in rep
    ensures |rep| >= 1 ==> |r| >= |s|
  {
    if |s| == 0 then ""
    else (if s[0] == c then rep else [s[0]]) + Replace(s[1..], c, rep)
  }

  /** `escapeHtml(s)` */
  function EscapeHtml(s: string): (r: string)
    ensures '<' !in r && '>' !in r
    ensures |r| >= |s|
  {
    Replace(Replace(Replace(s, '&', "&amp;"), '<', "&lt;"), '>', "&gt;")
  }

  /** The entity for one character; other characters stand for themselves. */
  function Esc(c: char): string {
    if c == '&' then "&amp;" else if c == '<' then "&lt;" else if c == '>' then "&gt;" else [c]
  }

  /** Character-by-character escaping: the reference the three passes
      are compared with. */
  function EscapeEach(s: string): (r: string)
    ensures |r| >= |s|
    ensures '<' !in r && '>' !in r
  {
    if |s| == 0 then "" else Esc(s[0]) + EscapeEach(s[1..])
  }

  /** The character that each of the three entities decodes to. */
  predicate Special(c: char) {
    c == '&' || c == '<' || c == '>'
  }

  lemma ReplaceCons(x: char, t: string, c: char, rep: string)
    ensures Replace([x] + t, c, rep) == (if x == c then rep else [x]) + Replace(t, c, rep)
  {
    var s := [x] + t;
    assert s[0] == x;
    assert s[1..] == t;
  }

  /** Text without the pattern character is left as it is. */
  lemma {:induction false} ReplaceAbsent(s: string, c: char, rep: string)
    requires c !in s
    ensures Replace(s, c, rep) == s
  {
    if |s| > 0 {
      var x, t := s[0], s[1..];
      assert s == [x] + t;
      ReplaceCons(x, t, c, rep);
      assert c !in t by {
        forall d | d in t ensures d != c { assert d in s; }
      }
      ReplaceAbsent(t, c, rep);
    }
  }

  /** A replacement acts on each part of a concatenation separately. */
  lemma {:induction false} ReplaceConcat(a: string, b: string, c: char, rep: string)
    ensures Replace(a + b, c, rep) == Replace(a, c, rep) + Replace(b, c, rep)
  {
    if |a| > 0 {
      var x, t := a[0], a[1..];
      assert a == [x] + t;
      Assoc([x], t, b);
      ReplaceCons(x, t + b, c, rep);
      ReplaceCons(x, t, c, rep);
      ReplaceConcat(t, b, c, rep);
      var h := if x == c then rep else [x];
      Assoc(h, Replace(t, c, rep), Replace(b, c, rep));
    } else {
      assert a + b == b;
    }
  }

  /** Escaping acts on each part of a concatenation separately. */
  lemma EscapeConcat(a: string, b: string)
    ensures EscapeHtml(a + b) == EscapeHtml(a) + EscapeHtml(b)
  {
    ReplaceConcat(a, b, '&', "&amp;");
    var a1, b1 := Replace(a, '&', "&amp;"), Replace(b, '&', "&amp;");
    ReplaceConcat(a1, b1, '<', "&lt;");
    var a2, b2 := Replace(a1, '<', "&lt;"), Replace(b1, '<', "&lt;");
    ReplaceConcat(a2, b2, '>', "&gt;");
  }

  /** The three passes turn a single character into its entity. */
  lemma EscapeChar(c: char)
    ensures EscapeHtml([c]) == Esc(c)
  {
    ReplaceCons(c, "", '&', "&amp;");
    if c == '&' {
      EscapeAmp();
    } else {
      assert Replace([c], '&', "&amp;") == [c];
      LaterPasses(c);
    }
  }

  lemma EscapeAmp()
    ensures EscapeHtml("&") == "&amp;"
  {
    var amp := "&amp;";
    ReplaceCons('&', "", '&', amp);
    assert Replace("&", '&', amp) == amp;
    assert '<' !in amp && '>' !in amp;
    ReplaceAbsent(amp, '<', "&lt;");
    ReplaceAbsent(amp, '>', "&gt;");
  }

  /** The `<` and `>` passes on a character other than `&`. */
  lemma LaterPasses(c: char)
    requires c != '&'
    ensures Replace(Replace([c], '<', "&lt;"), '>', "&gt;") == Esc(c)
  {
    ReplaceCons(c, "", '<', "&lt;");
    if c == '<' {
      assert Replace([c], '<', "&lt;") == "&lt;";
      ReplaceAbsent("&lt;", '>', "&gt;");
    } else {
      assert Replace([c], '<', "&lt;") == [c];
      ReplaceCons(c, "", '>', "&gt;");
    }
  }

  lemma EachCons(x: char, t: string)
    ensures EscapeEach([x] + t) == Esc(x) + EscapeEach(t)
  {
    var s := [x] + t;
    assert s[0] == x;
    assert s[1..] == t;
  }

  /** Replacing `&` first makes the three passes agree with escaping
      every character on its own: no entity is escaped twice. */
  lemma {:induction false} EscapeFlat(s: string)
    ensures EscapeHtml(s) == EscapeEach(s)
  {
    if |s| > 0 {
      var x, t := s[0], s[1..];
      assert s == [x] + t;
      EscapeConcat([x], t);
      EscapeChar(x);
      EachCons(x, t);
      EscapeFlat(t);
    }
  }

  /** Decoding of the three entities, left to right. */
  function Unescape(s: string): (r: string)
    ensures |r| <= |s|
  {
    if |s| == 0 then ""
    else if |s| >= 5 && s[..5] == "&amp;" then "&" + Unescape(s[5..])
    else if |s| >= 4 && s[..4] == "&lt;" then "<" + Unescape(s[4..])
    else if |s| >= 4 && s[..4] == "&gt;" then ">" + Unescape(s[4..])
    else [s[0]] + Unescape(s[1..])
  }

  lemma UnescapeAmp(t: string)
    ensures Unescape("&amp;" + t) == "&" + Unescape(t)
  {
    var s := "&amp;" + t;
    assert s[..5] == "&amp;";
    assert s[5..] == t;
  }

  /** `&lt;` and `&gt;` decode to the character they stand for. */
  lemma UnescapeShort(e: string, c: char, t: string)
    requires (e, c) == ("&lt;", '<') || (e, c) == ("&gt;", '>')
    ensures Unescape(e + t) == [c] + Unescape(t)
  {
    var s := e + t;
    assert s[1] == e[1];
    assert s[..4] == e;
    assert s[4..] == t;
  }

  lemma UnescapePlain(c: char, t: string)
    requires !Special(c)
    ensures Unescape([c] + t) == [c] + Unescape(t)
  {
    var s := [c] + t;
    assert s[0] == c;
    assert s[1..] == t;
  }

  lemma UnescapeEsc(c: char, t: string)
    ensures Unescape(Esc(c) + t) == [c] + Unescape(t)
  {
    if c == '&' {
      UnescapeAmp(t);
    } else if c == '<' {
      UnescapeShort("&lt;", c, t);
    } else if c == '>' {
      UnescapeShort("&gt;", c, t);
    } else {
      UnescapePlain(c, t);
    }
  }

  /** Decoding undoes escaping. */
  lemma {:induction false} UnescapeEscape(s: string)
    ensures Unescape(EscapeHtml(s)) == s
  {
    EscapeFlat(s);
    UnescapeEach(s);
  }

  lemma {:induction false} UnescapeEach(s: string)
    ensures Unescape(EscapeEach(s)) == s
  {
    if |s| > 0 {
      var x, t := s[0], s[1..];
      assert s == [x] + t;
      EachCons(x, t);
      UnescapeEsc(x, EscapeEach(t));
      UnescapeEach(t);
    }
  }

  /** Text without `&`, `<` and `>` is left as it is. */
  lemma {:induction false} EscapeKeeps(s: string)
    requires forall i :: 0 <= i < |s| ==> !Special(s[i])
    ensures EscapeHtml(s) == s
  {
    EscapeFlat(s);
    EachKeeps(s);
  }

  lemma {:induction false} EachKeeps(s: string)
    requires forall i :: 0 <= i < |s| ==> !Special(s[i])
    ensures EscapeEach(s) == s
  {
    if |s| > 0 {
      var x, t := s[0], s[1..];
      assert s == [x] + t;
      EachCons(x, t);
      assert forall i :: 0 <= i < |t| ==> t[i] == s[i + 1];
      EachKeeps(t);
    }
  }
}
