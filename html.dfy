/** The escaper `htmlEntities` of the chat server: four global replaces, `&` first,
    then `<`, `>` and `"`.  A one-pass escape serves as its reference definition and
    `Unescape` as its inverse. */
module Html {

  /** `s.replace(/c/g, rep)` for a one-character pattern: every occurrence of `c`
      becomes `rep`, everything else is kept in order. */
  function ReplaceAll(s: string, c: char, rep: string): (r: string)
    ensures c !in s ==> r == s
    ensures c !in rep ==> c !in r
    ensures forall x :: x in r && x !in rep ==> x in s
  {
    if s == [] then []
    else (if s[0] == c then rep else [s[0]]) + ReplaceAll(s[1..], c, rep)
  }

  /** The server's `htmlEntities`, as written: the four replaces chained. */
  function HtmlEntities(s: string): (r: string)
  {
    ReplaceAll(ReplaceAll(ReplaceAll(ReplaceAll(s, '&', "&amp;"), '<', "&lt;"), '>', "&gt;"), '"', "&quot;")
  }

  /** The entity (or the character itself) that one character escapes to. */
  function EscapeChar(ch: char): (r: string)
    ensures |r| > 0
    ensures ch !in "&<>\"" <==> r == [ch]
  {
    match ch
    case '&' => "&amp;"
    case '<' => "&lt;"
    case '>' => "&gt;"
    case '"' => "&quot;"
    case _ => [ch]
  }

  /** Reference definition: escape every character independently, in one pass. */
  function Escape(s: string): (r: string)
  {
    if s == [] then [] else EscapeChar(s[0]) + Escape(s[1..])
  }

  /** The inverse of `Escape`: read an entity back as its character. */
  function Unescape(e: string): (r: string)
    decreases |e|
  {
    if e == [] then []
    else if e[0] != '&' then [e[0]] + Unescape(e[1..])
    else if IsPrefix("&amp;", e) then "&" + Unescape(e[5..])
    else if IsPrefix("&lt;", e) then "<" + Unescape(e[4..])
    else if IsPrefix("&gt;", e) then ">" + Unescape(e[4..])
    else if IsPrefix("&quot;", e) then "\"" + Unescape(e[6..])
    else "&" + Unescape(e[1..])
  }

  predicate IsPrefix(p: string, s: string)
  {
    |p| <= |s| && s[..|p|] == p
  }

  /** Position `i` of `r` begins one of the four entities the escaper produces. */
  predicate EntityAt(r: string, i: nat)
    requires i <= |r|
  {
    IsPrefix("&amp;", r[i..]) || IsPrefix("&lt;", r[i..])
    || IsPrefix("&gt;", r[i..]) || IsPrefix("&quot;", r[i..])
  }

  /** Every `&` of `r` is the start of an entity. */
  predicate AmpsAreEntities(r: string)
  {
    forall i :: 0 <= i < |r| && r[i] == '&' ==> EntityAt(r, i)
  }

  /** Output that is safe to embed in markup: no raw `<`, `>` or `"`, and every `&`
      opens an entity. */
  predicate DisplaySafe(r: string)
  {
    '<' !in r && '>' !in r && '"' !in r && AmpsAreEntities(r)
  }

  lemma {:induction false} ReplaceAllConcat(a: string, b: string, c: char, rep: string)
    ensures ReplaceAll(a + b, c, rep) == ReplaceAll(a, c, rep) + ReplaceAll(b, c, rep)
    decreases |a|
  {
    if a == [] {
      assert a + b == b;
    } else {
      assert (a + b)[1..] == a[1..] + b;
      ReplaceAllConcat(a[1..], b, c, rep);
    }
  }

  /** The chained replaces act on a prefix and the rest of a string separately. */
  lemma HtmlEntitiesConcat(a: string, b: string)
    ensures HtmlEntities(a + b) == HtmlEntities(a) + HtmlEntities(b)
  {
    var a1, b1 := ReplaceAll(a, '&', "&amp;"), ReplaceAll(b, '&', "&amp;");
    ReplaceAllConcat(a, b, '&', "&amp;");
    var a2, b2 := ReplaceAll(a1, '<', "&lt;"), ReplaceAll(b1, '<', "&lt;");
    ReplaceAllConcat(a1, b1, '<', "&lt;");
    var a3, b3 := ReplaceAll(a2, '>', "&gt;"), ReplaceAll(b2, '>', "&gt;");
    ReplaceAllConcat(a2, b2, '>', "&gt;");
    ReplaceAllConcat(a3, b3, '"', "&quot;");
  }

  lemma ReplaceOne(ch: char, c: char, rep: string)
    ensures ReplaceAll([ch], c, rep) == if ch == c then rep else [ch]
  {
    assert [ch][1..] == [];
  }

  /** Replacing characters that do not occur changes nothing. */
  lemma ReplaceAbsent(s: string, c1: char, r1: string, c2: char, r2: string, c3: char, r3: string)
    requires c1 !in s && c2 !in s && c3 !in s
    ensures ReplaceAll(ReplaceAll(ReplaceAll(s, c1, r1), c2, r2), c3, r3) == s
  {
  }

  /** On a single character the chain of replaces is that character's escape. */
  lemma HtmlEntitiesChar(ch: char)
    ensures HtmlEntities([ch]) == EscapeChar(ch)
  {
    ReplaceOne(ch, '&', "&amp;");
    if ch == '&' {
      ReplaceAbsent("&amp;", '<', "&lt;", '>', "&gt;", '"', "&quot;");
    } else {
      ReplaceOne(ch, '<', "&lt;");
      if ch == '<' {
        assert '>' !in "&lt;" && '"' !in "&lt;";
        assert ReplaceAll("&lt;", '>', "&gt;") == "&lt;";
      } else {
        ReplaceOne(ch, '>', "&gt;");
        ReplaceOne(ch, '"', "&quot;");
      }
    }
  }

  /** Because `&` is replaced first, the chain of replaces is the same as escaping
      each character once: no entity is escaped a second time. */
  lemma {:induction false} HtmlEntitiesIsEscape(s: string)
    ensures HtmlEntities(s) == Escape(s)
    decreases |s|
  {
    if s == [] {
    } else {
      assert s == [s[0]] + s[1..];
      HtmlEntitiesConcat([s[0]], s[1..]);
      HtmlEntitiesChar(s[0]);
      HtmlEntitiesIsEscape(s[1..]);
    }
  }

  lemma {:induction false} AmpsAreEntitiesConcat(a: string, b: string)
    requires AmpsAreEntities(a) && AmpsAreEntities(b)
    ensures AmpsAreEntities(a + b)
  {
    var r := a + b;
    forall i | 0 <= i < |r| && r[i] == '&'
      ensures EntityAt(r, i)
    {
      if i < |a| {
        assert EntityAt(a, i);
        assert r[i..] == a[i..] + b;
      } else {
        assert b[i - |a|] == '&';
        assert EntityAt(b, i - |a|);
        assert r[i..] == b[i - |a|..];
      }
    }
  }

  lemma EscapeCharSafe(ch: char)
    ensures DisplaySafe(EscapeChar(ch))
  {
    var e := EscapeChar(ch);
    forall i | 0 <= i < |e| && e[i] == '&' ensures EntityAt(e, i) {
      assert i == 0 && e[0..] == e;
    }
  }

  lemma {:induction false} EscapeSafe(s: string)
    ensures DisplaySafe(Escape(s))
    decreases |s|
  {
    if s != [] {
      EscapeSafe(s[1..]);
      EscapeCharSafe(s[0]);
      AmpsAreEntitiesConcat(EscapeChar(s[0]), Escape(s[1..]));
    }
  }

  /** `htmlEntities` never fails, and its output contains no raw `<`, `>` or `"`;
      every `&` it contains begins `&amp;`, `&lt;`, `&gt;` or `&quot;`. */
  lemma HtmlEntitiesSafe(s: string)
    ensures DisplaySafe(HtmlEntities(s))
  {
    HtmlEntitiesIsEscape(s);
    EscapeSafe(s);
  }

  /** A string with none of the four significant characters is returned unchanged. */
  lemma HtmlEntitiesIdentity(s: string)
    requires '&' !in s && '<' !in s && '>' !in s && '"' !in s
    ensures HtmlEntities(s) == s
  {
  }

  lemma UnescapeAmp(t: string)
    ensures Unescape("&amp;" + t) == "&" + Unescape(t)
  {
    var r := "&amp;" + t;
    assert r[..5] == "&amp;" && r[5..] == t;
  }

  lemma UnescapeLt(t: string)
    ensures Unescape("&lt;" + t) == "<" + Unescape(t)
  {
    var r := "&lt;" + t;
    assert r[..4] == "&lt;" && r[4..] == t;
    assert !IsPrefix("&amp;", r) by { assert |r| >= 5 ==> r[..5][1] == 'l'; }
  }

  lemma UnescapeGt(t: string)
    ensures Unescape("&gt;" + t) == ">" + Unescape(t)
  {
    var r := "&gt;" + t;
    assert r[..4] == "&gt;" && r[4..] == t;
    assert !IsPrefix("&amp;", r) by { assert |r| >= 5 ==> r[..5][1] == 'g'; }
    assert !IsPrefix("&lt;", r) by { assert r[..4][1] == 'g'; }
  }

  lemma UnescapeQuot(t: string)
    ensures Unescape("&quot;" + t) == "\"" + Unescape(t)
  {
    var r := "&quot;" + t;
    assert r[..6] == "&quot;" && r[6..] == t;
    assert !IsPrefix("&amp;", r) by { assert r[..5][1] == 'q'; }
    assert !IsPrefix("&lt;", r) by { assert r[..4][1] == 'q'; }
    assert !IsPrefix("&gt;", r) by { assert r[..4][1] == 'q'; }
  }

  /** `Unescape` reads back the escape of one character, whatever follows it. */
  lemma UnescapeStep(c: char, t: string)
    ensures Unescape(EscapeChar(c) + t) == [c] + Unescape(t)
  {
    match c
    case '&' => UnescapeAmp(t);
    case '<' => UnescapeLt(t);
    case '>' => UnescapeGt(t);
    case '"' => UnescapeQuot(t);
    case _ =>
      var r := [c] + t;
      assert r[0] == c && r[1..] == t;
  }

  lemma {:induction false} UnescapeEscape(s: string)
    ensures Unescape(Escape(s)) == s
    decreases |s|
  {
    if s != [] {
      UnescapeStep(s[0], Escape(s[1..]));
      UnescapeEscape(s[1..]);
    }
  }

  /** Escaping loses nothing: the original text can be read back from the output. */
  lemma HtmlEntitiesInvertible(s: string)
    ensures Unescape(HtmlEntities(s)) == s
  {
    HtmlEntitiesIsEscape(s);
    UnescapeEscape(s);
  }
}
