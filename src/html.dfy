/**
 * Go's `html.EscapeString`, which replaces exactly five characters by
 * character references, and the decoding of those five references that
 * undoes it.
 */
module Html {
  import opened Strings

  /** The characters `EscapeString` replaces. */
  predicate IsSpecial(c: char) {
    c == '<' || c == '>' || c == '&' || c == '\'' || c == '"'
  }

  function EscapeChar(c: char): (r: string)
    ensures |r| > 0
    ensures IsSpecial(c) ==> r[0] == '&'
    ensures !IsSpecial(c) ==> r == [c]
  {
    match c
    case '<' => "&lt;"
    case '>' => "&gt;"
    case '&' => "&amp;"
    case '\'' => "&#39;"
    case '"' => "&#34;"
    case _ => [c]
  }

  /**
   * `html.EscapeString`: no `<`, `>`, `'` or `"` survives, and a string
   * without any of the five special characters is returned unchanged.
   */
  function EscapeString(s: string): (r: string)
    ensures forall k :: 0 <= k < |r| ==> r[k] != '<' && r[k] != '>' && r[k] != '"' && r[k] != '\''
    ensures (forall k :: 0 <= k < |s| ==> !IsSpecial(s[k])) ==> r == s
    ensures |r| >= |s|
  {
    if |s| == 0 then ""
    else EscapeChar(s[0]) + EscapeString(s[1..])
  }

  /** Decodes the five character references `EscapeString` emits; anything else passes through. */
  function UnescapeString(s: string): string
    decreases |s|
  {
    if |s| == 0 then ""
    else if HasPrefix(s, "&lt;") then "<" + UnescapeString(s[4..])
    else if HasPrefix(s, "&gt;") then ">" + UnescapeString(s[4..])
    else if HasPrefix(s, "&amp;") then "&" + UnescapeString(s[5..])
    else if HasPrefix(s, "&#39;") then "'" + UnescapeString(s[5..])
    else if HasPrefix(s, "&#34;") then "\"" + UnescapeString(s[5..])
    else [s[0]] + UnescapeString(s[1..])
  }

  /** Each of the five references decodes to its character, and decoding carries on after it. */
  lemma UnescapeLt(rest: string)
    ensures UnescapeString("&lt;" + rest) == "<" + UnescapeString(rest)
  {
    var e := "&lt;" + rest;
    assert e[..4] == "&lt;" && e[4..] == rest;
  }

  lemma UnescapeGt(rest: string)
    ensures UnescapeString("&gt;" + rest) == ">" + UnescapeString(rest)
  {
    var e := "&gt;" + rest;
    assert e[..4] == "&gt;" && e[4..] == rest;
    assert e[..4][1] != "&lt;"[1];
  }

  lemma UnescapeAmp(rest: string)
    ensures UnescapeString("&amp;" + rest) == "&" + UnescapeString(rest)
  {
    var e := "&amp;" + rest;
    assert e[..5] == "&amp;" && e[5..] == rest;
    assert e[..4][1] == 'a';
  }

  lemma UnescapeNumeric(c: char, rest: string)
    requires c == '\'' || c == '"'
    ensures UnescapeString(EscapeChar(c) + rest) == [c] + UnescapeString(rest)
  {
    var e := EscapeChar(c) + rest;
    assert e[..5] == EscapeChar(c) && e[5..] == rest;
    assert e[..4][1] == '#' && e[..5][2] == '3';
    assert e[..5][3] == if c == '\'' then '9' else '4';
  }

  lemma UnescapePlain(c: char, rest: string)
    requires !IsSpecial(c)
    ensures UnescapeString([c] + rest) == [c] + UnescapeString(rest)
  {
    var e := [c] + rest;
    assert e[0] == c && e[1..] == rest;
    NotReference(e, "&lt;");
    NotReference(e, "&gt;");
    NotReference(e, "&amp;");
    NotReference(e, "&#39;");
    NotReference(e, "&#34;");
  }

  /** Text not starting with `&` starts with no character reference. */
  lemma NotReference(e: string, r: string)
    requires |e| > 0 && e[0] != '&' && |r| > 0 && r[0] == '&'
    ensures !HasPrefix(e, r)
  {
    if |r| <= |e| {
      assert e[..|r|][0] == e[0];
    }
  }

  lemma UnescapeAfterEscapeChar(c: char, rest: string)
    ensures UnescapeString(EscapeChar(c) + rest) == [c] + UnescapeString(rest)
  {
    match c
    case '<' => UnescapeLt(rest);
    case '>' => UnescapeGt(rest);
    case '&' => UnescapeAmp(rest);
    case '\'' => UnescapeNumeric(c, rest);
    case '"' => UnescapeNumeric(c, rest);
    case _ => UnescapePlain(c, rest);
  }

  /** Escaping loses nothing: decoding the five references gives the original text back. */
  lemma {:induction false} EscapeRoundTrip(s: string)
    ensures UnescapeString(EscapeString(s)) == s
  {
    if |s| > 0 {
      UnescapeAfterEscapeChar(s[0], EscapeString(s[1..]));
      EscapeRoundTrip(s[1..]);
    }
  }

  /** Escaping is injective: distinct texts never render the same. */
  lemma EscapeInjective(s: string, t: string)
    ensures EscapeString(s) == EscapeString(t) <==> s == t
  {
    EscapeRoundTrip(s);
    EscapeRoundTrip(t);
  }
}
