/** `escapeHtml`: the text put into card and chip markup. */
module Html {
  import opened Text

  /** Five replace-all passes, `&` first so that the entities of the later passes survive.
      No markup character survives: the escaped text cannot open a tag or close an attribute. */
  function EscapeHtml(s: string): (r: string)
    ensures '<' !in r && '>' !in r && '"' !in r && '\'' !in r
  {
    var amp := ReplaceAll(s, '&', "&amp;");
    var lt := ReplaceAll(amp, '<', "&lt;");
    var gt := ReplaceAll(lt, '>', "&gt;");
    var quot := ReplaceAll(gt, '"', "&quot;");
    ReplaceAllKeepsOut(amp, '<', "&lt;", '<');
    ReplaceAllKeepsOut(lt, '>', "&gt;", '<');
    ReplaceAllKeepsOut(gt, '"', "&quot;", '<');
    ReplaceAllKeepsOut(quot, '\'', "&#039;", '<');
    ReplaceAllKeepsOut(lt, '>', "&gt;", '>');
    ReplaceAllKeepsOut(gt, '"', "&quot;", '>');
    ReplaceAllKeepsOut(quot, '\'', "&#039;", '>');
    ReplaceAllKeepsOut(gt, '"', "&quot;", '"');
    ReplaceAllKeepsOut(quot, '\'', "&#039;", '"');
    ReplaceAllKeepsOut(quot, '\'', "&#039;", '\'');
    ReplaceAll(quot, '\'', "&#039;")
  }

  /** Text without any of the five special characters is left as it is. */
  lemma EscapeHtmlPlainText(s: string)
    requires forall i :: 0 <= i < |s| ==> s[i] !in "&<>\"'"
    ensures EscapeHtml(s) == s
  {
    ReplaceAllAbsent(s, '&', "&amp;");
    ReplaceAllAbsent(s, '<', "&lt;");
    ReplaceAllAbsent(s, '>', "&gt;");
    ReplaceAllAbsent(s, '"', "&quot;");
    ReplaceAllAbsent(s, '\'', "&#039;");
  }

  /** The entity one character becomes. */
  function EscapeChar(c: char): string
  {
    match c
    case '&' => "&amp;"
    case '<' => "&lt;"
    case '>' => "&gt;"
    case '"' => "&quot;"
    case '\'' => "&#039;"
    case _ => [c]
  }

  /** Reference definition: every character escaped on its own. */
  function EscapeEach(s: string): string
  {
    if |s| == 0 then "" else EscapeChar(s[0]) + EscapeEach(s[1..])
  }

  lemma EscapeHtmlConcat(a: string, b: string)
    ensures EscapeHtml(a + b) == EscapeHtml(a) + EscapeHtml(b)
  {
    ReplaceAllConcat(a, b, '&', "&amp;");
    var a1, b1 := ReplaceAll(a, '&', "&amp;"), ReplaceAll(b, '&', "&amp;");
    ReplaceAllConcat(a1, b1, '<', "&lt;");
    var a2, b2 := ReplaceAll(a1, '<', "&lt;"), ReplaceAll(b1, '<', "&lt;");
    ReplaceAllConcat(a2, b2, '>', "&gt;");
    var a3, b3 := ReplaceAll(a2, '>', "&gt;"), ReplaceAll(b2, '>', "&gt;");
    ReplaceAllConcat(a3, b3, '"', "&quot;");
    var a4, b4 := ReplaceAll(a3, '"', "&quot;"), ReplaceAll(b3, '"', "&quot;");
    ReplaceAllConcat(a4, b4, '\'', "&#039;");
  }

  lemma EscapeHtmlChar(c: char)
    ensures EscapeHtml([c]) == EscapeChar(c)
  {
    if c in "&<>\"'" {
      EscapeSpecial(c);
    } else {
      EscapeHtmlPlainText([c]);
    }
  }

  /** Each special character on its own becomes its entity: the pass for that character
      produces the entity, and the passes before and after it leave it alone. */
  lemma EscapeSpecial(c: char)
    requires c in "&<>\"'"
    ensures EscapeHtml([c]) == EscapeChar(c)
  {
    match c
    case '&' =>
      ReplaceAllSingle('&', '&', "&amp;");
      ReplaceAllAbsent("&amp;", '<', "&lt;");
      ReplaceAllAbsent("&amp;", '>', "&gt;");
      ReplaceAllAbsent("&amp;", '"', "&quot;");
      ReplaceAllAbsent("&amp;", '\'', "&#039;");
    case '<' =>
      ReplaceAllAbsent("<", '&', "&amp;");
      ReplaceAllSingle('<', '<', "&lt;");
      ReplaceAllAbsent("&lt;", '>', "&gt;");
      ReplaceAllAbsent("&lt;", '"', "&quot;");
      ReplaceAllAbsent("&lt;", '\'', "&#039;");
    case '>' =>
      ReplaceAllAbsent(">", '&', "&amp;");
      ReplaceAllAbsent(">", '<', "&lt;");
      ReplaceAllSingle('>', '>', "&gt;");
      ReplaceAllAbsent("&gt;", '"', "&quot;");
      ReplaceAllAbsent("&gt;", '\'', "&#039;");
    case '"' =>
      ReplaceAllAbsent("\"", '&', "&amp;");
      ReplaceAllAbsent("\"", '<', "&lt;");
      ReplaceAllAbsent("\"", '>', "&gt;");
      ReplaceAllSingle('"', '"', "&quot;");
      ReplaceAllAbsent("&quot;", '\'', "&#039;");
    case '\'' =>
      ReplaceAllAbsent("'", '&', "&amp;");
      ReplaceAllAbsent("'", '<', "&lt;");
      ReplaceAllAbsent("'", '>', "&gt;");
      ReplaceAllAbsent("'", '"', "&quot;");
      ReplaceAllSingle('\'', '\'', "&#039;");
  }

  /** The chain of replace-all passes escapes each character independently. */
  lemma {:induction false} EscapeHtmlIsPerChar(s: string)
    ensures EscapeHtml(s) == EscapeEach(s)
  {
    if |s| == 0 {
      assert EscapeHtml(s) == "";
    } else {
      assert s == [s[0]] + s[1..];
      EscapeHtmlConcat([s[0]], s[1..]);
      EscapeHtmlChar(s[0]);
      EscapeHtmlIsPerChar(s[1..]);
    }
  }

  /** What a browser reads back from the escaped text: the five entities decoded. */
  function Unescape(s: string): string
    decreases |s|
  {
    if |s| == 0 then ""
    else if StartsWith(s, "&amp;") then "&" + Unescape(s[5..])
    else if StartsWith(s, "&lt;") then "<" + Unescape(s[4..])
    else if StartsWith(s, "&gt;") then ">" + Unescape(s[4..])
    else if StartsWith(s, "&quot;") then "\"" + Unescape(s[6..])
    else if StartsWith(s, "&#039;") then "'" + Unescape(s[6..])
    else [s[0]] + Unescape(s[1..])
  }

  /** Decoding reads an entity followed by anything as that entity's character. */
  lemma UnescapeAmp(rest: string)
    ensures Unescape("&amp;" + rest) == "&" + Unescape(rest)
  {
    var e := "&amp;" + rest;
    assert e[5..] == rest;
    assert StartsWith(e, "&amp;");
  }

  lemma UnescapeLt(rest: string)
    ensures Unescape("&lt;" + rest) == "<" + Unescape(rest)
  {
    var e := "&lt;" + rest;
    assert e[4..] == rest;
    assert !StartsWith(e, "&amp;") by { assert e[1] == 'l'; }
    assert StartsWith(e, "&lt;");
  }

  lemma UnescapeGt(rest: string)
    ensures Unescape("&gt;" + rest) == ">" + Unescape(rest)
  {
    var e := "&gt;" + rest;
    assert e[4..] == rest;
    assert !StartsWith(e, "&amp;") && !StartsWith(e, "&lt;") by { assert e[1] == 'g'; }
    assert StartsWith(e, "&gt;");
  }

  lemma UnescapeQuot(rest: string)
    ensures Unescape("&quot;" + rest) == "\"" + Unescape(rest)
  {
    var e := "&quot;" + rest;
    assert e[6..] == rest;
    assert !StartsWith(e, "&amp;") && !StartsWith(e, "&lt;") && !StartsWith(e, "&gt;") by { assert e[1] == 'q'; }
    assert StartsWith(e, "&quot;");
  }

  lemma UnescapeApos(rest: string)
    ensures Unescape("&#039;" + rest) == "\'" + Unescape(rest)
  {
    var e := "&#039;" + rest;
    assert e[6..] == rest;
    assert !StartsWith(e, "&amp;") && !StartsWith(e, "&lt;") && !StartsWith(e, "&gt;") && !StartsWith(e, "&quot;") by { assert e[1] == '#'; }
    assert StartsWith(e, "&#039;");
  }

  /** Decoding keeps a character that is not the start of an entity. */
  lemma UnescapePlain(c: char, rest: string)
    requires c != '&'
    ensures Unescape([c] + rest) == [c] + Unescape(rest)
  {
    var e := [c] + rest;
    assert e[1..] == rest;
    HeadMismatch(e, "&amp;");
    HeadMismatch(e, "&lt;");
    HeadMismatch(e, "&gt;");
    HeadMismatch(e, "&quot;");
    HeadMismatch(e, "&#039;");
  }

  lemma HeadMismatch(s: string, prefix: string)
    requires |s| > 0 && |prefix| > 0 && s[0] != prefix[0]
    ensures !StartsWith(s, prefix)
  {
  }

  /** Decoding undoes the escape of one character, whatever follows it. */
  lemma UnescapeChar(c: char, rest: string)
    ensures Unescape(EscapeChar(c) + rest) == [c] + Unescape(rest)
  {
    match c
    case '&' => UnescapeAmp(rest);
    case '<' => UnescapeLt(rest);
    case '>' => UnescapeGt(rest);
    case '"' => UnescapeQuot(rest);
    case '\'' => UnescapeApos(rest);
    case _ => UnescapePlain(c, rest);
  }

  lemma {:induction false} UnescapeEach(s: string)
    ensures Unescape(EscapeEach(s)) == s
  {
    if |s| > 0 {
      UnescapeEach(s[1..]);
      UnescapeChar(s[0], EscapeEach(s[1..]));
      assert s == [s[0]] + s[1..];
    }
  }

  /** Escaping loses nothing: decoding the entities gives back the original text. */
  lemma UnescapeEscapeHtml(s: string)
    ensures Unescape(EscapeHtml(s)) == s
  {
    EscapeHtmlIsPerChar(s);
    UnescapeEach(s);
  }
}
