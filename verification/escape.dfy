/**
 * `escapeHtml` of build.js: five global replacements, `&` first, then `<`,
 * `>`, `"` and `'`.  Because `&` is replaced first, the chain acts as a
 * substitution of each character on its own: nothing an earlier step
 * inserts is touched by a later one.
 */
module Escape {
  import opened Text

  /** The entity a single character is written as. */
  function EscapeChar(c: char): string
  {
    match c
    case '&' => "&amp;"
    case '<' => "&lt;"
    case '>' => "&gt;"
    case '"' => "&quot;"
    case '\'' => "&#39;"
    case _ => [c]
  }

  /** The reference definition: every character replaced by its entity. */
  function EscapeEach(s: string): string
  {
    if s == [] then [] else EscapeChar(s[0]) + EscapeEach(s[1..])
  }

  /** `escapeHtml` as build.js writes it: a chain of `replace(/x/g, …)`. */
  function EscapeHtml(s: string): string
  {
    var amp := ReplaceAll(s, "&", "&amp;");
    var lt := ReplaceAll(amp, "<", "&lt;");
    var gt := ReplaceAll(lt, ">", "&gt;");
    var quot := ReplaceAll(gt, "\"", "&quot;");
    ReplaceAll(quot, "'", "&#39;")
  }

  predicate IsSpecial(c: char) {
    c == '&' || c == '<' || c == '>' || c == '"' || c == '\''
  }

  /** No character of the output can open a tag or end an attribute value. */
  predicate MarkupFree(s: string) {
    forall i :: 0 <= i < |s| ==> s[i] != '<' && s[i] != '>' && s[i] != '"' && s[i] != '\''
  }

  /** A global replacement of one character distributes over concatenation. */
  lemma {:induction false} ReplaceCharConcat(a: string, b: string, c: char, q: string)
    ensures ReplaceAll(a + b, [c], q) == ReplaceAll(a, [c], q) + ReplaceAll(b, [c], q)
    decreases |a|
  {
    if a != [] {
      assert (a + b)[1..] == a[1..] + b;
      ReplaceCharConcat(a[1..], b, c, q);
    } else {
      assert a + b == b;
    }
  }

  /** A global replacement of a character the text does not contain changes
      nothing. */
  lemma {:induction false} ReplaceCharAbsent(s: string, c: char, q: string)
    requires forall i :: 0 <= i < |s| ==> s[i] != c
    ensures ReplaceAll(s, [c], q) == s
    decreases |s|
  {
    if s != [] {
      ReplaceCharAbsent(s[1..], c, q);
    }
  }

  /** One character replaced, or kept. */
  lemma ReplaceCharSingle(c: char, d: char, q: string)
    ensures ReplaceAll([c], [d], q) == if c == d then q else [c]
  {
    assert [c][1..] == [];
  }

  /** The five-step chain applied to one character gives its entity. */
  lemma EscapeHtmlChar(c: char)
    ensures EscapeHtml([c]) == EscapeChar(c)
  {
    if c == '&' {
      EscapeHtmlAmp();
    } else if c == '<' {
      EscapeHtmlLt();
    } else if c == '>' {
      EscapeHtmlGt();
    } else if c == '"' {
      EscapeHtmlQuot();
    } else if c == '\'' {
      EscapeHtmlApos();
    } else {
      EscapeHtmlOther(c);
    }
  }

  lemma EscapeHtmlAmp()
    ensures EscapeHtml("&") == "&amp;"
  {
    ReplaceCharSingle('&', '&', "&amp;");
    ReplaceCharAbsent("&amp;", '<', "&lt;");
    ReplaceCharAbsent("&amp;", '>', "&gt;");
    ReplaceCharAbsent("&amp;", '"', "&quot;");
    ReplaceCharAbsent("&amp;", '\'', "&#39;");
  }

  lemma EscapeHtmlLt()
    ensures EscapeHtml("<") == "&lt;"
  {
    ReplaceCharSingle('<', '&', "&amp;");
    ReplaceCharSingle('<', '<', "&lt;");
    ReplaceCharAbsent("&lt;", '>', "&gt;");
    ReplaceCharAbsent("&lt;", '"', "&quot;");
    ReplaceCharAbsent("&lt;", '\'', "&#39;");
  }

  lemma EscapeHtmlGt()
    ensures EscapeHtml(">") == "&gt;"
  {
    ReplaceCharSingle('>', '&', "&amp;");
    ReplaceCharSingle('>', '<', "&lt;");
    ReplaceCharSingle('>', '>', "&gt;");
    ReplaceCharAbsent("&gt;", '"', "&quot;");
    ReplaceCharAbsent("&gt;", '\'', "&#39;");
  }

  lemma EscapeHtmlQuot()
    ensures EscapeHtml("\"") == "&quot;"
  {
    ReplaceCharSingle('"', '&', "&amp;");
    ReplaceCharSingle('"', '<', "&lt;");
    ReplaceCharSingle('"', '>', "&gt;");
    ReplaceCharSingle('"', '"', "&quot;");
    ReplaceCharAbsent("&quot;", '\'', "&#39;");
  }

  lemma EscapeHtmlApos()
    ensures EscapeHtml("'") == "&#39;"
  {
    ReplaceCharSingle('\'', '&', "&amp;");
    ReplaceCharSingle('\'', '<', "&lt;");
    ReplaceCharSingle('\'', '>', "&gt;");
    ReplaceCharSingle('\'', '"', "&quot;");
    ReplaceCharSingle('\'', '\'', "&#39;");
  }

  lemma EscapeHtmlOther(c: char)
    requires !IsSpecial(c)
    ensures EscapeHtml([c]) == [c]
  {
    ReplaceCharSingle(c, '&', "&amp;");
    ReplaceCharSingle(c, '<', "&lt;");
    ReplaceCharSingle(c, '>', "&gt;");
    ReplaceCharSingle(c, '"', "&quot;");
    ReplaceCharSingle(c, '\'', "&#39;");
  }

  /** The chain of replacements distributes over concatenation. */
  lemma EscapeHtmlConcat(a: string, b: string)
    ensures EscapeHtml(a + b) == EscapeHtml(a) + EscapeHtml(b)
  {
    ReplaceCharConcat(a, b, '&', "&amp;");
    var a1, b1 := ReplaceAll(a, "&", "&amp;"), ReplaceAll(b, "&", "&amp;");
    ReplaceCharConcat(a1, b1, '<', "&lt;");
    var a2, b2 := ReplaceAll(a1, "<", "&lt;"), ReplaceAll(b1, "<", "&lt;");
    ReplaceCharConcat(a2, b2, '>', "&gt;");
    var a3, b3 := ReplaceAll(a2, ">", "&gt;"), ReplaceAll(b2, ">", "&gt;");
    ReplaceCharConcat(a3, b3, '"', "&quot;");
    var a4, b4 := ReplaceAll(a3, "\"", "&quot;"), ReplaceAll(b3, "\"", "&quot;");
    ReplaceCharConcat(a4, b4, '\'', "&#39;");
  }

  /** The order of the chain is right: it escapes every character exactly
      once, as the per-character substitution does. */
  lemma {:induction false} EscapeHtmlIsPerChar(s: string)
    ensures EscapeHtml(s) == EscapeEach(s)
    decreases |s|
  {
    if s != [] {
      assert s == [s[0]] + s[1..];
      EscapeHtmlConcat([s[0]], s[1..]);
      EscapeHtmlChar(s[0]);
      EscapeHtmlIsPerChar(s[1..]);
    } else {
      assert EscapeHtml(s) == [];
    }
  }

  /** The escaped text contains no `<`, `>`, `"` or `'`. */
  lemma {:induction false} EscapeEachMarkupFree(s: string)
    ensures MarkupFree(EscapeEach(s))
    decreases |s|
  {
    if s != [] {
      EscapeEachMarkupFree(s[1..]);
      var head := EscapeChar(s[0]);
      assert MarkupFree(head);
      var rest := EscapeEach(s[1..]);
      assert EscapeEach(s) == head + rest;
      assert forall i :: 0 <= i < |head + rest| ==> (head + rest)[i] == if i < |head| then head[i] else rest[i - |head|];
    }
  }

  /** `escapeHtml` output is safe inside element content and inside a
      double-quoted attribute value. */
  lemma EscapeHtmlMarkupFree(s: string)
    ensures MarkupFree(EscapeHtml(s))
  {
    EscapeHtmlIsPerChar(s);
    EscapeEachMarkupFree(s);
  }

  /** Decoding of the five entities `escapeHtml` produces; any other
      character, a lone `&` included, is kept. */
  function Unescape(s: string): string
    decreases |s|
  {
    if s == [] then []
    else if StartsWith(s, "&amp;") then "&" + Unescape(s[5..])
    else if StartsWith(s, "&lt;") then "<" + Unescape(s[4..])
    else if StartsWith(s, "&gt;") then ">" + Unescape(s[4..])
    else if StartsWith(s, "&quot;") then "\"" + Unescape(s[6..])
    else if StartsWith(s, "&#39;") then "'" + Unescape(s[5..])
    else [s[0]] + Unescape(s[1..])
  }

  /** A character other than `&` is never the start of an entity. */
  lemma UnescapePlainHead(e: string)
    requires e != [] && e[0] != '&'
    ensures Unescape(e) == [e[0]] + Unescape(e[1..])
  {
    NotStartsWith(e, "&amp;");
    NotStartsWith(e, "&lt;");
    NotStartsWith(e, "&gt;");
    NotStartsWith(e, "&quot;");
    NotStartsWith(e, "&#39;");
  }

  /** Decoding after one character's entity yields that character first. */
  lemma UnescapeEntity(c: char, rest: string)
    ensures Unescape(EscapeChar(c) + rest) == [c] + Unescape(rest)
  {
    if c == '&' {
      UnescapeAmp(rest);
    } else if c == '<' {
      UnescapeLt(rest);
    } else if c == '>' {
      UnescapeGt(rest);
    } else if c == '"' {
      UnescapeQuot(rest);
    } else if c == '\'' {
      UnescapeApos(rest);
    } else {
      assert EscapeChar(c) == [c];
      ConsTail(c, rest);
      UnescapePlainHead([c] + rest);
    }
  }

  lemma UnescapeAmp(rest: string)
    ensures Unescape("&amp;" + rest) == "&" + Unescape(rest)
  {
    EntityHead("&amp;", rest);
  }

  lemma UnescapeLt(rest: string)
    ensures Unescape("&lt;" + rest) == "<" + Unescape(rest)
  {
    var e := "&lt;" + rest;
    EntityHead("&lt;", rest);
    DiffersAt(e, "&amp;", 1);
  }

  lemma UnescapeGt(rest: string)
    ensures Unescape("&gt;" + rest) == ">" + Unescape(rest)
  {
    var e := "&gt;" + rest;
    EntityHead("&gt;", rest);
    DiffersAt(e, "&amp;", 1);
    DiffersAt(e, "&lt;", 1);
  }

  lemma UnescapeQuot(rest: string)
    ensures Unescape("&quot;" + rest) == "\"" + Unescape(rest)
  {
    var e := "&quot;" + rest;
    EntityHead("&quot;", rest);
    DiffersAt(e, "&amp;", 1);
    DiffersAt(e, "&lt;", 1);
    DiffersAt(e, "&gt;", 1);
  }

  lemma UnescapeApos(rest: string)
    ensures Unescape("&#39;" + rest) == "'" + Unescape(rest)
  {
    var e := "&#39;" + rest;
    EntityHead("&#39;", rest);
    DiffersAt(e, "&amp;", 1);
    DiffersAt(e, "&lt;", 1);
    DiffersAt(e, "&gt;", 1);
    DiffersAt(e, "&quot;", 1);
  }

  /** An entity in front of the rest: what the scan sees. */
  lemma EntityHead(ent: string, rest: string)
    requires ent != []
    ensures StartsWith(ent + rest, ent) && (ent + rest)[|ent|..] == rest
    ensures (ent + rest)[0] == ent[0] && (|ent| > 1 ==> (ent + rest)[1] == ent[1])
  {
    assert (ent + rest)[..|ent|] == ent;
  }

  /** Escaping loses nothing and never escapes twice: decoding the five
      entities gives back the original text. */
  lemma {:induction false} UnescapeEscapeHtml(s: string)
    ensures Unescape(EscapeHtml(s)) == s
    decreases |s|
  {
    EscapeHtmlIsPerChar(s);
    if s != [] {
      UnescapeEntity(s[0], EscapeEach(s[1..]));
      UnescapeEscapeHtml(s[1..]);
      EscapeHtmlIsPerChar(s[1..]);
    }
  }

  /** Text without any of the five characters passes through unchanged. */
  lemma {:induction false} EscapeHtmlPlain(s: string)
    requires forall i :: 0 <= i < |s| ==> !IsSpecial(s[i])
    ensures EscapeHtml(s) == s
    decreases |s|
  {
    EscapeHtmlIsPerChar(s);
    if s != [] {
      EscapeHtmlPlain(s[1..]);
      EscapeHtmlIsPerChar(s[1..]);
    }
  }
}
