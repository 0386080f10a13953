/**
 * The static article page of build.js: `formatDate`, `buildArticleHtml`
 * and, from `main`, the rule that names the generated file after the slug.
 *
 * The date parser (`new Date(iso)`, with an invalid date as `None`), the
 * `pt-BR` long-date formatter, the current year and `Date.now()` are
 * parameters; so is the optional `marked` parser.
 */
module ArticlePage {
  import opened Text
  import opened Escape
  import opened Articles
  import Markdown
  import Description

  const DefaultTitle := "Artigo sem título"
  const DefaultAuthor := "Autor desconhecido"
  const MetaSeparator := " • "

  /** `formatDate`: the empty string for no date, the raw text for a date
      the parser rejects, the formatted date otherwise. */
  function FormatDate(iso: string, parse: string -> Option<int>, format: int -> string): string
  {
    if iso == "" then ""
    else match parse(iso)
      case None => iso
      case Some(instant) => format(instant)
  }

  /** The escaped title, or the default when the article has none. */
  function TitleText(a: Article): string
  {
    EscapeHtml(if a.title != "" then a.title else DefaultTitle)
  }

  function DateMarkup(iso: string, humanDate: string): string
  {
    if iso == "" then ""
    else "<time class=\"article-date\" datetime=\"" + EscapeHtml(iso) + "\">" + EscapeHtml(humanDate) + "</time>"
  }

  const AuthorOpen := "<span class=\"article-author\">por "
  const AuthorClose := "</span>"

  function AuthorMarkup(author: string): string
  {
    if author == "" then "" else AuthorOpen + EscapeHtml(author) + AuthorClose
  }

  /** `[dateMarkup, authorMarkup].filter(Boolean).join(' • ')`. */
  function MetaLine(dateMarkup: string, authorMarkup: string): string
  {
    Join(Filter(NonEmpty, [dateMarkup, authorMarkup]), MetaSeparator)
  }

  const TagOpen := "<li class=\"article-tag\">"
  const TagClose := "</li>"

  function TagItem(tag: string): string
  {
    TagOpen + EscapeHtml(tag) + TagClose
  }

  /** The list items of the tags, in order, with nothing between them. */
  function TagItems(tags: seq<string>): string
  {
    Join(Map(TagItem, tags), "")
  }

  function TagsMarkup(tags: seq<string>): string
  {
    if tags == [] then ""
    else "<ul class=\"article-tags\">" + TagItems(tags) + "</ul>"
  }

  const DocumentStart := "<!DOCTYPE html>\n<html lang=\"pt-BR\">\n<head>\n  <meta charset=\"UTF-8\" />\n  <meta name=\"viewport\" content=\"width=device-width, initial-scale=1.0\" />\n  "
  const DescriptionName := "\n  <meta name=\"description\" "
  const HeadEnd := "\n  <link rel=\"stylesheet\" href=\"../css/blog-base.css\" />\n  <link rel=\"stylesheet\" href=\"../css/article.css\" />\n</head>\n"
  const BodyStart := "<body>\n  <header class=\"site-header\">\n    <nav class=\"site-nav\">\n      <a class=\"back-link\" href=\"../blog.html\">Voltar ao Blog</a>\n    </nav>\n  </header>\n  <main class=\"article-main\">\n    <article class=\"article-content-wrapper\">\n      "
  const Indent := "\n      "
  const FooterOpen := "\n    </article>\n  </main>\n  <footer class=\"site-footer\">\n    <p class=\"footer-copy\">&copy; "
  const DocumentEnd := " BlogTech. Todos os direitos reservados.</p>\n  </footer>\n</body>\n</html>"

  function TitleElement(title: string): string { "<title>" + title + "</title>" }
  function DescriptionAttr(description: string): string { "content=\"" + description + "\" />" }
  function HeadingElement(title: string): string { "<h1 class=\"article-title\">" + title + "</h1>" }
  function MetaDiv(meta: string): string { "<div class=\"article-meta\">" + meta + "</div>" }
  function ContentDiv(contentHtml: string): string { "<div class=\"article-content\">" + contentHtml + "</div>" }

  /** The `<head>` of the page. */
  function Head(title: string, description: string): string
  {
    DocumentStart + TitleElement(title) + DescriptionName + DescriptionAttr(description) + HeadEnd
  }

  /** The `<body>` of the page. */
  function Body(title: string, meta: string, contentHtml: string, tags: string, year: int): string
  {
    BodyStart + HeadingElement(title) + MetaAndContent(meta, contentHtml, tags, year)
  }

  function MetaAndContent(meta: string, contentHtml: string, tags: string, year: int): string
  {
    Indent + MetaDiv(meta) + ContentAndFooter(contentHtml, tags, year)
  }

  function ContentAndFooter(contentHtml: string, tags: string, year: int): string
  {
    Indent + ContentDiv(contentHtml) + Footer(tags, year)
  }

  function Footer(tags: string, year: int): string
  {
    Indent + tags + FooterOpen + IntToString(year) + DocumentEnd
  }

  /** `buildArticleHtml`; `year` is `new Date().getFullYear()`. */
  function BuildArticleHtml(a: Article, contentHtml: string, metaDescription: string,
                            parse: string -> Option<int>, format: int -> string, year: int): string
  {
    var title := TitleText(a);
    var humanDate := FormatDate(a.date, parse, format);
    var meta := MetaLine(DateMarkup(a.date, humanDate), AuthorMarkup(a.author));
    Head(title, EscapeHtml(metaDescription)) + Body(title, meta, contentHtml, TagsMarkup(a.tags), year)
  }

  // ----------------------------------------------------------------------
  // Properties of the document.
  // ----------------------------------------------------------------------

  lemma HeadParts(title: string, description: string)
    ensures Contains(Head(title, description), TitleElement(title))
    ensures Contains(Head(title, description), DescriptionAttr(description))
  {
    var t := TitleElement(title);
    var d := DescriptionAttr(description);
    ContainsMiddle(DocumentStart, t, DescriptionName);
    ContainsExtend(DocumentStart + t + DescriptionName, d, t);
    ContainsExtend(DocumentStart + t + DescriptionName + d, HeadEnd, t);
    ContainsMiddle(DocumentStart + t + DescriptionName, d, HeadEnd);
  }

  lemma BodyParts(title: string, meta: string, contentHtml: string, tags: string, year: int)
    ensures Contains(Body(title, meta, contentHtml, tags, year), HeadingElement(title))
    ensures Contains(Body(title, meta, contentHtml, tags, year), MetaDiv(meta))
    ensures Contains(Body(title, meta, contentHtml, tags, year), ContentDiv(contentHtml))
  {
    var rest := MetaAndContent(meta, contentHtml, tags, year);
    var tail := ContentAndFooter(contentHtml, tags, year);
    ContainsMiddle(BodyStart, HeadingElement(title), rest);
    ContainsMiddle(Indent, MetaDiv(meta), tail);
    ContainsMiddle(Indent, ContentDiv(contentHtml), Footer(tags, year));
    ContainsExtend(Indent + MetaDiv(meta), tail, ContentDiv(contentHtml));
    ContainsExtend(BodyStart + HeadingElement(title), rest, MetaDiv(meta));
    ContainsExtend(BodyStart + HeadingElement(title), rest, ContentDiv(contentHtml));
  }

  /** The title appears escaped in `<title>` and in the heading, the
      description escaped in its attribute, the meta line in its `<div>`,
      and the article body verbatim in its `<div>`. */
  lemma DocumentParts(a: Article, contentHtml: string, metaDescription: string,
                      parse: string -> Option<int>, format: int -> string, year: int)
    ensures var doc := BuildArticleHtml(a, contentHtml, metaDescription, parse, format, year);
      && Contains(doc, TitleElement(TitleText(a)))
      && Contains(doc, HeadingElement(TitleText(a)))
      && Contains(doc, DescriptionAttr(EscapeHtml(metaDescription)))
      && Contains(doc, MetaDiv(MetaLine(DateMarkup(a.date, FormatDate(a.date, parse, format)), AuthorMarkup(a.author))))
      && Contains(doc, ContentDiv(contentHtml))
  {
    var title := TitleText(a);
    var meta := MetaLine(DateMarkup(a.date, FormatDate(a.date, parse, format)), AuthorMarkup(a.author));
    var head := Head(title, EscapeHtml(metaDescription));
    var body := Body(title, meta, contentHtml, TagsMarkup(a.tags), year);
    HeadParts(title, EscapeHtml(metaDescription));
    BodyParts(title, meta, contentHtml, TagsMarkup(a.tags), year);
    ContainsExtend(head, body, TitleElement(title));
    ContainsExtend(head, body, DescriptionAttr(EscapeHtml(metaDescription)));
    ContainsExtend(head, body, HeadingElement(title));
    ContainsExtend(head, body, MetaDiv(meta));
    ContainsExtend(head, body, ContentDiv(contentHtml));
  }

  /** The title can neither open a tag nor leave its context, and decoding
      its entities gives back the article's title, or the default. */
  lemma TitleTextDecodes(a: Article)
    ensures MarkupFree(TitleText(a))
    ensures Unescape(TitleText(a)) == if a.title != "" then a.title else DefaultTitle
  {
    var t := if a.title != "" then a.title else DefaultTitle;
    EscapeHtmlMarkupFree(t);
    UnescapeEscapeHtml(t);
  }

  /** The `<time>` element is present exactly when the article has a date;
      a date the parser rejects is shown as written. */
  lemma DateMarkupCases(iso: string, parse: string -> Option<int>, format: int -> string)
    ensures (DateMarkup(iso, FormatDate(iso, parse, format)) == "") <==> iso == ""
    ensures iso != "" && parse(iso).None? ==>
      DateMarkup(iso, FormatDate(iso, parse, format))
        == "<time class=\"article-date\" datetime=\"" + EscapeHtml(iso) + "\">" + EscapeHtml(iso) + "</time>"
    ensures iso != "" && parse(iso).Some? ==>
      DateMarkup(iso, FormatDate(iso, parse, format))
        == "<time class=\"article-date\" datetime=\"" + EscapeHtml(iso) + "\">" + EscapeHtml(format(parse(iso).value)) + "</time>"
  {
  }

  /** The author `<span>` is present exactly when the article names an
      author; the default author is never shown in the meta line. */
  lemma AuthorMarkupCases(author: string)
    ensures (AuthorMarkup(author) == "") <==> author == ""
    ensures author != "" ==> Unescape(AuthorMarkup(author)[|AuthorOpen|..|AuthorMarkup(author)| - |AuthorClose|]) == author
  {
    if author != "" {
      var m := AuthorMarkup(author);
      assert m[|AuthorOpen|..|m| - |AuthorClose|] == EscapeHtml(author);
      UnescapeEscapeHtml(author);
    }
  }

  /** The meta line: the present parts, in order, separated by ` • `. */
  lemma MetaLineCases(d: string, au: string)
    ensures d != "" && au != "" ==> MetaLine(d, au) == d + MetaSeparator + au
    ensures d != "" && au == "" ==> MetaLine(d, au) == d
    ensures d == "" && au != "" ==> MetaLine(d, au) == au
    ensures d == "" && au == "" ==> MetaLine(d, au) == ""
  {
    var rest := Filter(NonEmpty, [au]);
    assert [d, au][1..] == [au];
    assert [au][1..] == [];
    if d != "" && au != "" {
      assert Filter(NonEmpty, [d, au]) == [d, au];
      assert Join([d, au], MetaSeparator) == d + MetaSeparator + Join([au], MetaSeparator);
    }
  }

  /** Joining with the empty separator is concatenation. */
  lemma TagItemsCons(tags: seq<string>)
    requires tags != []
    ensures TagItems(tags) == TagItem(tags[0]) + TagItems(tags[1..])
  {
    assert Map(TagItem, tags)[1..] == Map(TagItem, tags[1..]);
    if |tags| == 1 {
      assert tags[1..] == [];
    }
  }

  /** The `<ul>` is present exactly when there are tags. */
  lemma TagsMarkupEmptyIff(tags: seq<string>)
    ensures TagsMarkup(tags) == "" <==> tags == []
  {
  }

  /** Reads the tags back from the list items, undoing the escaping. */
  function DecodeTagItems(s: string): Option<seq<string>>
    decreases |s|
  {
    if s == [] then Some([])
    else if !StartsWith(s, TagOpen) then None
    else
      var body := s[|TagOpen|..];
      var k := FirstLt(body, 0);
      if k == |body| || !StartsWith(body[k..], TagClose) then None
      else match DecodeTagItems(body[k + |TagClose|..])
        case None => None
        case Some(rest) => Some([Unescape(body[..k])] + rest)
  }

  /** One list item is read back as its tag, before the items after it. */
  lemma DecodeTagItem(tag: string, rest: string)
    ensures DecodeTagItems(TagItem(tag) + rest)
      == match DecodeTagItems(rest) case None => None case Some(ts) => Some([tag] + ts)
  {
    var e := EscapeHtml(tag);
    EscapeHtmlMarkupFree(tag);
    assert NoLt(e);
    DecodeEscapedItem(e, rest);
    UnescapeEscapeHtml(tag);
  }

  /** An item whose text holds no `<` ends at the first `</li>`. */
  lemma DecodeEscapedItem(e: string, rest: string)
    requires NoLt(e)
    ensures DecodeTagItems(TagOpen + e + TagClose + rest)
      == match DecodeTagItems(rest) case None => None case Some(ts) => Some([Unescape(e)] + ts)
  {
    var s := TagOpen + e + TagClose + rest;
    var body := e + (TagClose + rest);
    assert s == TagOpen + body by {
      Assoc(TagOpen + e, TagClose, rest);
      Assoc(TagOpen, e, TagClose + rest);
    }
    assert StartsWith(s, TagOpen) && s[|TagOpen|..] == body;
    FirstLtOf(e, TagClose + rest);
    assert body[..|e|] == e;
    assert body[|e|..] == TagClose + rest;
    assert body[|e| + |TagClose|..] == rest;
  }


  /** The list items of the tags give back exactly the tags, in order:
      nothing is lost, merged or reordered, and no tag text can close its
      `<li>` early. */
  lemma {:induction false} DecodeTagItemsRoundTrip(tags: seq<string>)
    ensures DecodeTagItems(TagItems(tags)) == Some(tags)
    decreases |tags|
  {
    if tags == [] {
      assert TagItems(tags) == "";
    } else {
      DecodeTagItemsRoundTrip(tags[1..]);
      DecodeTagItemsCons(tags);
    }
  }

  /** One more tag in front of a list that reads back. */
  lemma DecodeTagItemsCons(tags: seq<string>)
    requires tags != [] && DecodeTagItems(TagItems(tags[1..])) == Some(tags[1..])
    ensures DecodeTagItems(TagItems(tags)) == Some(tags)
  {
    TagItemsCons(tags);
    DecodeTagItem(tags[0], TagItems(tags[1..]));
    assert [tags[0]] + tags[1..] == tags;
  }

  // ----------------------------------------------------------------------
  // The slug and the generated file (lines 177-191 of `main`).
  // ----------------------------------------------------------------------

  datatype Generated = Generated(fileName: string, html: string)

  datatype Outcome = Ok(page: Generated) | Failed(message: string)

  /** `(article.slug || \`artigo-${article.id || Date.now()}\`).trim()`. */
  function Slug(a: Article, now: nat): string
  {
    var fallbackId := if a.id.Some? && a.id.value != 0 then a.id.value else now;
    Trim(if a.slug != "" then a.slug else "artigo-" + IntToString(fallbackId))
  }

  /** One article of `main`: the slug checked, the content rendered, its
      description taken, the page built and named after the slug. */
  function GeneratePost(a: Article, marked: Option<string -> string>, parse: string -> Option<int>,
                        format: int -> string, year: int, now: nat): Outcome
  {
    var slug := Slug(a, now);
    if slug == [] then
      Failed("Artigo com id " + IdText(a.id) + " não possui slug válido.")
    else Ok(Generated(slug + ".html", Page(a, marked, parse, format, year)))
  }

  /** The page of one article: its content rendered, the description taken
      from the rendered content. */
  function Page(a: Article, marked: Option<string -> string>, parse: string -> Option<int>,
                format: int -> string, year: int): string
  {
    var articleHtml := Markdown.RenderContent(a.content, marked);
    BuildArticleHtml(a, articleHtml, Description.CreateMetaDescription(articleHtml), parse, format, year)
  }

  /** The outcome in terms of the slug and the page. */
  lemma GeneratePostOf(a: Article, marked: Option<string -> string>, parse: string -> Option<int>,
                       format: int -> string, year: int, now: nat)
    ensures var o := GeneratePost(a, marked, parse, format, year, now);
      && (o.Failed? <==> Slug(a, now) == [])
      && (o.Ok? ==> o.page.fileName == Slug(a, now) + ".html" && o.page.html == Page(a, marked, parse, format, year))
  {
  }

  /** An article fails exactly when its slug is present but blank: the
      fallback `artigo-…` is never blank. */
  lemma GeneratePostFailsIff(a: Article, marked: Option<string -> string>, parse: string -> Option<int>,
                             format: int -> string, year: int, now: nat)
    ensures GeneratePost(a, marked, parse, format, year, now).Failed? <==> a.slug != "" && AllWhite(a.slug)
  {
    GeneratePostOf(a, marked, parse, format, year, now);
    SlugEmptyIff(a, now);
  }

  lemma SlugEmptyIff(a: Article, now: nat)
    ensures Slug(a, now) == [] <==> a.slug != "" && AllWhite(a.slug)
  {
    var fallbackId := if a.id.Some? && a.id.value != 0 then a.id.value else now;
    var fallback := "artigo-" + IntToString(fallbackId);
    if a.slug != "" {
      TrimEmptyIff(a.slug);
    } else {
      TrimEmptyIff(fallback);
      assert !IsWhite(fallback[0]);
    }
  }

  /** A generated file is named after the trimmed slug, or after the id (or
      the clock when the id is missing or zero) when there is no slug. */
  lemma GeneratePostFile(a: Article, marked: Option<string -> string>, parse: string -> Option<int>,
                         format: int -> string, year: int, now: nat)
    requires GeneratePost(a, marked, parse, format, year, now).Ok?
    ensures var name := GeneratePost(a, marked, parse, format, year, now).page.fileName;
      && EndsWith(name, ".html")
      && (a.slug != "" ==> name == Trim(a.slug) + ".html")
      && (a.slug == "" && a.id.Some? && a.id.value != 0 ==> name == "artigo-" + IntToString(a.id.value) + ".html")
      && (a.slug == "" && (a.id.None? || a.id.value == 0) ==> name == "artigo-" + IntToString(now) + ".html")
  {
    GeneratePostOf(a, marked, parse, format, year, now);
    SlugFile(a, now);
  }

  lemma SlugFile(a: Article, now: nat)
    ensures var name := Slug(a, now) + ".html";
      && EndsWith(name, ".html")
      && (a.slug != "" ==> name == Trim(a.slug) + ".html")
      && (a.slug == "" && a.id.Some? && a.id.value != 0 ==> name == "artigo-" + IntToString(a.id.value) + ".html")
      && (a.slug == "" && (a.id.None? || a.id.value == 0) ==> name == "artigo-" + IntToString(now) + ".html")
  {
    EndsWithSuffix(Slug(a, now), ".html");
    SlugOf(a, now);
  }

  /** The slug is the trimmed `slug` field, else `artigo-` and the id (the
      clock when the id is missing or zero), which needs no trimming. */
  lemma SlugOf(a: Article, now: nat)
    ensures a.slug != "" ==> Slug(a, now) == Trim(a.slug)
    ensures a.slug == "" && a.id.Some? && a.id.value != 0 ==> Slug(a, now) == "artigo-" + IntToString(a.id.value)
    ensures a.slug == "" && (a.id.None? || a.id.value == 0) ==> Slug(a, now) == "artigo-" + IntToString(now)
  {
    if a.slug == "" {
      if a.id.Some? && a.id.value != 0 {
        FallbackSlug(a, now, a.id.value);
      } else {
        FallbackSlug(a, now, now);
      }
    }
  }

  lemma FallbackSlug(a: Article, now: nat, n: int)
    requires a.slug == ""
    requires n == if a.id.Some? && a.id.value != 0 then a.id.value else now
    ensures Slug(a, now) == "artigo-" + IntToString(n)
  {
    var fallback := "artigo-" + IntToString(n);
    assert Slug(a, now) == Trim(fallback) by {
      var fallbackId := if a.id.Some? && a.id.value != 0 then a.id.value else now;
      assert fallbackId == n;
    }
    FallbackTrimmed(n);
  }



  lemma EndsWithSuffix(x: string, y: string)
    ensures EndsWith(x + y, y)
  {
    assert (x + y)[|x|..] == y;
  }

  lemma FallbackTrimmed(n: int)
    ensures Trim("artigo-" + IntToString(n)) == "artigo-" + IntToString(n)
  {
    var fallback := "artigo-" + IntToString(n);
    assert !IsWhite(fallback[0]);
    assert !IsWhite(fallback[|fallback| - 1]) by {
      assert fallback[|fallback| - 1] == IntToString(n)[|IntToString(n)| - 1];
      LastDigit(n);
    }
    TrimIdentity(fallback);
  }

  /** The generated page holds the rendered content verbatim in its content
      `<div>`, and its description, escaped, in the description tag. */
  lemma GeneratePostContent(a: Article, marked: Option<string -> string>, parse: string -> Option<int>,
                            format: int -> string, year: int, now: nat)
    requires GeneratePost(a, marked, parse, format, year, now).Ok?
    ensures var html := GeneratePost(a, marked, parse, format, year, now).page.html;
      var articleHtml := Markdown.RenderContent(a.content, marked);
      && Contains(html, ContentDiv(articleHtml))
      && Contains(html, DescriptionAttr(EscapeHtml(Description.CreateMetaDescription(articleHtml))))
  {
    GeneratePostOf(a, marked, parse, format, year, now);
    var articleHtml := Markdown.RenderContent(a.content, marked);
    DocumentParts(a, articleHtml, Description.CreateMetaDescription(articleHtml), parse, format, year);
  }

  lemma LastDigit(n: int)
    ensures var s := IntToString(n); '0' <= s[|s| - 1] <= '9'
  {
    var d := NatToDecimal(if n < 0 then -n else n);
    assert d[|d| - 1] == IntToString(n)[|IntToString(n)| - 1];
  }
}
