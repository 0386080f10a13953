/**
 * The article page of js/post.js: the responsive cover image, the tag and
 * reference lists, the wrapping of tables, the lookup of the requested
 * article and the `<meta>` tags the page sets in the document head.
 */
module PostPage {
  import opened Text
  import opened Articles
  import Uri
  import Listing

  // ----------------------------------------------------------------------
  // `buildResponsiveImage`.
  // ----------------------------------------------------------------------

  const DefaultAlt := "Capa do artigo"
  const DefaultWidth := 800
  const DefaultHeight := 450

  /** The base path of the image files, relative to the page. */
  function BaseUrl(basePath: string): (r: string)
    ensures StartsWith(r, "./")
  {
    if StartsWith(basePath, "./") then basePath else "./" + basePath
  }

  /** A path that starts with `./` is kept, any other gets `./` in front;
      so the rule is idempotent. */
  lemma BaseUrlRules(basePath: string)
    ensures BaseUrl(basePath) == basePath <==> StartsWith(basePath, "./")
    ensures !StartsWith(basePath, "./") ==> BaseUrl(basePath) == "./" + basePath
    ensures BaseUrl(BaseUrl(basePath)) == BaseUrl(basePath)
  {
  }

  const FigureOpen := "\n      <figure class=\"article-media\">\n        <picture>\n          "
  const FigureClose := "\n        </picture>\n      </figure>\n    "
  const SourceIndent := "\n          "
  const AttrIndent := "\n               "
  const ImgOpen := "<img class=\"article-cover\""
  const ImgClose := "\n               loading=\"eager\"\n               fetchpriority=\"high\"\n               decoding=\"async\" />"

  /** A `<source>` offering the 400 and 800 pixel files of one format. */
  function Source(mime: string, ext: string, base: string): string
  {
    "<source type=\"image/" + mime + "\"\n                  srcset=\""
    + base + "-400." + ext + " 400w, " + base + "-800." + ext
    + " 800w\"\n                  sizes=\"(max-width: 768px) 100vw, 800px\">"
  }

  function SrcAttr(base: string): string { "src=\"" + base + "-800.jpg\"" }

  function AltText(alt: string): string { if alt != "" then alt else DefaultAlt }

  function AltAttr(alt: string): string { "alt=\"" + AltText(alt) + "\"" }

  function SizeAttrs(width: int, height: int): string
  {
    "width=\"" + IntToString(width) + "\" height=\"" + IntToString(height) + "\""
  }

  function Sources(base: string): string
  {
    Source("webp", "webp", base) + SourceIndent + Source("jpeg", "jpg", base)
  }

  function ImgSize(width: int, height: int): string
  {
    AttrIndent + SizeAttrs(width, height) + ImgClose
  }

  function ImgRest(alt: string, width: int, height: int): string
  {
    AttrIndent + AltAttr(alt) + ImgSize(width, height)
  }

  function Img(base: string, alt: string, width: int, height: int): string
  {
    ImgOpen + AttrIndent + SrcAttr(base) + ImgRest(alt, width, height)
  }

  function Picture(base: string, alt: string, width: int, height: int): string
  {
    Sources(base) + SourceIndent + Img(base, alt, width, height)
  }

  function BuildResponsiveImage(basePath: string, alt: string, width: int, height: int): string
  {
    FigureOpen + Picture(BaseUrl(basePath), alt, width, height) + FigureClose
  }

  /** The cover of an article: its title as the alternative text and its
      dimensions, 800 by 450 where a dimension is missing. */
  function Cover(a: Article): string
  {
    BuildResponsiveImage(a.image, a.title, Dimension(a.coverW, DefaultWidth), Dimension(a.coverH, DefaultHeight))
  }

  /** `value || fallback` for a dimension. */
  function Dimension(value: int, fallback: int): int
  {
    if value != 0 then value else fallback
  }

  /** The `<img>` carries the 800 pixel JPEG, the alternative text and
      the dimensions. */
  lemma ImgParts(base: string, alt: string, width: int, height: int)
    ensures var img := Img(base, alt, width, height);
      && Contains(img, SrcAttr(base))
      && Contains(img, AltAttr(alt))
      && Contains(img, SizeAttrs(width, height))
  {
    var size := ImgSize(width, height);
    var rest := ImgRest(alt, width, height);
    ContainsMiddle(AttrIndent, SizeAttrs(width, height), ImgClose);
    ContainsMiddle(AttrIndent, AltAttr(alt), size);
    ContainsExtend(AttrIndent + AltAttr(alt), size, SizeAttrs(width, height));
    ContainsMiddle(ImgOpen + AttrIndent, SrcAttr(base), rest);
    ContainsExtend(ImgOpen + AttrIndent + SrcAttr(base), rest, AltAttr(alt));
    ContainsExtend(ImgOpen + AttrIndent + SrcAttr(base), rest, SizeAttrs(width, height));
  }

  /** Both formats are offered. */
  lemma SourcesParts(base: string)
    ensures Contains(Sources(base), Source("webp", "webp", base))
    ensures Contains(Sources(base), Source("jpeg", "jpg", base))
  {
    var webp := Source("webp", "webp", base);
    var jpeg := Source("jpeg", "jpg", base);
    ContainsSelf(webp);
    ContainsSelf(jpeg);
    ContainsExtend(webp, SourceIndent, webp);
    ContainsExtend(webp + SourceIndent, jpeg, webp);
    ContainsExtend(webp + SourceIndent, jpeg, jpeg);
  }

  /** The figure offers both formats of the image under the base URL, and
      the `<img>` carries the 800 pixel JPEG, the alternative text (the
      default one when none is given) and the dimensions. */
  lemma ResponsiveImageParts(basePath: string, alt: string, width: int, height: int)
    ensures var r := BuildResponsiveImage(basePath, alt, width, height);
      && Contains(r, Source("webp", "webp", BaseUrl(basePath)))
      && Contains(r, Source("jpeg", "jpg", BaseUrl(basePath)))
      && Contains(r, SrcAttr(BaseUrl(basePath)))
      && Contains(r, AltAttr(if alt == "" then DefaultAlt else alt))
      && Contains(r, SizeAttrs(width, height))
  {
    var base := BaseUrl(basePath);
    ImgParts(base, alt, width, height);
    SourcesParts(base);
    PictureContains(base, alt, width, height, Source("webp", "webp", base));
    PictureContains(base, alt, width, height, Source("jpeg", "jpg", base));
    PictureContains(base, alt, width, height, SrcAttr(base));
    PictureContains(base, alt, width, height, AltAttr(alt));
    PictureContains(base, alt, width, height, SizeAttrs(width, height));
    assert AltAttr(alt) == AltAttr(if alt == "" then DefaultAlt else alt);
  }

  /** What the sources or the `<img>` contain, the figure contains. */
  lemma PictureContains(base: string, alt: string, width: int, height: int, p: string)
    requires Contains(Sources(base), p) || Contains(Img(base, alt, width, height), p)
    ensures Contains(FigureOpen + Picture(base, alt, width, height) + FigureClose, p)
  {
    var sources := Sources(base);
    var img := Img(base, alt, width, height);
    ContainsExtend(sources, SourceIndent, p);
    ContainsExtend(sources + SourceIndent, img, p);
    ContainsWrap(FigureOpen, sources + SourceIndent + img, FigureClose, p);
  }

  /** The cover of an article: the image under its base URL, the title as
      the alternative text and the dimensions, 800 by 450 where a dimension
      is missing. */
  lemma CoverParts(a: Article)
    ensures Contains(Cover(a), SrcAttr(BaseUrl(a.image)))
    ensures Contains(Cover(a), AltAttr(if a.title == "" then DefaultAlt else a.title))
    ensures Contains(Cover(a), SizeAttrs(Dimension(a.coverW, DefaultWidth), Dimension(a.coverH, DefaultHeight)))
  {
    ResponsiveImageParts(a.image, a.title, Dimension(a.coverW, DefaultWidth), Dimension(a.coverH, DefaultHeight));
  }

  /** An article with no dimensions gets a cover of 800 by 450. */
  lemma CoverDefaultSize(a: Article)
    requires a.coverW == 0 && a.coverH == 0
    ensures Contains(Cover(a), SizeAttrs(DefaultWidth, DefaultHeight))
  {
    CoverParts(a);
  }

  /** An article with no title gets the default alternative text. */
  lemma CoverDefaultAlt(a: Article)
    requires a.title == ""
    ensures Contains(Cover(a), AltAttr(DefaultAlt))
  {
    CoverParts(a);
  }

  /** The image the page announces to social networks. */
  function OgImage(image: string): string { "./" + image + "-800.jpg" }

  /** It is the cover's JPEG whenever the image path does not already start
      with `./`. */
  lemma OgImageIsCover(image: string)
    requires !StartsWith(image, "./")
    ensures SrcAttr(BaseUrl(image)) == "src=\"" + OgImage(image) + "\""
  {
  }

  // ----------------------------------------------------------------------
  // `renderTags` and `renderReferences`.
  // ----------------------------------------------------------------------

  /** A tag link: the query value is the encoded lower-cased tag. */
  function TagLink(t: string): string
  {
    "<a class=\"tag\" aria-label=\"Tag " + t + "\" href=\"index.html?tag="
    + Uri.EncodeURIComponent(Lower(t)) + "\">#" + t + "</a>"
  }

  function TagLinks(tags: seq<string>): string
  {
    Join(Map(TagLink, tags), " ")
  }

  const TagsOpen := "\n      <div class=\"tags\">\n        "
  const TagsClose := "\n      </div>\n    "

  function RenderTags(tags: seq<string>): string
  {
    if tags == [] then "" else TagsOpen + TagLinks(tags) + TagsClose
  }

  function ReferenceItem(u: string): string
  {
    "<li><a href=\"" + u + "\" target=\"_blank\" rel=\"noopener noreferrer\">" + u + "</a></li>"
  }

  function ReferenceItems(refs: seq<string>): string
  {
    Join(Map(ReferenceItem, refs), "")
  }

  const ReferencesOpen := "\n      <aside class=\"article-references\">\n        <h3>Referências</h3>\n        <ul>\n          "
  const ReferencesClose := "\n        </ul>\n      </aside>\n    "

  function RenderReferences(refs: seq<string>): string
  {
    if refs == [] then "" else ReferencesOpen + ReferenceItems(refs) + ReferencesClose
  }

  /** Both lists render to nothing exactly when they are empty. */
  lemma RenderListsEmptyIff(tags: seq<string>, refs: seq<string>)
    ensures RenderTags(tags) == "" <==> tags == []
    ensures RenderReferences(refs) == "" <==> refs == []
  {
    if tags != [] {
      assert |TagsOpen + TagLinks(tags) + TagsClose| >= |TagsOpen| > 0;
    }
    if refs != [] {
      assert |ReferencesOpen + ReferenceItems(refs) + ReferencesClose| >= |ReferencesOpen| > 0;
    }
  }

  /** One more tag adds one link after a single space, so the links follow
      the order of the tags. */
  lemma TagLinksSnoc(tags: seq<string>, t: string)
    ensures TagLinks(tags + [t]) == if tags == [] then TagLink(t) else TagLinks(tags) + " " + TagLink(t)
  {
    MapConcat(TagLink, tags, [t]);
    assert Map(TagLink, [t]) == [TagLink(t)];
    JoinSnoc(Map(TagLink, tags), TagLink(t), " ");
    assert Map(TagLink, tags) == [] <==> tags == [];
  }

  /** One more reference adds its item at the end. */
  lemma ReferenceItemsSnoc(refs: seq<string>, u: string)
    ensures ReferenceItems(refs + [u]) == ReferenceItems(refs) + ReferenceItem(u)
  {
    MapConcat(ReferenceItem, refs, [u]);
    assert Map(ReferenceItem, [u]) == [ReferenceItem(u)];
    JoinSnoc(Map(ReferenceItem, refs), ReferenceItem(u), "");
    if refs == [] {
      assert Map(ReferenceItem, refs) == [];
      assert ReferenceItems(refs) + ReferenceItem(u) == ReferenceItem(u);
    }
  }

  /** Every tag has its link. */
  lemma TagLinksContainEach(tags: seq<string>)
    ensures forall i :: 0 <= i < |tags| ==> Contains(TagLinks(tags), TagLink(tags[i]))
  {
    JoinContainsEach(Map(TagLink, tags), " ");
  }

  /** Every reference has its item. */
  lemma ReferenceItemsContainEach(refs: seq<string>)
    ensures forall i :: 0 <= i < |refs| ==> Contains(ReferenceItems(refs), ReferenceItem(refs[i]))
  {
    JoinContainsEach(Map(ReferenceItem, refs), "");
  }

  /** The query value of a tag link holds no character that could end the
      attribute or the parameter, and reading it back as a `?tag=`
      parameter gives the lower-cased tag, a value that satisfies the
      listing's tag condition for every article carrying the tag. The link
      itself points at `index.html`, not at the `blog.html` listing that
      js/blog.js links to; which script that page loads is not part of
      this model. */
  lemma TagLinkTarget(t: string, a: Article)
    ensures Uri.QuerySafe(Uri.EncodeURIComponent(Lower(t)))
    ensures Uri.DecodeQueryValue(Uri.EncodeURIComponent(Lower(t))) == Some(Lower(t))
    ensures t in a.tags ==> Listing.MatchTag(a, Lower(t))
  {
    Uri.DecodeEncode(Lower(t));
    LowerIdempotent(t);
    if t in a.tags {
      var i :| 0 <= i < |a.tags| && a.tags[i] == t;
      assert Map(Lower, a.tags)[i] == Lower(t);
    }
  }

  // ----------------------------------------------------------------------
  // Wrapping tables.
  // ----------------------------------------------------------------------

  const TableOpen := "<table>"
  const TableClose := "</table>"
  const WrappedOpen := "<div class=\"table-responsive\"><table>"
  const WrappedClose := "</table></div>"

  /** The two `replaceAll` passes over the rendered content. */
  function WrapTables(html: string): string
  {
    ReplaceAll(ReplaceAll(html, TableOpen, WrappedOpen), TableClose, WrappedClose)
  }

  /** The reference: one left-to-right pass that wraps each `<table>` and
      closes the wrapper after each `</table>`. */
  function WrapTablesOnePass(html: string): string
    decreases |html|
  {
    if html == [] then []
    else if StartsWith(html, TableOpen) then WrappedOpen + WrapTablesOnePass(html[|TableOpen|..])
    else if StartsWith(html, TableClose) then WrappedClose + WrapTablesOnePass(html[|TableClose|..])
    else [html[0]] + WrapTablesOnePass(html[1..])
  }

  /** Replacing in `x + y` leaves `x` alone when no occurrence starts in it. */
  lemma {:induction false} ReplaceAllSkip(x: string, y: string, p: string, q: string)
    requires p != []
    requires forall i :: 0 <= i < |x| ==> !StartsWith((x + y)[i..], p)
    ensures ReplaceAll(x + y, p, q) == x + ReplaceAll(y, p, q)
  {
    if x != [] {
      assert (x + y)[0..] == x + y;
      assert (x + y)[1..] == x[1..] + y;
      forall i | 0 <= i < |x[1..]|
        ensures !StartsWith((x[1..] + y)[i..], p)
      {
        assert (x[1..] + y)[i..] == (x + y)[i + 1..];
      }
      ReplaceAllSkip(x[1..], y, p, q);
    } else {
      assert x + y == y;
    }
  }

  /** Since no `<` is in `s`, the first pass cannot have produced the start
      of `s`: it was there before. */
  lemma {:induction false} OpenPassPrefix(h: string, s: string)
    requires forall k :: 0 <= k < |s| ==> s[k] != '<'
    ensures StartsWith(ReplaceAll(h, TableOpen, WrappedOpen), s) ==> StartsWith(h, s)
  {
    if s != [] && h != [] {
      var a := ReplaceAll(h, TableOpen, WrappedOpen);
      if !StartsWith(h, TableOpen) {
        assert a == [h[0]] + ReplaceAll(h[1..], TableOpen, WrappedOpen);
        assert a[1..] == ReplaceAll(h[1..], TableOpen, WrappedOpen);
        OpenPassPrefix(h[1..], s[1..]);
        if StartsWith(a, s) {
          assert a[1..][..|s| - 1] == s[1..];
          assert h[..|s|] == [h[0]] + h[1..][..|s| - 1];
        }
      } else {
        assert a == WrappedOpen + ReplaceAll(h[|TableOpen|..], TableOpen, WrappedOpen);
        OpenHead(ReplaceAll(h[|TableOpen|..], TableOpen, WrappedOpen));
        NotStartsWith(a, s);
      }
    } else if s != [] {
      assert ReplaceAll(h, TableOpen, WrappedOpen) == [];
    }
  }

  /** A character that does not begin a `</table>` before the first pass
      does not begin one after it either. */
  lemma CharThenOpenPass(c: char, rest: string)
    requires !StartsWith([c] + rest, TableClose)
    ensures !StartsWith([c] + ReplaceAll(rest, TableOpen, WrappedOpen), TableClose)
  {
    var a := ReplaceAll(rest, TableOpen, WrappedOpen);
    if c == '<' {
      assert TableClose == ['<'] + "/table>";
      assert !StartsWith(rest, "/table>") by {
        if |rest| >= 7 {
          assert ([c] + rest)[..8] == [c] + rest[..7];
        }
      }
      OpenPassPrefix(rest, "/table>");
      if |a| >= 7 {
        assert ([c] + a)[..8][1..] == a[..7];
        assert TableClose[1..] == "/table>";
      }
    } else {
      assert ([c] + a)[0] != TableClose[0];
    }
  }

  lemma OpenHead(y: string)
    ensures (WrappedOpen + y)[0] == '<'
  {
    assert (WrappedOpen + y)[0] == WrappedOpen[0];
  }

  /** No `</table>` starts inside the wrapper the first pass inserts. */
  lemma WrappedOpenNoClose(y: string)
    ensures forall i :: 0 <= i < |WrappedOpen| ==> !StartsWith((WrappedOpen + y)[i..], TableClose)
  {
    assert forall k :: 0 <= k < |WrappedOpen| ==> WrappedOpen[k] != '/';
    assert WrappedOpen[|WrappedOpen| - 1] != '<';
    forall i | 0 <= i < |WrappedOpen|
      ensures !StartsWith((WrappedOpen + y)[i..], TableClose)
    {
      if i + 1 < |WrappedOpen| {
        assert (WrappedOpen + y)[i..][1] == WrappedOpen[i + 1];
      } else {
        assert (WrappedOpen + y)[i..][0] == WrappedOpen[i];
      }
    }
  }

  /** No `<table>` starts inside a `</table>`. */
  lemma CloseNoOpen(y: string)
    ensures forall i :: 0 <= i < |TableClose| ==> !StartsWith((TableClose + y)[i..], TableOpen)
  {
    assert forall k :: 1 <= k < |TableClose| ==> TableClose[k] != '<';
    forall i | 0 <= i < |TableClose|
      ensures !StartsWith((TableClose + y)[i..], TableOpen)
    {
      if i == 0 {
        assert (TableClose + y)[i..][1] == '/';
      } else {
        assert (TableClose + y)[i..][0] == TableClose[i];
      }
    }
  }

  /** The two passes do what the one pass does: the `<table>` the first
      pass inserts is not wrapped again, and the second pass finds exactly
      the `</table>`s of the input. */
  lemma {:induction false} WrapTablesIsOnePass(html: string)
    ensures WrapTables(html) == WrapTablesOnePass(html)
    decreases |html|
  {
    if html != [] {
      var rest: string;
      if StartsWith(html, TableOpen) {
        rest := html[|TableOpen|..];
        var a := ReplaceAll(rest, TableOpen, WrappedOpen);
        assert ReplaceAll(html, TableOpen, WrappedOpen) == WrappedOpen + a;
        WrappedOpenNoClose(a);
        ReplaceAllSkip(WrappedOpen, a, TableClose, WrappedClose);
      } else if StartsWith(html, TableClose) {
        rest := html[|TableClose|..];
        assert html == TableClose + rest;
        CloseNoOpen(rest);
        ReplaceAllSkip(TableClose, rest, TableOpen, WrappedOpen);
        var a := ReplaceAll(rest, TableOpen, WrappedOpen);
        assert StartsWith(TableClose + a, TableClose);
        assert (TableClose + a)[|TableClose|..] == a;
      } else {
        rest := html[1..];
        var a := ReplaceAll(rest, TableOpen, WrappedOpen);
        assert ReplaceAll(html, TableOpen, WrappedOpen) == [html[0]] + a;
        assert html == [html[0]] + rest;
        CharThenOpenPass(html[0], rest);
        assert ([html[0]] + a)[1..] == a;
      }
      WrapTablesIsOnePass(rest);
    }
  }

  /** Content without tables is left as it is. */
  lemma WrapTablesNoTable(html: string)
    requires !Contains(html, TableOpen) && !Contains(html, TableClose)
    ensures WrapTables(html) == html
  {
    ReplaceAllAbsent(html, TableOpen, WrappedOpen);
    ReplaceAllAbsent(html, TableClose, WrappedClose);
  }

  // ----------------------------------------------------------------------
  // The article lookup.
  // ----------------------------------------------------------------------

  const InvalidMessage := "Artigo inválido"
  const NotFoundMessage := "Artigo não encontrado"

  datatype Lookup = Found(article: Article) | Failed(message: string)

  predicate Selected(a: Article, id: int) {
    a.id == Some(id) && IsPublished(a)
  }

  /** `data.find(…)`: the index of the first published article with the
      identifier. */
  function FindFirst(data: seq<Article>, id: int): (r: Option<nat>)
    ensures r.Some? ==>
      r.value < |data| && Selected(data[r.value], id) && forall j :: 0 <= j < r.value ==> !Selected(data[j], id)
    ensures r.None? ==> forall j :: 0 <= j < |data| ==> !Selected(data[j], id)
  {
    if data == [] then None
    else if Selected(data[0], id) then Some(0)
    else match FindFirst(data[1..], id)
      case None => None
      case Some(i) => Some(i + 1)
  }

  /** The `id` parameter read with `parseInt(…, 10)`; a missing parameter
      reads as `NaN`. */
  function RequestedId(idParam: Option<string>): Option<int>
  {
    match idParam
    case None => None
    case Some(s) => ParseInt(s)
  }

  function FindArticle(data: seq<Article>, idParam: Option<string>): Lookup
  {
    match RequestedId(idParam)
    case None => Failed(InvalidMessage)
    case Some(id) =>
      if id == 0 then Failed(InvalidMessage)
      else match FindFirst(data, id)
        case None => Failed(NotFoundMessage)
        case Some(i) => Found(data[i])
  }

  /** A missing, non-numeric or zero identifier is invalid; otherwise the
      result is the first published article with that identifier, or "not
      found" when there is none. */
  lemma FindArticleCases(data: seq<Article>, idParam: Option<string>)
    ensures var id := RequestedId(idParam);
      && (FindArticle(data, idParam) == Failed(InvalidMessage) <==> id.None? || id.value == 0)
      && (id.Some? && id.value != 0 ==>
            (FindArticle(data, idParam) == Failed(NotFoundMessage) <==>
               forall j :: 0 <= j < |data| ==> !Selected(data[j], id.value)))
      && (FindArticle(data, idParam).Found? ==>
            exists i :: 0 <= i < |data| && FindArticle(data, idParam).article == data[i]
              && Selected(data[i], id.value) && forall j :: 0 <= j < i ==> !Selected(data[j], id.value))
  {
    var id := RequestedId(idParam);
    if id.Some? && id.value != 0 {
      var f := FindFirst(data, id.value);
      if f.Some? {
        assert Selected(data[f.value], id.value);
      }
    }
  }

  /** The link `?id=<n>` of a published article (as the sitemap writes it)
      opens that article, unless an earlier published entry has the same
      identifier. */
  lemma FindArticleByLink(data: seq<Article>, i: nat)
    requires i < |data| && IsPublished(data[i]) && data[i].id.Some? && data[i].id.value != 0
    requires forall j :: 0 <= j < i ==> !Selected(data[j], data[i].id.value)
    ensures FindArticle(data, Some(IdText(data[i].id))) == Found(data[i])
  {
    var n := data[i].id.value;
    assert RequestedId(Some(IdText(data[i].id))) == Some(n) by {
      ParseIntRoundTrip(n, "");
      assert IntToString(n) + "" == IntToString(n);
    }
    assert FindFirst(data, n) == Some(i) by {
      assert Selected(data[i], n);
    }
  }

  // ----------------------------------------------------------------------
  // `setMetaTag`: the selector and the `<meta>` elements of the head.
  // ----------------------------------------------------------------------

  const NamePrefix := "meta[name=\""
  const PropertyPrefix := "meta[property=\""
  const SelectorEnd := "\"]"

  /** The lazy group `(.+?)` followed by `"]`: the first end `k` such that
      the characters before `k` from the group's start hold no line
      terminator and `"]` occurs at `k`. Candidates are tried from `k`. */
  function LazyClose(s: string, k: nat): (r: Option<nat>)
    requires k >= 1
    ensures r.Some? ==> k <= r.value && OccursAt(s, SelectorEnd, r.value)
    ensures r.Some? ==> forall m :: k <= m < r.value ==> !OccursAt(s, SelectorEnd, m)
    ensures r.Some? ==> forall m :: k - 1 <= m < r.value ==> !IsLineTerminator(s[m])
    ensures r.None? ==> forall m :: k <= m && OccursAt(s, SelectorEnd, m) ==>
      exists t :: k - 1 <= t < m && IsLineTerminator(s[t])
    decreases |s| - k
  {
    if k + |SelectorEnd| > |s| || IsLineTerminator(s[k - 1]) then None
    else if OccursAt(s, SelectorEnd, k) then Some(k)
    else LazyClose(s, k + 1)
  }

  /** A match of `prefix(.+?)"]` starts at `j`. */
  predicate MatchAt(s: string, prefix: string, j: nat) {
    OccursAt(s, prefix, j) && LazyClose(s, j + |prefix| + 1).Some?
  }

  /** Where the leftmost match of `prefix(.+?)"]` at or after `i` starts:
      the regular expression tries each start in turn. */
  function MatchStart(s: string, prefix: string, i: nat): (r: Option<nat>)
    ensures r.Some? ==> i <= r.value && MatchAt(s, prefix, r.value)
    ensures r.Some? ==> forall j :: i <= j < r.value ==> !MatchAt(s, prefix, j)
    ensures r.None? ==> forall j :: i <= j ==> !MatchAt(s, prefix, j)
    decreases |s| - i
  {
    if i > |s| then None
    else if MatchAt(s, prefix, i) then Some(i)
    else MatchStart(s, prefix, i + 1)
  }

  /** The first group of the leftmost match of `prefix(.+?)"]` at or after
      `i`: what lies between the prefix and the first `"]` after it. */
  function MatchGroup(s: string, prefix: string, i: nat): (r: Option<string>)
    ensures r.Some? ==> r.value != [] && Contains(s, prefix + r.value + SelectorEnd)
    ensures r.Some? ==> NoLineTerminator(r.value)
    ensures r.None? ==> forall j :: i <= j ==> !MatchAt(s, prefix, j)
  {
    match MatchStart(s, prefix, i)
    case None => None
    case Some(j) =>
      GroupOf(s, prefix, j);
      Some(Group(s, prefix, j))
  }

  /** The group of the match starting at `j`. */
  function Group(s: string, prefix: string, j: nat): string
    requires MatchAt(s, prefix, j)
  {
    s[j + |prefix|..LazyClose(s, j + |prefix| + 1).value]
  }

  lemma GroupOf(s: string, prefix: string, j: nat)
    requires MatchAt(s, prefix, j)
    ensures var g := Group(s, prefix, j);
      g != [] && Contains(s, prefix + g + SelectorEnd) && NoLineTerminator(g)
  {
    GroupContained(s, prefix, j);
    GroupOnOneLine(s, prefix, j);
  }

  lemma GroupContained(s: string, prefix: string, j: nat)
    requires MatchAt(s, prefix, j)
    ensures Contains(s, prefix + Group(s, prefix, j) + SelectorEnd)
  {
    var start := j + |prefix|;
    var k := LazyClose(s, start + 1).value;
    var g := s[start..k];
    assert s[j..k + |SelectorEnd|] == prefix + g + SelectorEnd by {
      assert s[j..k + |SelectorEnd|] == s[j..start] + g + s[k..k + |SelectorEnd|];
    }
    assert OccursAt(s, prefix + g + SelectorEnd, j);
  }

  lemma GroupOnOneLine(s: string, prefix: string, j: nat)
    requires MatchAt(s, prefix, j)
    ensures NoLineTerminator(Group(s, prefix, j))
  {
    var start := j + |prefix|;
    var g := Group(s, prefix, j);
    assert forall t :: 0 <= t < |g| ==> g[t] == s[start + t];
  }

  /** The attribute a new `<meta>` gets from the selector: `name` or
      `property` with the value between the prefix and `"]`. */
  function SelectorKey(sel: string): Option<(string, string)>
  {
    if StartsWith(sel, NamePrefix) then
      match MatchGroup(sel, NamePrefix, 0)
      case Some(v) => Some(("name", v))
      case None => None
    else if StartsWith(sel, PropertyPrefix) then
      match MatchGroup(sel, PropertyPrefix, 0)
      case Some(v) => Some(("property", v))
      case None => None
    else None
  }

  /** A value that the selector quotes as it is. */
  predicate PlainValue(v: string) {
    v != [] && NoLineTerminator(v) && forall i :: 0 <= i < |v| ==> v[i] != '"' && v[i] != '\\'
  }

  function Selector(key: string, v: string): string
  {
    "meta[" + key + "=\"" + v + SelectorEnd
  }

  lemma {:induction false} LazyCloseOf(s: string, start: nat, k: nat, v: string)
    requires 1 <= k <= start + |v| && start + |v| + |SelectorEnd| <= |s|
    requires PlainValue(v) && s[start..start + |v|] == v && start < k
    requires OccursAt(s, SelectorEnd, start + |v|)
    ensures LazyClose(s, k) == Some(start + |v|)
    decreases start + |v| - k
  {
    assert s[k - 1] == v[k - 1 - start];
    if k < start + |v| {
      assert s[k] == v[k - start];
      assert !OccursAt(s, SelectorEnd, k);
      LazyCloseOf(s, start, k + 1, v);
    }
  }

  /** The value of a selector built from a plain value is read back. */
  lemma SelectorKeyRoundTrip(v: string)
    requires PlainValue(v)
    ensures SelectorKey(Selector("name", v)) == Some(("name", v))
    ensures SelectorKey(Selector("property", v)) == Some(("property", v))
  {
    SelectorKeyName(v);
    SelectorKeyProperty(v);
  }

  lemma SelectorKeyName(v: string)
    requires PlainValue(v)
    ensures SelectorKey(Selector("name", v)) == Some(("name", v))
  {
    var s := NamePrefix + v + SelectorEnd;
    assert Selector("name", v) == s;
    SelectorGroup(NamePrefix, v);
  }

  lemma SelectorKeyProperty(v: string)
    requires PlainValue(v)
    ensures SelectorKey(Selector("property", v)) == Some(("property", v))
  {
    var s := PropertyPrefix + v + SelectorEnd;
    assert Selector("property", v) == s;
    assert !StartsWith(s, NamePrefix) by {
      assert s[5] == 'p';
      assert NamePrefix[5] == 'n';
      if |NamePrefix| <= |s| {
        assert s[..|NamePrefix|][5] == s[5];
      }
    }
    SelectorGroup(PropertyPrefix, v);
  }

  lemma SelectorGroup(prefix: string, v: string)
    requires PlainValue(v)
    ensures StartsWith(prefix + v + SelectorEnd, prefix)
    ensures MatchGroup(prefix + v + SelectorEnd, prefix, 0) == Some(v)
  {
    var s := prefix + v + SelectorEnd;
    assert s[..|prefix|] == prefix;
    assert OccursAt(s, prefix, 0);
    assert s[|prefix|..|prefix| + |v|] == v;
    assert s[|prefix| + |v|..|prefix| + |v| + 2] == SelectorEnd;
    LazyCloseOf(s, |prefix|, |prefix| + 1, v);
  }

  /** The selectors the page passes. */
  predicate IsMetaSelector(sel: string) {
    match SelectorKey(sel)
    case Some((key, v)) => PlainValue(v) && sel == Selector(key, v)
    case None => false
  }

  /** The attributes of one `<meta>` element. */
  type Attributes = map<string, string>

  predicate HasAttribute(el: Attributes, key: string, v: string) {
    key in el && el[key] == v
  }

  /** `document.querySelector`: the first element with the attribute. */
  function FirstWith(metas: seq<Attributes>, key: string, v: string): (r: Option<nat>)
    ensures r.Some? ==>
      r.value < |metas| && HasAttribute(metas[r.value], key, v) && forall j :: 0 <= j < r.value ==> !HasAttribute(metas[j], key, v)
    ensures r.None? ==> forall j :: 0 <= j < |metas| ==> !HasAttribute(metas[j], key, v)
  {
    if metas == [] then None
    else if HasAttribute(metas[0], key, v) then Some(0)
    else match FirstWith(metas[1..], key, v)
      case None => None
      case Some(i) => Some(i + 1)
  }

  /** The elements after `setMetaTag(sel, attr, value)`: the first element
      the selector finds gets the attribute; when there is none, a new
      element with the selector's attribute and `attr` is appended. */
  function WithMeta(metas: seq<Attributes>, key: string, v: string, attr: string, value: string): seq<Attributes>
  {
    match FirstWith(metas, key, v)
    case Some(i) => metas[i := metas[i][attr := value]]
    case None => metas + [map[key := v][attr := value]]
  }

  /** Afterwards the selector finds an element carrying the value; one
      element is changed or one is added, and the rest stay. */
  lemma WithMetaSets(metas: seq<Attributes>, key: string, v: string, attr: string, value: string)
    requires attr != key
    ensures var r := WithMeta(metas, key, v, attr, value);
      && FirstWith(r, key, v).Some?
      && HasAttribute(r[FirstWith(r, key, v).value], attr, value)
      && (|r| == |metas| || (|r| == |metas| + 1 && r[..|metas|] == metas))
      && (|r| == |metas| ==> forall j :: 0 <= j < |r| && j != FirstWith(metas, key, v).value ==> r[j] == metas[j])
  {
    var r := WithMeta(metas, key, v, attr, value);
    var f := FirstWith(metas, key, v);
    if f.Some? {
      assert HasAttribute(r[f.value], key, v);
      forall j | 0 <= j < f.value ensures !HasAttribute(r[j], key, v) {
        assert r[j] == metas[j];
      }
      assert FirstWith(r, key, v) == f by {
        FirstWithOf(r, key, v, f.value);
      }
    } else {
      assert HasAttribute(r[|metas|], key, v);
      forall j | 0 <= j < |metas| ensures !HasAttribute(r[j], key, v) {
        assert r[j] == metas[j];
      }
      FirstWithOf(r, key, v, |metas|);
    }
  }

  lemma {:induction false} FirstWithOf(metas: seq<Attributes>, key: string, v: string, i: nat)
    requires i < |metas| && HasAttribute(metas[i], key, v)
    requires forall j :: 0 <= j < i ==> !HasAttribute(metas[j], key, v)
    ensures FirstWith(metas, key, v) == Some(i)
  {
    if i > 0 {
      FirstWithOf(metas[1..], key, v, i - 1);
    }
  }

  /** Setting the same tag twice is setting it once. */
  lemma WithMetaIdempotent(metas: seq<Attributes>, key: string, v: string, attr: string, value: string)
    requires attr != key
    ensures WithMeta(WithMeta(metas, key, v, attr, value), key, v, attr, value)
      == WithMeta(metas, key, v, attr, value)
  {
    var r := WithMeta(metas, key, v, attr, value);
    WithMetaSets(metas, key, v, attr, value);
    var i := FirstWith(r, key, v).value;
    assert r[i][attr := value] == r[i];
    assert r[i := r[i][attr := value]] == r;
  }

  /** The `<meta>` elements of the document, in document order. */
  class MetaHead {
    var metas: seq<Attributes>

    constructor (initial: seq<Attributes>)
      ensures metas == initial
    {
      metas := initial;
    }

    /** `setMetaTag(sel, attr, value)`. */
    method SetMetaTag(sel: string, attr: string, value: string)
      requires IsMetaSelector(sel)
      modifies this
      ensures var key := SelectorKey(sel).value;
        metas == WithMeta(old(metas), key.0, key.1, attr, value)
    {
      var key := SelectorKey(sel).value;
      var found := FirstWith(metas, key.0, key.1);
      if found.Some? {
        var i := found.value;
        metas := metas[i := metas[i][attr := value]];
      } else {
        var el: Attributes := map[];
        el := el[key.0 := key.1];
        el := el[attr := value];
        metas := metas + [el];
      }
    }
  }
}
