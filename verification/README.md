# BlogTech in Dafny

A model of the deterministic core of the BlogTech blog. It has four parts:

- **The static-page generator** (`build.js`):
  - HTML escaping.
  - The fallback Markdown converter.
  - The choice between `marked`, raw HTML and the fallback.
  - The meta description.
  - The assembly of an article page.
  - The rule that names each generated file after the article's slug.
- **The listing page** (`js/blog.js`):
  - The category class.
  - The search and tag filter.
  - The six-article page window.
  - The pagination buttons, with the page state kept in the class `Listing.BlogListing`.
- **The article page** (`js/post.js`):
  - The responsive cover image.
  - The tag and reference lists.
  - The wrapping of tables.
  - The lookup of the requested article.
  - `setMetaTag`, with the `<meta>` elements of the head kept in the class `PostPage.MetaHead`.
- **The sitemap generator** (`generate-sitemap.js`): the entries, the date of each entry and the XML document.

Strings are sequences of characters. Each regular expression of the source is written out as an explicit scanner:

- lazy groups stop at the first possible close;
- a global replace works left to right and never overlaps;
- `\s` is the ECMAScript white-space set.

A field that JavaScript treats as falsy when it is missing or empty is the empty string (or 0 for a cover dimension). A missing article `id` is `None`, and it prints as `undefined`.

Other things are given to the model as parameters:

- The `marked` library is an optional function.
- `new Date(…)` with `Intl.DateTimeFormat` is a parser and a formatter.
- `toISOString` is a partial function, with the current time as a value.
- `Date.now()` is a number.
- The current year is a number.

Modules:

| file | module | source |
|---|---|---|
| text.dfy | `Text` | the string built-ins: `trim`, `toLowerCase`, `includes`, `replaceAll`, `join`, `parseInt`, number printing |
| escape.dfy | `Escape` | `escapeHtml` and its inverse |
| tags.dfy | `Tags` | the `/<[^>]+>/` test of `looksLikeHtml` |
| markdown.dfy | `Markdown` | `inlineMarkdown`, `basicMarkdownToHtml`, `looksLikeHtml`, `renderContent` |
| description.dfy | `Description` | `createMetaDescription` |
| articles.dfy | `Articles` | an entry of `articles.json` |
| article_page.dfy | `ArticlePage` | `formatDate`, `buildArticleHtml`, the slug and file name in `main` |
| listing.dfy | `Listing` | js/blog.js |
| uri.dfy | `Uri` | `encodeURIComponent` and the decoding of a query value |
| post_page.dfy | `PostPage` | js/post.js |
| sitemap.dfy | `Sitemap` | generate-sitemap.js |

## Model

| member | source | states |
|---|---|---|
| Escape.EscapeHtmlIsPerChar | build.js:17-24 | the five chained global replaces equal one per-character substitution: `&`, `<`, `>`, `"`, `'` become their entities, every other character stays |
| Escape.EscapeHtmlChar | build.js:17-24 | one character goes through the chain to exactly its own entity, or unchanged |
| Escape.EscapeHtmlConcat | build.js:17-24 | escaping distributes over concatenation |
| Escape.EscapeHtmlMarkupFree | build.js:17-24 | escaped text contains no `<`, `>`, `"` or `'` |
| Escape.UnescapeEscapeHtml | build.js:17-24 | decoding the entities gives back the original text exactly, so every `&` was escaped exactly once |
| Escape.EscapeHtmlPlain | build.js:17-24 | text without the five special characters is left unchanged |
| Escape.UnescapeEntity | build.js:17-24 | decoding a character's entity gives that character first, then the decoding of what follows |
| Tags.HasTagIff | build.js:26-28 | the scanner finds a tag exactly when some `<`, one or more non-`>` characters and `>` occur in the text |
| Tags.TagEnd | build.js:27 | a tag starting at the first position is found exactly when one is there |
| Markdown.InlinePlain | build.js:59-66 | text without `*`, `_` or a backtick is left unchanged |
| Markdown.InlineStrong | build.js:59-66 | `**x**` becomes `<strong>x</strong>` for non-empty `x` without markers or line breaks; no `<em>` is nested |
| Markdown.InlineEmphasis | build.js:59-66 | `*x*` becomes `<em>x</em>` under the same conditions |
| Markdown.EmphasisNoStrong | build.js:61-62 | `*x*` holds no `**` and no `__`, so the two strong passes leave it alone |
| Markdown.SpanWhole | build.js:61-65 | one span pass turns delimiter, text and delimiter into the open tag, the text and the close tag |
| Markdown.NoSpanWithoutDelimiter | build.js:61-65 | a span pass leaves text without its delimiter unchanged |
| Markdown.ReplaceSpansPlain | build.js:61-65 | a span pass leaves text without the delimiter's first character unchanged |
| Markdown.FindClose | build.js:61-65 | the lazy `(.+?)` closes at the first possible delimiter, never across a line break |
| Markdown.SpanAt | build.js:61-65 | a span opens only at the delimiter and closes at the first possible close |
| Markdown.NextBreak | build.js:32 | finds the first run of two or more `\n` at or after the position |
| Markdown.RunEnd | build.js:32 | the `\n` run extends as far as it goes |
| Markdown.SplitFromShape | build.js:32 | the pieces split off from a position, woven back with the breaks, give the text; no piece holds a break; every separator is a run of two or more `\n` |
| Markdown.SplitBlocksShape | build.js:32 | `split(/\n{2,}/)` gives pieces and separators that rebuild the text exactly |
| Markdown.RenderBlockEmptyIff | build.js:35-37 | a block renders to the empty string exactly when it is blank, so `filter(Boolean)` drops only blank blocks |
| Markdown.RenderBlocksNonBlank | build.js:34-56 | rendering and then dropping empty outputs equals rendering the non-blank blocks in order |
| Markdown.BasicMarkdownBlocks | build.js:30-57 | CRLF becomes LF, the text splits on runs of `\n`, and the non-blank blocks are rendered and joined with one `\n` in input order |
| Markdown.RenderBlockTrimmed | build.js:35-53 | a block with nothing to trim is rendered by its kind |
| Markdown.CodeBlockOf | build.js:39-43 | the language is the word after the fence, and the body is the code between the fences, escaped |
| Markdown.FencedBlock | build.js:39-44 | a fenced block renders to `<pre><code…>` with a language class only when a word follows the fence, and the escaped body |
| Markdown.PlainFencedBlock | build.js:39-44 | code without special characters appears verbatim, with no inline substitution |
| Markdown.CodeBlockOfParts | build.js:40-43 | for any text made of three backticks, the longest word after them and whatever follows: the class names the word only when there is one, and the code is what follows with one leading `\n` and one closing fence at the very end removed, escaped |
| Markdown.FenceCodeOf | build.js:42 | dropping at most one newline and then a fence at the very end gives back exactly the code between them, whether or not the newline and the closing fence are there |
| Markdown.CodeBlockCases | build.js:40-43 | a code block with or without the newline after the word and with or without a closing fence renders the code it holds, escaped, under the word's class |
| Markdown.FencedBlockCases | build.js:39-44 | every block that starts with three backticks renders to `<pre><code…>` around exactly its escaped code: a closed fence, an unclosed fence, and a word followed by something other than a newline (which stays in the code) |
| Markdown.WordRun | build.js:40 | `\w+` after the fence: the longest run of word characters |
| Markdown.HashRun | build.js:46 | the number of leading `#` |
| Markdown.HeadingMatch | build.js:46 | a match has one to six `#` and text without a line break |
| Markdown.HeadingMatchOf | build.js:46 | one to six `#`, white space and a line without a break match, with exactly that level and text |
| Markdown.HeadingMatchShape | build.js:46 | every match is one to six `#`, non-empty white space and the text |
| Markdown.HeadingBlock | build.js:46-51 | such a block becomes `<hk>` around the inline markup of the text, unescaped |
| Markdown.RenderBlockHeading | build.js:46-51 | a trimmed block that matches becomes its heading |
| Markdown.DeepHashesParagraph | build.js:46-53 | seven or more `#` fall through to a paragraph |
| Markdown.RenderContentCases | build.js:68-82 | blank content gives the fixed empty-content paragraph; otherwise `marked` when present; otherwise content containing a tag is returned verbatim; otherwise the fallback converter |
| Description.FindIgnoringCase | build.js:86-87 | the first case-insensitive occurrence at or after a position |
| Description.ElementEndFirstClose | build.js:86-87 | an element ends at the first close after the first `>` that follows the opening, and one is found exactly when the opening, a later `>` and a later close occur in that order |
| Description.StripElementsRemovesAll | build.js:86-87 | no element of the kind replaced is left at any index of the result (what is kept, and that each element becomes one space, is stated by the next two rows) |
| Description.StripElementsKeepsPrefix | build.js:86-87 | text before the first `<` is kept exactly, and the rest is stripped on |
| Description.StripElementsElement | build.js:86-87 | a whole element (the opening word in any case, attributes up to the first `>`, a body, and the first closing word after that `>`) becomes exactly one space |
| Description.StripElementsNoLt | build.js:86-87 | text without `<` is unchanged |
| Description.ElementAbsentHead | build.js:86-87 | a `<` with no later `<` opens no element, since the closing word starts with `<` |
| Description.StripElementsLoneLt | build.js:86-87 | text whose only `<` opens no element is unchanged |
| Description.StripElementsKeepsAbsent | build.js:86-87 | replacing one kind of element cannot create an element of another kind |
| Description.NoScriptOrStyleLeft | build.js:86-87 | after both replaces neither a script nor a style element is left |
| Description.StripElementsAbsent | build.js:86-87 | text without the opening tag is unchanged |
| Description.StripTagsNoTag | build.js:88 | after stripping, no `<…>` tag is left (what is kept, and that each tag becomes one space, is stated by the next two rows) |
| Description.StripTagsKeepsPrefix | build.js:88 | text before the first `<` is kept exactly, and the rest is stripped on |
| Description.StripTagsTag | build.js:88 | a whole tag, `<`, at least one character other than `>`, then `>`, becomes exactly one space |
| Description.StripTagsNoLt | build.js:88 | text without `<` is unchanged |
| Description.StripTagsNoClose | build.js:88 | text without `>` is unchanged |
| Description.NoTagAtHead | build.js:88 | a `<` that starts no tag cannot start one after the rest is stripped |
| Description.CollapseWhite | build.js:89 | the collapsed text is single-spaced and no longer than the input |
| Description.CollapseWhiteKeepsPrefix | build.js:89 | text without white space is kept exactly, and the rest is collapsed on |
| Description.CollapseWhiteRun | build.js:89 | a whole run of white space, of any length and any white characters, becomes exactly one plain space |
| Description.CollapseWhiteNoWhite | build.js:89 | text without white space is unchanged |
| Description.CollapseWhiteVisible | build.js:89 | collapsing keeps every non-white character, in order |
| Description.CollapseSingleSpaced | build.js:89 | single-spaced text is unchanged |
| Description.TrimVisible | build.js:90 | trimming removes only white space |
| Description.TrimSingleSpaced | build.js:90 | trimming keeps single spacing |
| Description.PlainTextShape | build.js:85-90 | the plain text is trimmed and single-spaced, and keeps every visible character of the tag-stripped text |
| Description.PlainTextOfText | build.js:85-90 | text without markup is only collapsed and trimmed |
| Description.PlainTextWords | build.js:85-90 | two words separated by a tag become the two words separated by one space, so words never run together |
| Description.StrippedWords | build.js:86-88 | removing scripts, styles and tags around two words leaves the words and the one space that replaced the tag |
| Description.TidyWords | build.js:89-90 | two words with one space between them are already collapsed and trimmed |
| Description.LastIndexOf | build.js:97 | the last index of the character, or -1 |
| Description.MetaDescriptionBound | build.js:84-100 | text of at most 150 characters is returned exactly; longer text gives a prefix of it followed by one `…`, at most 151 characters |
| Description.TruncateLong | build.js:92-99 | a long text gives at most 151 characters ending in `…`, before which stands a prefix of the text |
| Description.TruncateAtSpace | build.js:96-99 | the cut falls at the last space of the 150-character slice when that index is above 80; otherwise the whole trimmed slice is kept |
| Description.CutAtSpace | build.js:97-99 | a space past index 80 cuts the text there |
| Description.CutAtEnd | build.js:98-99 | with no space past index 80, the trimmed slice is kept, at least 150 characters with the `…` |
| ArticlePage.TitleTextDecodes | build.js:117 | the title is escaped and decodes to the title, or to `Artigo sem título` when it is missing |
| ArticlePage.DateMarkupCases | build.js:102-123 | no `<time>` without a date; an unparseable date is shown raw; a parsed one is formatted; both are escaped |
| ArticlePage.AuthorMarkupCases | build.js:118-124 | the author span appears exactly when the author is present, and holds the escaped author |
| ArticlePage.MetaLineCases | build.js:151 | the date and author parts that are present, joined with ` • ` |
| ArticlePage.TagsMarkupEmptyIff | build.js:126-130 | the tag list appears exactly when there are tags |
| ArticlePage.TagItemsCons | build.js:127-129 | one escaped `<li>` per tag, in order |
| ArticlePage.DecodeTagItemsRoundTrip | build.js:126-130 | the `<li>` items read back as exactly the tags, in order: no tag text can close its item early |
| ArticlePage.DecodeTagItem | build.js:128 | one item reads back as its tag |
| ArticlePage.HeadParts | build.js:132-141 | the head holds the title element and the description attribute |
| ArticlePage.BodyParts | build.js:142-160 | the body holds the heading, the meta line and the content, verbatim |
| ArticlePage.DocumentParts | build.js:116-161 | the page holds the escaped title twice, the escaped description, the meta line and the unescaped content |
| ArticlePage.SlugEmptyIff | build.js:178-179 | the slug is empty exactly when the article has a slug made only of white space |
| ArticlePage.GeneratePostFailsIff | build.js:178-181 | generation fails exactly for a non-empty, all-white slug |
| ArticlePage.GeneratePostFile | build.js:178-187 | the file name ends in `.html`: the trimmed slug, else `artigo-` and the id, else `artigo-` and the clock |
| ArticlePage.SlugFile | build.js:178-187 | the same three cases for the slug itself |
| ArticlePage.FallbackTrimmed | build.js:178 | the fallback slug needs no trimming |
| ArticlePage.GeneratePostContent | build.js:183-185 | the page holds the rendered content and the escaped description of that content |
| Articles.IdText | generate-sitemap.js:32 | a present id prints as its decimal text |
| Listing.CategoryClassRules | js/blog.js:39-46 | the class depends only on the lower-cased category; the words are tried in the order `react`, `carreira`, `ia`, `pwa`, the first one contained giving its class; the default is returned exactly when none of the four occurs |
| Listing.CategoryClassMissing | js/blog.js:40 | a missing category gives `category-default` |
| Listing.SomeContains | js/blog.js:138 | `some` is true exactly when some tag contains the term |
| Listing.FilterArticlesKeeps | js/blog.js:135-141 | the filtered list is an order-preserving subsequence, and an article is kept exactly when it matches the search and the tag |
| Listing.FilterArticlesNoCriteria | js/blog.js:135-141 | with no term and no tag the list is unchanged |
| Listing.MatchTagIgnoresCase | js/blog.js:139 | the tag parameter is compared without regard to case |
| Listing.TotalPages | js/blog.js:126 | `Math.ceil(n / 6)`: the least page count that holds every article |
| Listing.PageSlice | js/blog.js:123-125 | a page shows at most six articles |
| Listing.PagesUpToPrefix | js/blog.js:123-125 | the first k pages together are the first 6k articles, clipped to the list |
| Listing.PagesPartition | js/blog.js:123-126 | pages 1 to `ceil(n/6)` partition the list, and none is empty |
| Listing.NumberButtons | js/blog.js:111-113 | one numbered button per page, in order |
| Listing.PaginationRules | js/blog.js:90-114 | no buttons for at most one page; otherwise `«` disabled exactly on page 1, the numbered buttons with exactly the current one active, `»` disabled exactly on the last page |
| Listing.EnabledButtonTarget | js/blog.js:101-103 | an enabled button leads to an existing page |
| Listing.BlogListing.Load | js/blog.js:150-157 | the articles are the published ones, in file order; the shown list is their filter by the search box and the tag, on page 1, and the state is valid |
| Listing.BlogListing.ApplyFilter | js/blog.js:130-145 | the shown list is the filter of the articles by the lower-cased, trimmed term and the tag, and the page is reset to 1 |
| Listing.BlogListing.VisibleArticles | js/blog.js:122-125 | the slice `updateUI` renders is the current page, at most six articles |
| Listing.BlogListing.RenderPagination | js/blog.js:90-114 | the loop builds exactly the buttons of the pagination rules |
| Listing.BlogListing.Click | js/blog.js:100-106 | the page changes only for an enabled button that leads elsewhere, and stays a valid page |
| Uri.EncodeURIComponent | js/post.js:171 | the encoding holds only unreserved characters and `%`, and is no shorter than the input |
| Uri.EncodeIdentityIff | js/post.js:171 | encoding leaves the text unchanged exactly when it is all unreserved characters; otherwise it grows |
| Uri.HexRoundTrip | js/post.js:171 | a hexadecimal digit reads back as its value |
| Uri.PercentByteRoundTrip | js/post.js:171 | `%XX` reads back as its byte |
| Uri.Utf8RoundTrip | js/post.js:171 | the percent-encoded UTF-8 bytes of a character decode to the character |
| Uri.EncodeCharRoundTrip | js/post.js:171 | an encoded character decodes to itself, before the rest |
| Uri.DecodeEncode | js/blog.js:132-133 | `URLSearchParams.get` gives back exactly the text that `encodeURIComponent` encoded |
| PostPage.BaseUrlRules | js/post.js:19 | a path starting with `./` is kept, any other gets `./` in front; the rule is idempotent |
| PostPage.ImgParts | js/post.js:29-35 | the `<img>` holds the 800-pixel JPEG, the alt text and the dimensions |
| PostPage.SourcesParts | js/post.js:23-28 | the WebP and JPEG sources with both widths |
| PostPage.ResponsiveImageParts | js/post.js:18-39 | the figure holds both sources, the image path, the alt text or `Capa do artigo`, and the dimensions |
| PostPage.PictureContains | js/post.js:20-38 | what a source or the image holds, the figure holds |
| PostPage.CoverParts | js/post.js:88-89 | the cover uses the article's image, its title as alt, and its dimensions or 800×450 |
| PostPage.CoverDefaultSize | js/post.js:88-89 | missing dimensions give 800×450 |
| PostPage.CoverDefaultAlt | js/post.js:31 | an empty title gives the alt `Capa do artigo` |
| PostPage.OgImageIsCover | js/post.js:147 | the `og:image` path is the cover's JPEG for an image path without `./` |
| PostPage.RenderListsEmptyIff | js/post.js:167-186 | the tag and reference blocks are empty exactly when their lists are |
| PostPage.TagLinksSnoc | js/post.js:171 | one link per tag in order, separated by one space |
| PostPage.TagLinksContainEach | js/post.js:171 | every tag's link appears |
| PostPage.ReferenceItemsSnoc | js/post.js:182 | one `<li>` per reference in order, with no separator |
| PostPage.ReferenceItemsContainEach | js/post.js:182 | every reference's item appears |
| PostPage.TagLinkTarget | js/post.js:171 | the link's query value is safe in the attribute, reads back as the lower-cased tag, and that value satisfies the listing's tag condition for every article carrying the tag (the link targets `index.html`, while js/blog.js:73 links to `blog.html`) |
| PostPage.WrapTablesIsOnePass | js/post.js:110-111 | the two passes equal one left-to-right pass that wraps every `<table>` and closes the wrapper after every `</table>` |
| PostPage.WrapTablesNoTable | js/post.js:110-111 | content without tables is unchanged |
| PostPage.FindFirst | js/post.js:76 | `find` gives the first published article with the id |
| PostPage.FindArticleCases | js/post.js:75-77 | a missing, non-numeric or zero id is invalid; otherwise the first published match is found, or not-found exactly when there is none |
| PostPage.FindArticleByLink | js/post.js:75-76 | the id a link prints finds the first published article with that id |
| PostPage.LazyClose | js/post.js:47 | the lazy group ends at the first `"]` after at least one character, with no line terminator before it; when none is found, every later `"]` has a line terminator before it |
| PostPage.MatchStart | js/post.js:47 | the match starts at the leftmost position where the prefix and a lazy group occur; none is found exactly when no position matches |
| PostPage.MatchGroup | js/post.js:47 | the group is non-empty, on one line, and stands between the prefix and `"]`; there is none exactly when no position matches |
| PostPage.GroupOf | js/post.js:47 | the group of a match is non-empty, on one line, and stands between the prefix and `"]` |
| PostPage.SelectorGroup | js/post.js:47 | for a plain value the group is exactly that value |
| PostPage.SelectorKeyRoundTrip | js/post.js:46-51 | `meta[name="v"]` and `meta[property="v"]` give the attribute name and the value `v` |
| PostPage.FirstWith | js/post.js:43 | `querySelector` finds the first element with the attribute |
| PostPage.WithMetaSets | js/post.js:42-56 | afterwards the selector finds an element carrying the value; one element is changed or one is appended, and the rest stay |
| PostPage.WithMetaIdempotent | js/post.js:42-56 | setting the same tag twice is setting it once |
| PostPage.MetaHead.SetMetaTag | js/post.js:42-56 | the head's elements after the call are the update of the old ones |
| Sitemap.DatePart | generate-sitemap.js:16 | the part of the ISO text before the first `T` |
| Sitemap.DatePartOf | generate-sitemap.js:16 | a day followed by `T` and a time gives the day |
| Sitemap.FormatDateCases | generate-sitemap.js:14-20 | the date part of the converted date, or of the current date when the conversion throws |
| Sitemap.EntriesShape | generate-sitemap.js:23-38 | the two static pages first, without a date; then one entry per published article in order, with its link, its date and priority 0.7 |
| Sitemap.ReadLastmodOf | generate-sitemap.js:42 | the `<lastmod>` element is read back when present and absent exactly when the date is empty |
| Sitemap.ReadUrlOf | generate-sitemap.js:39-45 | one `<url>` element reads back as its entry |
| Sitemap.ReadUrlsRoundTrip | generate-sitemap.js:38-46 | the joined elements read back as the entries, in order |
| Sitemap.ReadSitemapOf | generate-sitemap.js:48-51 | the document is the XML header, the `<urlset>` and the elements |
| Sitemap.IdTextNoLt | generate-sitemap.js:32 | an article link holds no `<` |
| Sitemap.LocationsNoLt | generate-sitemap.js:24-34 | the fixed locations and priorities hold no `<` |
| Sitemap.SitemapRoundTrip | generate-sitemap.js:14-51 | the document reads back as exactly the entries: the static pages, then the published articles, with a date only where there is one |
| Text.TrimEmptyIff | build.js:178-179 | `trim()` gives the empty string exactly for white space |
| Text.LowerIdempotent | js/blog.js:136-139 | lower-casing twice is lower-casing once |
| Text.ParseIntRoundTrip | js/post.js:4 | `parseInt` reads back a printed integer, whatever non-digit follows it |
| Text.ReplaceAllLength | js/post.js:110-111 | a global replace changes the length by the number of matches times the difference in length |
| Text.ReplaceAllAbsent | js/post.js:110-111 | a global replace without a match leaves the text unchanged |
| Text.JoinContainsEach | js/post.js:171-182 | a joined list contains every element |

## Left out

- `marked`, DOMPurify and Prism are foreign libraries. `marked` is an optional function parameter. The sanitiser and highlighter are not modelled, so the article page is modelled as it is before sanitising.
- Dates are parameters: `new Date`, `Intl.DateTimeFormat('pt-BR')`, `toISOString`, `Date.now()` and `getFullYear()`.
- No I/O is modelled: the file reads and writes, `JSON.parse`, `Promise.all`, `fetch`, `console`, and the process exit.
- The DOM is not modelled: `innerHTML`, `appendChild`, the event listeners, the debounce timer, `history.replaceState`, `scrollTo` and `setCanonical`. A pagination button's click is the method `Click`.
- The date sort of the listing (js/blog.js:153) is left out because it compares parsed dates. `Load` keeps file order.
- Neither card template of the listing is modelled: the card in js/blog.js:49-87, which includes that file's own `buildResponsiveImage` at lines 15-36, nor the error and fallback templates of js/post.js.
- js/script.js is not part of this model, and js/theme-preload.js is not part of it either.
- Characters are Unicode scalar values, not UTF-16 code units, so a lone surrogate cannot occur.
- Description.MetaDescriptionBound: the limits 150 and 80 of build.js:92-98 are counted in scalar values. JavaScript counts UTF-16 code units, so a character outside the Basic Multilingual Plane counts twice there and once here, and `slice(0, 150)` can split a surrogate pair there, which the model cannot represent.
- `toLowerCase` is modelled for ASCII letters only, because full Unicode case mapping is out of scope.
- Lower-casing, trimming and `includes` follow the scalar values.
- A missing text field is the empty string. For `title` and `image` the source does not treat the two alike. For `title`: on the article page `String(article.title)` (js/post.js:80) prints `undefined`, which also becomes the cover's alt text (js/post.js:88), and in the listing `a.title.toLowerCase()` (js/blog.js:136) throws, so the whole listing falls to the error message of js/blog.js:158-161. The model's listing filters such an article with an empty title instead.
- PostPage.Cover: a missing `image` is the empty string here, so the model builds a cover with the path `./`. In the source, `basePath.startsWith` (js/post.js:19) throws on `undefined`, and the `catch` of js/post.js:153-165 shows the not-found message instead of the article. PostPage.CoverParts and PostPage.OgImageIsCover inherit this: they describe the page of an article that has an image.
- Uri.DecodeQueryValue: a malformed percent sequence gives `None`. The real decoder keeps a `%` that starts no valid pair and inserts U+FFFD for bad UTF-8. Only encoded values are read back in this model.
- PostPage.MetaHead.SetMetaTag: only selectors of the form `meta[name="v"]` and `meta[property="v"]` are accepted, which are the ones the page passes (js/post.js:143-151). The query of an arbitrary CSS selector is not modelled.
- PostPage.OgImageIsCover: stated only for image paths that do not start with `./`. For a path that does, `og:image` is `././path-800.jpg`, while the cover keeps `./path`.
- PostPage.WrapTablesIsOnePass: the wrappers are related to the input's tables by the one-pass reference. No count of opened and closed wrappers is stated, because the counts simply follow those of `<table>` and `</table>` in the input.
- Integers are unbounded. Article ids and dimensions never come near the limits of a JavaScript number.
