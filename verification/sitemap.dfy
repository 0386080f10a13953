/**
 * generate-sitemap.js: the `<url>` entries of the sitemap (the two static
 * pages, then one per published article) and their serialisation in the
 * sitemaps.org 0.9 format. The conversion of a date to its ISO form and
 * the current date are parameters.
 */
module Sitemap {
  import opened Text
  import opened Articles

  const BaseUrl := "https://ismaelly1984.github.io/blogtech"
  const ArticlePath := "/blog-post.html?id="

  /** One `<url>`; an empty `lastmod` is an entry without one. */
  datatype UrlEntry = UrlEntry(loc: string, lastmod: string, priority: string)

  // ----------------------------------------------------------------------
  // `formatDate`.
  // ----------------------------------------------------------------------

  /** `iso.split("T")[0]`: the text before the first `T`. */
  function DatePart(iso: string): (r: string)
    ensures |r| <= |iso| && r == iso[..|r|]
    ensures forall m :: 0 <= m < |r| ==> r[m] != 'T'
    ensures |r| == |iso| || iso[|r|] == 'T'
  {
    if iso == [] || iso[0] == 'T' then [] else [iso[0]] + DatePart(iso[1..])
  }

  /** The date of the ISO form of `dateStr`; `toIso` is `None` where the
      conversion throws, and then the current date `nowIso` is used. */
  function FormatDate(dateStr: string, toIso: string -> Option<string>, nowIso: string): string
  {
    match toIso(dateStr)
    case Some(iso) => DatePart(iso)
    case None => DatePart(nowIso)
  }

  /** A valid date gives the calendar date of its ISO form, and an invalid
      one the current date. */
  lemma FormatDateCases(dateStr: string, toIso: string -> Option<string>, nowIso: string,
                        day: string, time: string)
    requires forall m :: 0 <= m < |day| ==> day[m] != 'T'
    ensures toIso(dateStr) == Some(day + "T" + time) ==> FormatDate(dateStr, toIso, nowIso) == day
    ensures toIso(dateStr).None? && nowIso == day + "T" + time ==> FormatDate(dateStr, toIso, nowIso) == day
  {
    DatePartOf(day, time);
  }

  lemma {:induction false} DatePartOf(day: string, time: string)
    requires forall m :: 0 <= m < |day| ==> day[m] != 'T'
    ensures DatePart(day + "T" + time) == day
  {
    var iso := day + "T" + time;
    if day != [] {
      assert iso[0] == day[0];
      assert iso[1..] == day[1..] + "T" + time;
      DatePartOf(day[1..], time);
      assert [day[0]] + day[1..] == day;
    } else {
      assert iso[0] == 'T';
    }
  }

  // ----------------------------------------------------------------------
  // The entries.
  // ----------------------------------------------------------------------

  function StaticPages(): seq<UrlEntry>
  {
    [UrlEntry(BaseUrl + "/index.html", "", "1.0"), UrlEntry(BaseUrl + "/blog.html", "", "0.9")]
  }

  function ArticleEntry(a: Article, toIso: string -> Option<string>, nowIso: string): UrlEntry
  {
    UrlEntry(BaseUrl + ArticlePath + IdText(a.id), FormatDate(a.date, toIso, nowIso), "0.7")
  }

  function ArticlePages(articles: seq<Article>, toIso: string -> Option<string>, nowIso: string): seq<UrlEntry>
  {
    Map((a: Article) => ArticleEntry(a, toIso, nowIso), Filter(IsPublished, articles))
  }

  /** `[...staticPages, ...articlePages]`. */
  function Entries(articles: seq<Article>, toIso: string -> Option<string>, nowIso: string): seq<UrlEntry>
  {
    StaticPages() + ArticlePages(articles, toIso, nowIso)
  }

  /** The two static pages come first, without a date; then one entry per
      published article, in the order of the articles, each pointing at the
      article page of its identifier with priority 0.7. Unpublished
      articles get none. */
  lemma EntriesShape(articles: seq<Article>, toIso: string -> Option<string>, nowIso: string)
    ensures var es := Entries(articles, toIso, nowIso);
      var published := Filter(IsPublished, articles);
      && |es| == 2 + |published|
      && es[0] == UrlEntry(BaseUrl + "/index.html", "", "1.0")
      && es[1] == UrlEntry(BaseUrl + "/blog.html", "", "0.9")
      && (forall k :: 2 <= k < |es| ==>
            es[k].loc == BaseUrl + ArticlePath + IdText(published[k - 2].id)
            && es[k].lastmod == FormatDate(published[k - 2].date, toIso, nowIso)
            && es[k].priority == "0.7")
      && Subsequence(published, articles)
      && (forall a :: a in published <==> a in articles && IsPublished(a))
  {
    var es := Entries(articles, toIso, nowIso);
    var published := Filter(IsPublished, articles);
    var pages := ArticlePages(articles, toIso, nowIso);
    assert es == StaticPages() + pages;
    forall k | 2 <= k < |es|
      ensures es[k] == ArticleEntry(published[k - 2], toIso, nowIso)
    {
      assert es[k] == pages[k - 2];
    }
    FilterSubsequence(IsPublished, articles);
    FilterMembers(IsPublished, articles);
  }

  // ----------------------------------------------------------------------
  // Serialisation.
  // ----------------------------------------------------------------------

  const UrlOpen := "\n  <url>\n    <loc>"
  const LocClose := "</loc>\n    "
  const LastmodOpen := "<lastmod>"
  const LastmodClose := "</lastmod>"
  const PriorityOpen := "\n" + "    <changefreq>monthly</changefreq>\n    <priority>"
  const UrlClose := "</priority>\n  </url>"
  const XmlHead := "<?xml version=\"1.0\" encoding=\"UTF-8\"?>\n<urlset xmlns=\"http://www.sitemaps.org/schemas/sitemap/0.9\">\n"
  const XmlTail := "\n</urlset>"

  /** The `<lastmod>` element, present only for a date. */
  function LastmodElement(lastmod: string): string
  {
    if lastmod != "" then LastmodOpen + lastmod + LastmodClose else ""
  }

  function UrlXml(u: UrlEntry): string
  {
    UrlOpen + u.loc + LocClose + LastmodElement(u.lastmod) + PriorityOpen + u.priority + UrlClose
  }

  function UrlsXml(es: seq<UrlEntry>): string
  {
    Join(Map(UrlXml, es), "")
  }

  function SitemapXml(articles: seq<Article>, toIso: string -> Option<string>, nowIso: string): string
  {
    XmlHead + UrlsXml(Entries(articles, toIso, nowIso)) + XmlTail
  }

  // ----------------------------------------------------------------------
  // Reading a sitemap back.
  // ----------------------------------------------------------------------

  /** The text up to the first `<`, which must start `close`, and the text
      after `close`. */
  function ReadUntil(s: string, close: string): (r: Option<(string, string)>)
    ensures r.Some? ==> |r.value.1| + |close| <= |s|
  {
    var k := FirstLt(s, 0);
    if StartsWith(s[k..], close) then Some((s[..k], s[k + |close|..])) else None
  }

  /** An optional `<lastmod>` element: its date (empty when absent) and the
      text after it. */
  function ReadLastmod(s: string): (r: Option<(string, string)>)
    ensures r.Some? ==> |r.value.1| <= |s|
  {
    if StartsWith(s, LastmodOpen) then ReadUntil(s[|LastmodOpen|..], LastmodClose)
    else Some(("", s))
  }

  /** One `<url>` element at the start of `s`, and the text after it. */
  function ReadUrl(s: string): (r: Option<(UrlEntry, string)>)
    ensures r.Some? ==> |r.value.1| < |s|
  {
    if !StartsWith(s, UrlOpen) then None
    else match ReadUntil(s[|UrlOpen|..], LocClose)
      case None => None
      case Some((loc, a)) =>
        match ReadLastmod(a)
        case None => None
        case Some((lastmod, b)) =>
          if !StartsWith(b, PriorityOpen) then None
          else match ReadUntil(b[|PriorityOpen|..], UrlClose)
            case None => None
            case Some((priority, rest)) => Some((UrlEntry(loc, lastmod, priority), rest))
  }

  function ReadUrls(s: string): Option<seq<UrlEntry>>
    decreases |s|
  {
    if s == [] then Some([])
    else match ReadUrl(s)
      case None => None
      case Some((u, rest)) =>
        match ReadUrls(rest)
        case None => None
        case Some(us) => Some([u] + us)
  }

  /** The entries of a sitemap document. */
  function ReadSitemap(xml: string): Option<seq<UrlEntry>>
  {
    if |xml| >= |XmlHead| + |XmlTail| && StartsWith(xml, XmlHead) && EndsWith(xml, XmlTail) then
      ReadUrls(xml[|XmlHead|..|xml| - |XmlTail|])
    else None
  }

  /** Fields an entry can carry without a `<` in them. */
  predicate Plain(u: UrlEntry) {
    NoLt(u.loc) && NoLt(u.lastmod) && NoLt(u.priority)
  }

  /** Reading past a known prefix. */
  lemma StartsThen(p: string, x: string)
    ensures StartsWith(p + x, p) && (p + x)[|p|..] == x
  {
    assert (p + x)[..|p|] == p;
  }

  lemma ReadUntilOf(x: string, close: string, rest: string)
    requires NoLt(x) && close != [] && close[0] == '<'
    ensures ReadUntil(x + (close + rest), close) == Some((x, rest))
  {
    var s := x + (close + rest);
    FirstLtOf(x, close + rest);
    assert s[|x|..] == close + rest;
    StartsThen(close, rest);
    assert s[..|x|] == x;
    assert s[|x| + |close|..] == rest;
  }

  lemma ReadLastmodOf(lastmod: string, rest: string)
    requires NoLt(lastmod) && StartsWith(rest, PriorityOpen)
    ensures ReadLastmod(LastmodElement(lastmod) + rest) == Some((lastmod, rest))
  {
    if lastmod != "" {
      ReadLastmodPresent(lastmod, rest);
    } else {
      ReadLastmodAbsent(rest);
    }
  }

  lemma ReadLastmodPresent(lastmod: string, rest: string)
    requires NoLt(lastmod) && lastmod != ""
    ensures ReadLastmod(LastmodElement(lastmod) + rest) == Some((lastmod, rest))
  {
    var s := LastmodOpen + (lastmod + (LastmodClose + rest));
    assert LastmodElement(lastmod) + rest == s;
    StartsThen(LastmodOpen, lastmod + (LastmodClose + rest));
    ReadUntilOf(lastmod, LastmodClose, rest);
  }

  lemma ReadLastmodAbsent(rest: string)
    requires StartsWith(rest, PriorityOpen)
    ensures ReadLastmod(LastmodElement("") + rest) == Some(("", rest))
  {
    assert LastmodElement("") + rest == rest;
    assert PriorityOpen[0] == '\n' && LastmodOpen[0] == '<';
    assert rest[0] == rest[..|PriorityOpen|][0];
    NotStartsWith(rest, LastmodOpen);
  }

  /** The element with its parts nested to the right. */
  lemma UrlXmlNested(u: UrlEntry, rest: string)
    ensures UrlXml(u) + rest
      == UrlOpen + (u.loc + (LocClose + (LastmodElement(u.lastmod) + (PriorityOpen + (u.priority + (UrlClose + rest))))))
  {
    var l := LastmodElement(u.lastmod);
    Assoc(UrlOpen + u.loc + LocClose + l + PriorityOpen + u.priority, UrlClose, rest);
    Assoc(UrlOpen + u.loc + LocClose + l + PriorityOpen, u.priority, UrlClose + rest);
    Assoc(UrlOpen + u.loc + LocClose + l, PriorityOpen, u.priority + (UrlClose + rest));
    Assoc(UrlOpen + u.loc + LocClose, l, PriorityOpen + (u.priority + (UrlClose + rest)));
    Assoc(UrlOpen + u.loc, LocClose, l + (PriorityOpen + (u.priority + (UrlClose + rest))));
    Assoc(UrlOpen, u.loc, LocClose + (l + (PriorityOpen + (u.priority + (UrlClose + rest)))));
  }

  /** One element is read back as its entry, before the text after it. */
  lemma ReadUrlOf(u: UrlEntry, rest: string)
    requires Plain(u)
    ensures ReadUrl(UrlXml(u) + rest) == Some((u, rest))
  {
    var t3 := u.priority + (UrlClose + rest);
    var t2 := PriorityOpen + t3;
    var t1 := LastmodElement(u.lastmod) + t2;
    var t := u.loc + (LocClose + t1);
    UrlXmlNested(u, rest);
    StartsThen(UrlOpen, t);
    ReadUntilOf(u.loc, LocClose, t1);
    StartsThen(PriorityOpen, t3);
    ReadLastmodOf(u.lastmod, t2);
    ReadUntilOf(u.priority, UrlClose, rest);
  }

  lemma UrlsXmlCons(es: seq<UrlEntry>)
    requires es != []
    ensures UrlsXml(es) == UrlXml(es[0]) + UrlsXml(es[1..])
  {
    var xs := Map(UrlXml, es);
    assert xs[1..] == Map(UrlXml, es[1..]);
    JoinNoSeparator(xs);
  }

  lemma ReadUrlsStep(s: string, u: UrlEntry, rest: string, us: seq<UrlEntry>)
    requires ReadUrl(s) == Some((u, rest)) && ReadUrls(rest) == Some(us)
    ensures ReadUrls(s) == Some([u] + us)
  {
  }

  /** One more element in front of a list that reads back. */
  lemma ReadUrlsCons(es: seq<UrlEntry>)
    requires es != [] && Plain(es[0]) && ReadUrls(UrlsXml(es[1..])) == Some(es[1..])
    ensures ReadUrls(UrlsXml(es)) == Some(es)
  {
    var tail := UrlsXml(es[1..]);
    UrlsXmlCons(es);
    ReadUrlOf(es[0], tail);
    ReadUrlsStep(UrlXml(es[0]) + tail, es[0], tail, es[1..]);
    assert [es[0]] + es[1..] == es;
  }

  /** The serialised entries are read back as the entries, in order. */
  lemma {:induction false} ReadUrlsRoundTrip(es: seq<UrlEntry>)
    requires forall i :: 0 <= i < |es| ==> Plain(es[i])
    ensures ReadUrls(UrlsXml(es)) == Some(es)
  {
    if es == [] {
      assert UrlsXml(es) == "";
    } else {
      ReadUrlsRoundTrip(es[1..]);
      ReadUrlsCons(es);
    }
  }

  lemma ReadSitemapOf(body: string)
    ensures ReadSitemap(XmlHead + body + XmlTail) == ReadUrls(body)
  {
    var xml := XmlHead + body + XmlTail;
    assert xml[..|XmlHead|] == XmlHead;
    assert xml[|xml| - |XmlTail|..] == XmlTail;
    assert xml[|XmlHead|..|xml| - |XmlTail|] == body;
  }

  /** The identifier in a link holds no `<`. */
  lemma IdTextNoLt(id: Option<int>)
    ensures NoLt(IdText(id))
  {
    if id.Some? {
      var n := id.value;
      var d := NatToDecimal(if n < 0 then -n else n);
      assert forall m :: 0 <= m < |d| ==> d[m] != '<';
      if n < 0 {
        assert IdText(id) == "-" + d;
      }
    }
  }

  lemma ConcatNoLt(x: string, y: string)
    requires NoLt(x) && NoLt(y)
    ensures NoLt(x + y)
  {
  }

  /** The locations and priorities the generator writes hold no `<`. */
  lemma LocationsNoLt()
    ensures NoLt(BaseUrl + ArticlePath)
    ensures NoLt(BaseUrl + "/index.html") && NoLt(BaseUrl + "/blog.html")
    ensures NoLt("1.0") && NoLt("0.9") && NoLt("0.7") && NoLt("")
  {
    BaseUrlNoLt();
    ConcatNoLt(BaseUrl, ArticlePath);
    ConcatNoLt(BaseUrl, "/index.html");
    ConcatNoLt(BaseUrl, "/blog.html");
  }

  lemma BaseUrlNoLt()
    ensures NoLt(BaseUrl)
  {
  }

  lemma ArticleEntryPlain(a: Article, toIso: string -> Option<string>, nowIso: string)
    requires NoLt(FormatDate(a.date, toIso, nowIso))
    ensures Plain(ArticleEntry(a, toIso, nowIso))
  {
    LocationsNoLt();
    IdTextNoLt(a.id);
    ConcatNoLt(BaseUrl + ArticlePath, IdText(a.id));
  }

  /** The document is one `<urlset>` whose entries read back as exactly the
      entries: the static pages, then the published articles, with a date
      only where there is one. */
  lemma SitemapRoundTrip(articles: seq<Article>, toIso: string -> Option<string>, nowIso: string)
    requires forall i :: 0 <= i < |articles| ==> NoLt(FormatDate(articles[i].date, toIso, nowIso))
    ensures ReadSitemap(SitemapXml(articles, toIso, nowIso)) == Some(Entries(articles, toIso, nowIso))
  {
    var es := Entries(articles, toIso, nowIso);
    var published := Filter(IsPublished, articles);
    LocationsNoLt();
    forall i | 0 <= i < |es| ensures Plain(es[i]) {
      if i >= 2 {
        var a := published[i - 2];
        var j :| 0 <= j < |articles| && articles[j] == a;
        ArticleEntryPlain(a, toIso, nowIso);
      }
    }
    ReadUrlsRoundTrip(es);
    ReadSitemapOf(UrlsXml(es));
  }
}
