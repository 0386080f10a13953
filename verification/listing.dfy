/**
 * The article listing of js/blog.js: the category class of a card, the
 * search and tag filter, the page window and the pagination buttons, over
 * the page state `allArticles`, `filteredArticles` and `currentPage`.
 */
module Listing {
  import opened Text
  import opened Articles

  const PostsPerPage := 6

  // ----------------------------------------------------------------------
  // `getCategoryClass`.
  // ----------------------------------------------------------------------

  function GetCategoryClass(category: string): string
  {
    var c := Lower(category);
    if Contains(c, "react") then "category-react"
    else if Contains(c, "carreira") then "category-carreira"
    else if Contains(c, "ia") then "category-ia"
    else if Contains(c, "pwa") then "category-pwa"
    else "category-default"
  }

  /** The class depends on the category only up to the case of its letters,
      and the keys are tried in the order react, carreira, ia, pwa. */
  lemma CategoryClassRules(category: string)
    ensures GetCategoryClass(category) == GetCategoryClass(Lower(category))
    ensures Contains(Lower(category), "react") ==> GetCategoryClass(category) == "category-react"
    ensures !Contains(Lower(category), "react") && Contains(Lower(category), "carreira") ==>
      GetCategoryClass(category) == "category-carreira"
    ensures (!Contains(Lower(category), "react") && !Contains(Lower(category), "carreira")
             && Contains(Lower(category), "ia")) ==> GetCategoryClass(category) == "category-ia"
    ensures (!Contains(Lower(category), "react") && !Contains(Lower(category), "carreira")
             && !Contains(Lower(category), "ia") && Contains(Lower(category), "pwa")) ==>
      GetCategoryClass(category) == "category-pwa"
    ensures GetCategoryClass(category) == "category-default" <==>
      !Contains(Lower(category), "react") && !Contains(Lower(category), "carreira")
      && !Contains(Lower(category), "ia") && !Contains(Lower(category), "pwa")
  {
    LowerIdempotent(category);
  }

  /** A missing category gets the default class. */
  lemma CategoryClassMissing()
    ensures GetCategoryClass("") == "category-default"
  {
    assert !Contains("", "react") && !Contains("", "carreira") && !Contains("", "ia") && !Contains("", "pwa");
  }

  // ----------------------------------------------------------------------
  // The filter of `applyFilter`.
  // ----------------------------------------------------------------------

  /** `tags.some(t => t.includes(term))`. */
  function SomeContains(tags: seq<string>, term: string): (r: bool)
    ensures r <==> exists i :: 0 <= i < |tags| && Contains(tags[i], term)
  {
    if tags == [] then false
    else Contains(tags[0], term) || SomeContains(tags[1..], term)
  }

  /** The search condition: no term, or the term in the lower-cased title
      or in some lower-cased tag. */
  predicate MatchSearch(a: Article, term: string) {
    term == "" || Contains(Lower(a.title), term) || SomeContains(Map(Lower, a.tags), term)
  }

  /** The tag condition: no tag parameter, or a lower-cased tag equal to
      the lower-cased parameter. */
  predicate MatchTag(a: Article, tagParam: string) {
    tagParam == "" || Lower(tagParam) in Map(Lower, a.tags)
  }

  predicate Matches(a: Article, term: string, tagParam: string) {
    MatchSearch(a, term) && MatchTag(a, tagParam)
  }

  /** `allArticles.filter(…)`. */
  function FilterArticles(all: seq<Article>, term: string, tagParam: string): seq<Article>
  {
    Filter((a: Article) => Matches(a, term, tagParam), all)
  }

  /** The filtered list keeps the order of the articles, and keeps an
      article exactly when both conditions hold. */
  lemma FilterArticlesKeeps(all: seq<Article>, term: string, tagParam: string)
    ensures Subsequence(FilterArticles(all, term, tagParam), all)
    ensures forall a :: a in FilterArticles(all, term, tagParam) <==> a in all && Matches(a, term, tagParam)
  {
    var p := (a: Article) => Matches(a, term, tagParam);
    FilterSubsequence(p, all);
    FilterMembers(p, all);
  }

  /** With no term and no tag parameter the list is left whole. */
  lemma FilterArticlesNoCriteria(all: seq<Article>)
    ensures FilterArticles(all, "", "") == all
  {
    FilterAll((a: Article) => Matches(a, "", ""), all);
  }

  /** The tag parameter is compared without regard to the case of its
      letters. */
  lemma MatchTagIgnoresCase(a: Article, tagParam: string)
    ensures MatchTag(a, tagParam) == MatchTag(a, Lower(tagParam))
  {
    LowerIdempotent(tagParam);
    if tagParam != "" {
      assert Lower(tagParam) != "";
    } else {
      assert Lower(tagParam) == "";
    }
  }

  /** `(value || "").toLowerCase().trim()`. */
  function SearchTerm(searchValue: string): string
  {
    Trim(Lower(searchValue))
  }

  // ----------------------------------------------------------------------
  // Pages and the pagination buttons.
  // ----------------------------------------------------------------------

  /** `Math.ceil(n / 6)`. */
  function TotalPages(n: nat): (r: nat)
    ensures r * PostsPerPage >= n && (r == 0 || (r - 1) * PostsPerPage < n)
  {
    (n + PostsPerPage - 1) / PostsPerPage
  }

  function Min(a: int, b: int): int { if a < b then a else b }

  /** `list.slice(start, end)` for `0 <= start <= end`. */
  function Slice<T>(xs: seq<T>, start: nat, end: nat): (r: seq<T>)
    requires start <= end
  {
    if start >= |xs| then [] else xs[start..Min(end, |xs|)]
  }

  /** The articles shown on page `page`. */
  function PageSlice<T>(xs: seq<T>, page: nat): (r: seq<T>)
    requires page >= 1
    ensures |r| <= PostsPerPage
  {
    var start := (page - 1) * PostsPerPage;
    Slice(xs, start, start + PostsPerPage)
  }

  /** Pages 1 to `k`, one after the other. */
  function PagesUpTo<T>(xs: seq<T>, k: nat): seq<T>
  {
    if k == 0 then [] else PagesUpTo(xs, k - 1) + PageSlice(xs, k)
  }

  lemma {:induction false} PagesUpToPrefix<T>(xs: seq<T>, k: nat)
    ensures PagesUpTo(xs, k) == xs[..Min(k * PostsPerPage, |xs|)]
  {
    if k > 0 {
      PagesUpToPrefix(xs, k - 1);
      var start := (k - 1) * PostsPerPage;
      if start < |xs| {
        assert xs[..start] + xs[start..Min(start + PostsPerPage, |xs|)] == xs[..Min(k * PostsPerPage, |xs|)];
      }
    }
  }

  /** The pages 1 to `ceil(n / 6)` are all non-empty and together they are
      the list, each article on exactly one page, in order. */
  lemma PagesPartition<T>(xs: seq<T>)
    ensures PagesUpTo(xs, TotalPages(|xs|)) == xs
    ensures forall p :: 1 <= p <= TotalPages(|xs|) ==> 1 <= |PageSlice(xs, p)| <= PostsPerPage
  {
    PagesUpToPrefix(xs, TotalPages(|xs|));
  }

  datatype Button = Button(text: string, page: int, disabled: bool, active: bool)

  function PreviousButton(current: int): Button {
    Button("«", current - 1, current == 1, false)
  }

  function NextButton(current: int, total: int): Button {
    Button("»", current + 1, current == total, false)
  }

  function NumberButton(i: int, current: int): Button {
    Button(IntToString(i), i, false, i == current)
  }

  /** The numbered buttons 1 to `n`. */
  function NumberButtons(n: nat, current: int): (r: seq<Button>)
    ensures |r| == n
    ensures forall k :: 0 <= k < n ==> r[k] == NumberButton(k + 1, current)
  {
    if n == 0 then [] else NumberButtons(n - 1, current) + [NumberButton(n, current)]
  }

  /** The buttons `renderPagination` adds, in order. */
  function Pagination(current: int, total: int): seq<Button>
  {
    if total <= 1 then []
    else [PreviousButton(current)] + NumberButtons(total, current) + [NextButton(current, total)]
  }

  /** No buttons for a single page; otherwise « (disabled exactly on the
      first page), the pages 1 to `total` with exactly the current one
      active, and » (disabled exactly on the last page). */
  lemma PaginationRules(current: int, total: int)
    ensures total <= 1 ==> Pagination(current, total) == []
    ensures total > 1 ==> var b := Pagination(current, total);
      && |b| == total + 2
      && b[0].text == "«" && b[0].page == current - 1 && (b[0].disabled <==> current == 1)
      && b[total + 1].text == "»" && b[total + 1].page == current + 1 && (b[total + 1].disabled <==> current == total)
      && (forall k :: 1 <= k <= total ==> b[k].page == k && b[k].text == IntToString(k) && !b[k].disabled)
      && (forall k :: 0 <= k < |b| ==> (b[k].active <==> 1 <= k <= total && k == current))
  {
    if total > 1 {
      var b := Pagination(current, total);
      var nums := NumberButtons(total, current);
      assert b == [PreviousButton(current)] + nums + [NextButton(current, total)];
      assert forall k :: 1 <= k <= total ==> b[k] == nums[k - 1];
    }
  }

  /** An enabled button leads to one of the pages. */
  lemma EnabledButtonTarget(current: int, total: int, b: Button)
    requires 1 <= current && (current == 1 || current <= total)
    requires b in Pagination(current, total) && !b.disabled
    ensures 1 <= b.page <= total
  {
    PaginationRules(current, total);
    var bs := Pagination(current, total);
    var k :| 0 <= k < |bs| && bs[k] == b;
    assert 1 <= k <= total || k == 0 || k == total + 1;
  }

  // ----------------------------------------------------------------------
  // The page state.
  // ----------------------------------------------------------------------

  class BlogListing {
    var allArticles: seq<Article>
    var filteredArticles: seq<Article>
    var currentPage: int

    /** The current page is one of the pages, or 1 when there are none. */
    predicate Valid()
      reads this
    {
      1 <= currentPage && (currentPage == 1 || currentPage <= TotalPages(|filteredArticles|))
    }

    constructor ()
      ensures Valid() && allArticles == [] && filteredArticles == [] && currentPage == 1
    {
      allArticles := [];
      filteredArticles := [];
      currentPage := 1;
    }

    /** The `fetch` callback: the published articles, in the order of the
        file, then `applyFilter` with the current search box and tag. */
    method Load(data: seq<Article>, searchValue: string, tagParam: string)
      modifies this
      ensures Valid() && currentPage == 1
      ensures allArticles == Filter(IsPublished, data)
      ensures filteredArticles == FilterArticles(allArticles, SearchTerm(searchValue), tagParam)
    {
      allArticles := Filter(IsPublished, data);
      filteredArticles := allArticles;
      ApplyFilter(searchValue, tagParam);
    }

    /** `applyFilter`: the list filtered again and the first page shown. */
    method ApplyFilter(searchValue: string, tagParam: string)
      modifies this
      ensures Valid()
      ensures filteredArticles == FilterArticles(allArticles, SearchTerm(searchValue), tagParam)
      ensures currentPage == 1 && allArticles == old(allArticles)
    {
      filteredArticles := FilterArticles(allArticles, SearchTerm(searchValue), tagParam);
      currentPage := 1;
    }

    /** The slice `updateUI` renders. */
    function VisibleArticles(): (r: seq<Article>)
      reads this
      requires Valid()
      ensures |r| <= PostsPerPage
      ensures r == PageSlice(filteredArticles, currentPage)
    {
      PageSlice(filteredArticles, currentPage)
    }

    /** `renderPagination(Math.ceil(filteredArticles.length / 6))`. */
    method RenderPagination() returns (buttons: seq<Button>)
      ensures buttons == Pagination(currentPage, TotalPages(|filteredArticles|))
    {
      var total := TotalPages(|filteredArticles|);
      buttons := [];
      if total <= 1 {
        return;
      }
      buttons := [PreviousButton(currentPage)];
      var i := 1;
      while i <= total
        invariant 1 <= i <= total + 1
        invariant buttons == [PreviousButton(currentPage)] + NumberButtons(i - 1, currentPage)
      {
        buttons := buttons + [NumberButton(i, currentPage)];
        i := i + 1;
      }
      buttons := buttons + [NextButton(currentPage, total)];
    }

    /** The click handler of a button: the page changes only when the button
        is enabled and leads to another page. */
    method Click(b: Button)
      requires Valid() && b in Pagination(currentPage, TotalPages(|filteredArticles|))
      modifies this
      ensures Valid()
      ensures currentPage == if !b.disabled && old(currentPage) != b.page then b.page else old(currentPage)
      ensures allArticles == old(allArticles) && filteredArticles == old(filteredArticles)
    {
      if !b.disabled && currentPage != b.page {
        EnabledButtonTarget(currentPage, TotalPages(|filteredArticles|), b);
      }
      if !b.disabled && currentPage != b.page {
        currentPage := b.page;
      }
    }
  }
}
