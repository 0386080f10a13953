/**
 * One entry of `articles.json`, as the build script, the listing page, the
 * article page and the sitemap generator read it.  A text field that is
 * missing is the empty string; a missing cover dimension is 0, which is
 * falsy, so the article page replaces it by a default; a missing tag or
 * reference list is the empty list.  The empty string stands for a missing
 * field only where the scripts treat the two alike; README.md lists the
 * fields where they do not (`title` and `image`).
 */
module Articles {
  import opened Text

  datatype Article = Article(
    id: Option<int>,
    slug: string,
    title: string,
    author: string,
    date: string,
    tags: seq<string>,
    content: string,
    status: string,
    category: string,
    image: string,
    coverW: int,
    coverH: int,
    references: seq<string>)

  const Published := "published"

  predicate IsPublished(a: Article) {
    a.status == Published
  }

  /** `${article.id}` in a template literal. */
  function IdText(id: Option<int>): (r: string)
    ensures r != []
    ensures id.Some? ==> r == IntToString(id.value)
  {
    match id
    case None => "undefined"
    case Some(n) => IntToString(n)
  }
}
