/**
 * The regular expression `/<[^>]+>/` of build.js, used twice: `looksLikeHtml`
 * asks whether a tag occurs, and `createMetaDescription` replaces every tag
 * by a space.  A tag is a `<`, at least one character other than `>`, then
 * the first `>` after it.
 */
module Tags {
  import opened Text

  /** `s[i..j + 1]` is a tag. */
  predicate TagAt(s: string, i: int, j: int) {
    0 <= i && i + 2 <= j < |s| && s[i] == '<' && s[j] == '>'
    && forall k :: i < k < j ==> s[k] != '>'
  }

  /** The index of the first `>` at or after `k`. */
  function FirstClose(s: string, k: nat): (r: Option<nat>)
    requires k <= |s|
    ensures r.Some? ==> k <= r.value < |s| && s[r.value] == '>'
    ensures r.Some? ==> forall m :: k <= m < r.value ==> s[m] != '>'
    ensures r.None? ==> forall m :: k <= m < |s| ==> s[m] != '>'
    decreases |s| - k
  {
    if k == |s| then None
    else if s[k] == '>' then Some(k)
    else FirstClose(s, k + 1)
  }

  /** Where the tag starting at index 0 ends, if one starts there: the
      regular expression anchored at the first character. */
  function TagEnd(s: string): (r: Option<nat>)
    ensures r.Some? ==> TagAt(s, 0, r.value)
    ensures r.None? ==> forall j :: !TagAt(s, 0, j)
  {
    if |s| >= 2 && s[0] == '<' && s[1] != '>' then FirstClose(s, 2) else None
  }

  /** `/<[^>]+>/.test(s)`, as a left-to-right scan. */
  function HasTag(s: string): bool
    decreases |s|
  {
    if s == [] then false
    else TagEnd(s).Some? || HasTag(s[1..])
  }

  /** The scan finds a tag exactly when one occurs somewhere. */
  lemma {:induction false} HasTagIff(s: string)
    ensures HasTag(s) <==> exists i, j :: TagAt(s, i, j)
    decreases |s|
  {
    if s != [] {
      HasTagIff(s[1..]);
      forall i, j | TagAt(s[1..], i, j) ensures TagAt(s, i + 1, j + 1) {}
      forall i, j | TagAt(s, i, j) && i > 0 ensures TagAt(s[1..], i - 1, j - 1) {}
      if TagEnd(s).Some? {
        assert TagAt(s, 0, TagEnd(s).value);
      }
    }
  }

  /** A tag after a prefix is a tag of what follows the prefix. */
  lemma TagAtShift(c: string, rest: string, i: int, j: int)
    requires i >= |c| && TagAt(c + rest, i, j)
    ensures TagAt(rest, i - |c|, j - |c|)
  {
    forall k | i - |c| < k < j - |c| ensures rest[k] != '>' {
      assert rest[k] == (c + rest)[k + |c|];
    }
  }
}
