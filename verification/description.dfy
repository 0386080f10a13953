/**
 * `createMetaDescription` of build.js: the rendered article reduced to plain
 * text (script and style elements removed, every tag replaced by a space,
 * white space collapsed, the ends trimmed) and cut to at most 150
 * characters plus an ellipsis, preferably at a word boundary.
 */
module Description {
  import opened Text
  import Tags

  // ----------------------------------------------------------------------
  // `/<script[^>]*>[\s\S]*?<\/script>/gi` and the same for `style`.
  // ----------------------------------------------------------------------

  /** `p` (lower-case ASCII) occurs at `j`, ignoring the case of letters. */
  predicate OccursAtIgnoringCase(s: string, p: string, j: int) {
    0 <= j && j + |p| <= |s| && LowerMatches(s[j..j + |p|], p)
  }

  /** `x` lower-cased is `p`, compared one character at a time. */
  predicate LowerMatches(x: string, p: string)
    decreases |x|
  {
    |x| == |p| && (x == [] || (LowerChar(x[0]) == p[0] && LowerMatches(x[1..], p[1..])))
  }

  /** The first index at or after `k` where `p` occurs, ignoring case. */
  function FindIgnoringCase(s: string, p: string, k: nat): (r: Option<nat>)
    requires k <= |s|
    ensures r.Some? ==> k <= r.value && OccursAtIgnoringCase(s, p, r.value)
    ensures r.Some? ==> forall m :: k <= m < r.value ==> !OccursAtIgnoringCase(s, p, m)
    ensures r.None? ==> forall m :: k <= m ==> !OccursAtIgnoringCase(s, p, m)
    decreases |s| - k
  {
    if k + |p| > |s| then None
    else if OccursAtIgnoringCase(s, p, k) then Some(k)
    else FindIgnoringCase(s, p, k + 1)
  }

  /** A `>` at or after `from`, and `close` somewhere after that `>`. */
  ghost predicate GtThenClose(s: string, close: string, from: nat) {
    exists g, c :: from <= g < c && g < |s| && s[g] == '>' && OccursAtIgnoringCase(s, close, c)
  }

  /** Where an element opening at index 0 ends: `open`, the first `>`
      after it, then the nearest `close` after that, letters in any case. */
  function ElementEnd(s: string, open: string, close: string): (r: Option<nat>)
    ensures r.Some? ==> 0 < r.value <= |s|
    ensures r.Some? ==> OccursAtIgnoringCase(s, open, 0) && OccursAtIgnoringCase(s, close, r.value - |close|)
    ensures !OccursAtIgnoringCase(s, open, 0) ==> r.None?
  {
    if !OccursAtIgnoringCase(s, open, 0) then None
    else match Tags.FirstClose(s, |open|)
      case None => None
      case Some(g) =>
        match FindIgnoringCase(s, close, g + 1)
        case None => None
        case Some(c) => Some(c + |close|)
  }

  /** The element ends at the first `close` after the first `>` that
      follows `open`, and one is found exactly when `open`, a later `>` and
      a later `close` occur in that order. */
  lemma ElementEndFirstClose(s: string, open: string, close: string)
    ensures var r := ElementEnd(s, open, close);
      r.Some? ==> exists g ::
        && |open| <= g < r.value - |close| && s[g] == '>'
        && (forall k :: |open| <= k < g ==> s[k] != '>')
        && (forall m :: g < m < r.value - |close| ==> !OccursAtIgnoringCase(s, close, m))
    ensures ElementEnd(s, open, close).Some? <==> OccursAtIgnoringCase(s, open, 0) && GtThenClose(s, close, |open|)
  {
    if OccursAtIgnoringCase(s, open, 0) && GtThenClose(s, close, |open|) {
      var g, c :| |open| <= g < c && g < |s| && s[g] == '>' && OccursAtIgnoringCase(s, close, c);
      var g0 := Tags.FirstClose(s, |open|).value;
      assert g0 <= g;
    }
    var r := ElementEnd(s, open, close);
    if r.Some? {
      var g0 := Tags.FirstClose(s, |open|).value;
      assert s[g0] == '>' && g0 < r.value - |close|;
    }
  }

  /** Every element found left to right replaced by one space. */
  function StripElements(s: string, open: string, close: string): (r: string)
    ensures |r| <= |s|
    decreases |s|
  {
    if s == [] then []
    else match ElementEnd(s, open, close)
      case Some(e) => " " + StripElements(s[e..], open, close)
      case None => [s[0]] + StripElements(s[1..], open, close)
  }

  /** Text in which the opening word never occurs is left as it is. */
  lemma {:induction false} StripElementsAbsent(s: string, open: string, close: string)
    requires forall j :: !OccursAtIgnoringCase(s, open, j)
    ensures StripElements(s, open, close) == s
    decreases |s|
  {
    if s != [] {
      forall j ensures !OccursAtIgnoringCase(s[1..], open, j) {
        assert !OccursAtIgnoringCase(s, open, j + 1);
        if 0 <= j && j + |open| <= |s| - 1 {
          assert s[1..][j..j + |open|] == s[j + 1..j + 1 + |open|];
        }
      }
      StripElementsAbsent(s[1..], open, close);
    }
  }

  /** An occurrence of a word that starts with `<` starts at a `<`: changing
      the case of a letter never yields `<`. */
  lemma OccursAtLt(s: string, p: string, j: int)
    requires p != [] && p[0] == '<'
    ensures OccursAtIgnoringCase(s, p, j) ==> s[j] == '<'
  {
    if OccursAtIgnoringCase(s, p, j) {
      assert s[j..j + |p|][0] == s[j];
    }
  }

  /** The same for every index at once. */
  lemma OccursAtLtEverywhere(s: string, p: string)
    requires p != [] && p[0] == '<'
    ensures forall j :: OccursAtIgnoringCase(s, p, j) ==> s[j] == '<'
  {
    forall j | OccursAtIgnoringCase(s, p, j)
      ensures s[j] == '<'
    {
      OccursAtLt(s, p, j);
    }
  }

  /** Text before the first `<` is kept exactly as it is. */
  lemma {:induction false} StripElementsKeepsPrefix(x: string, y: string, open: string, close: string)
    requires NoLt(x) && open != [] && open[0] == '<'
    ensures StripElements(x + y, open, close) == x + StripElements(y, open, close)
    decreases |x|
  {
    if x == [] {
      assert x + y == y;
    } else {
      var s := x + y;
      assert s[0] == x[0] && s[1..] == x[1..] + y;
      NoElementAtOther(s, open, close);
      assert StripElements(s, open, close) == [x[0]] + StripElements(x[1..] + y, open, close);
      StripElementsKeepsPrefix(x[1..], y, open, close);
      Assoc([x[0]], x[1..], StripElements(y, open, close));
      assert [x[0]] + x[1..] == x;
    }
  }

  /** No element starts at a character other than `<`. */
  lemma NoElementAtOther(s: string, open: string, close: string)
    requires s != [] && s[0] != '<' && open != [] && open[0] == '<'
    ensures ElementEnd(s, open, close).None?
  {
    OccursAtLt(s, open, 0);
  }

  /** A whole element becomes exactly one space, and the text after it is
      stripped on: the opening word `o`, attributes `a` up to the first `>`,
      a body `b`, and the first closing word `cl` that starts after that `>`. */
  lemma StripElementsElement(o: string, a: string, b: string, cl: string, y: string, open: string, close: string)
    requires LowerMatches(o, open) && NoClose(a) && LowerMatches(cl, close)
    requires forall m :: 0 <= m < |b| ==> !OccursAtIgnoringCase(b + cl, close, m)
    ensures StripElements(o + a + ">" + b + cl + y, open, close) == " " + StripElements(y, open, close)
  {
    var s := o + a + ">" + b + cl + y;
    ElementOfParts(o, a, b, cl, y, open, close);
    assert s[|o| + |a| + 1 + |b| + |close|..] == y;
  }

  /** Text without `<` holds no element and is left as it is. */
  lemma StripElementsNoLt(s: string, open: string, close: string)
    requires NoLt(s) && open != [] && open[0] == '<'
    ensures StripElements(s, open, close) == s
  {
    StripElementsKeepsPrefix(s, [], open, close);
    assert s + [] == s;
  }

  /** A `<` that has no other `<` after it cannot open an element: the
      closing word would have to start with a later `<`. */
  lemma ElementAbsentHead(rest: string, open: string, close: string)
    requires NoLt(rest) && close != [] && close[0] == '<'
    ensures ElementEnd("<" + rest, open, close).None?
  {
    var s := "<" + rest;
    ElementEndFirstClose(s, open, close);
    OccursAtLtEverywhere(s, close);
    assert forall k :: 1 <= k < |s| ==> s[k] == rest[k - 1];
  }

  /** Text whose only `<` opens no element is left as it is. */
  lemma StripElementsLoneLt(x: string, rest: string, open: string, close: string)
    requires NoLt(x) && NoLt(rest)
    requires open != [] && open[0] == '<' && close != [] && close[0] == '<'
    ensures StripElements(x + ("<" + rest), open, close) == x + ("<" + rest)
  {
    var t := "<" + rest;
    StripElementsKeepsPrefix(x, t, open, close);
    ElementAbsentHead(rest, open, close);
    assert t[1..] == rest;
    StripElementsNoLt(rest, open, close);
  }

  lemma ElementOfParts(o: string, a: string, b: string, cl: string, y: string, open: string, close: string)
    requires LowerMatches(o, open) && NoClose(a) && LowerMatches(cl, close)
    requires forall m :: 0 <= m < |b| ==> !OccursAtIgnoringCase(b + cl, close, m)
    ensures ElementEnd(o + a + ">" + b + cl + y, open, close) == Some(|o| + |a| + 1 + |b| + |close|)
  {
    assert |o| == |open| && |o + a + ">"| == |o| + |a| + 1;
    OpenOfParts(o, a, b, cl, y, open);
    GtOfParts(o, a, b, cl, y);
    CloseOfParts(o + a + ">", b, cl, y, close);
  }

  lemma OpenOfParts(o: string, a: string, b: string, cl: string, y: string, open: string)
    requires LowerMatches(o, open)
    ensures OccursAtIgnoringCase(o + a + ">" + b + cl + y, open, 0)
  {
    assert (o + a + ">" + b + cl + y)[..|o|] == o;
  }

  lemma GtOfParts(o: string, a: string, b: string, cl: string, y: string)
    requires NoClose(a)
    ensures Tags.FirstClose(o + a + ">" + b + cl + y, |o|) == Some(|o| + |a|)
  {
    var s := o + a + ">" + b + cl + y;
    assert s[|o| + |a|] == '>';
    assert forall m :: |o| <= m < |o| + |a| ==> s[m] == a[m - |o|];
  }

  lemma CloseOfParts(h: string, b: string, cl: string, y: string, close: string)
    requires LowerMatches(cl, close)
    requires forall m :: 0 <= m < |b| ==> !OccursAtIgnoringCase(b + cl, close, m)
    ensures FindIgnoringCase(h + b + cl + y, close, |h|) == Some(|h| + |b|)
  {
    CloseAfterBody(h, b, cl, y, close);
    NoCloseInBody(h, b, cl, y, close);
    FindIgnoringCaseAt(h + b + cl + y, close, |h|, |h| + |b|);
  }

  lemma CloseAfterBody(h: string, b: string, cl: string, y: string, close: string)
    requires LowerMatches(cl, close)
    ensures OccursAtIgnoringCase(h + b + cl + y, close, |h| + |b|)
  {
    Assoc(h, b, cl);
    assert OccursAtIgnoringCase(b + cl, close, |b|) by {
      assert (b + cl)[|b|..|b| + |close|] == cl;
    }
    OccursBehind(h, b + cl, close, |b|);
    OccursInFront(h + b + cl, y, close, |h| + |b|);
  }

  lemma NoCloseInBody(h: string, b: string, cl: string, y: string, close: string)
    requires |cl| == |close|
    requires forall m :: 0 <= m < |b| ==> !OccursAtIgnoringCase(b + cl, close, m)
    ensures forall m :: |h| <= m < |h| + |b| ==> !OccursAtIgnoringCase(h + b + cl + y, close, m)
  {
    Assoc(h, b, cl);
    forall m | |h| <= m < |h| + |b|
      ensures !OccursAtIgnoringCase(h + b + cl + y, close, m)
    {
      OccursInFront(h + b + cl, y, close, m);
      OccursBehind(h, b + cl, close, m - |h|);
    }
  }

  /** The search from `k` finds `c` when `c` is the first occurrence from `k`. */
  lemma FindIgnoringCaseAt(s: string, p: string, k: nat, c: nat)
    requires k <= c && OccursAtIgnoringCase(s, p, c)
    requires forall m :: k <= m < c ==> !OccursAtIgnoringCase(s, p, m)
    ensures FindIgnoringCase(s, p, k) == Some(c)
  {
  }

  /** An occurrence that fits in `t` is one in `t + z`, and the other way. */
  lemma OccursInFront(t: string, z: string, p: string, m: int)
    requires 0 <= m && m + |p| <= |t|
    ensures OccursAtIgnoringCase(t + z, p, m) <==> OccursAtIgnoringCase(t, p, m)
  {
    assert (t + z)[m..m + |p|] == t[m..m + |p|];
  }

  /** An occurrence in `t` is one in `h + t`, shifted by `|h|`. */
  lemma OccursBehind(h: string, t: string, p: string, m: int)
    requires 0 <= m
    ensures OccursAtIgnoringCase(h + t, p, |h| + m) <==> OccursAtIgnoringCase(t, p, m)
  {
    if m + |p| <= |t| {
      assert (h + t)[|h| + m..|h| + m + |p|] == t[m..m + |p|];
    }
  }

  /** No element of the kind `open` … `close` starts at any index. */
  ghost predicate NoElementIn(s: string, open: string, close: string) {
    forall j :: 0 <= j < |s| ==> ElementEnd(s[j..], open, close).None?
  }

  /** No element is left anywhere in the result: the `g` flag removes every
      one, and the space put in an element's place cannot help a new one
      form. */
  lemma StripElementsRemovesAll(s: string, open: string, close: string)
    requires Spaceless(open) && Spaceless(close)
    ensures NoElementIn(StripElements(s, open, close), open, close)
  {
    forall j | 0 <= j < |StripElements(s, open, close)|
      ensures ElementEnd(StripElements(s, open, close)[j..], open, close).None?
    {
      NoElementAfterStrip(s, open, close, j);
    }
  }

  lemma {:induction false} NoElementAfterStrip(s: string, open: string, close: string, j: nat)
    requires Spaceless(open) && Spaceless(close) && j < |StripElements(s, open, close)|
    ensures ElementEnd(StripElements(s, open, close)[j..], open, close).None?
    decreases |s|, 1
  {
    if ElementEnd(s, open, close).Some? {
      NoElementAfterSkipped(s, open, close, j);
    } else {
      NoElementAfterKept(s, open, close, j);
    }
  }

  lemma {:induction false} NoElementAfterSkipped(s: string, open: string, close: string, j: nat)
    requires Spaceless(open) && Spaceless(close) && j < |StripElements(s, open, close)|
    requires ElementEnd(s, open, close).Some?
    ensures ElementEnd(StripElements(s, open, close)[j..], open, close).None?
    decreases |s|, 0
  {
    var r := StripElements(s, open, close);
    var e := ElementEnd(s, open, close).value;
    var rest := StripElements(s[e..], open, close);
    assert r == " " + rest;
    if j == 0 {
      assert r[0..] == r;
      SpaceOpensNothing(r, open);
    } else {
      NoElementAfterStrip(s[e..], open, close, j - 1);
      assert r[j..] == rest[j - 1..];
    }
  }

  lemma {:induction false} NoElementAfterKept(s: string, open: string, close: string, j: nat)
    requires Spaceless(open) && Spaceless(close) && j < |StripElements(s, open, close)|
    requires ElementEnd(s, open, close).None?
    ensures ElementEnd(StripElements(s, open, close)[j..], open, close).None?
    decreases |s|, 0
  {
    var r := StripElements(s, open, close);
    var rest := StripElements(s[1..], open, close);
    assert r == [s[0]] + rest;
    if j == 0 {
      assert r[0..] == r && [s[0]] + s[1..] == s;
      if ElementEnd(r, open, close).Some? {
        ElementReflect(s[0], s[1..], open, close, open, close);
      }
    } else {
      NoElementAfterStrip(s[1..], open, close, j - 1);
      assert r[j..] == rest[j - 1..];
    }
  }

  /** Removing one kind of element cannot make an element of another kind
      appear, so the style pass keeps the script pass's result. */
  lemma StripElementsKeepsAbsent(s: string, open: string, close: string, open2: string, close2: string)
    requires Spaceless(open2) && Spaceless(close2) && NoElementIn(s, open2, close2)
    ensures NoElementIn(StripElements(s, open, close), open2, close2)
  {
    forall j | 0 <= j < |StripElements(s, open, close)|
      ensures ElementEnd(StripElements(s, open, close)[j..], open2, close2).None?
    {
      NoElementKeptAfterStrip(s, open, close, open2, close2, j);
    }
  }

  lemma NoElementInSuffix(s: string, k: nat, open: string, close: string)
    requires k <= |s| && NoElementIn(s, open, close)
    ensures NoElementIn(s[k..], open, close)
  {
    forall j | 0 <= j < |s| - k ensures ElementEnd(s[k..][j..], open, close).None? {
      assert s[k..][j..] == s[k + j..];
    }
  }

  lemma {:induction false} NoElementKeptAfterStrip(s: string, open: string, close: string, open2: string, close2: string, j: nat)
    requires Spaceless(open2) && Spaceless(close2) && NoElementIn(s, open2, close2)
    requires j < |StripElements(s, open, close)|
    ensures ElementEnd(StripElements(s, open, close)[j..], open2, close2).None?
    decreases |s|, 1
  {
    if ElementEnd(s, open, close).Some? {
      NoElementKeptSkipped(s, open, close, open2, close2, j);
    } else {
      NoElementKeptKept(s, open, close, open2, close2, j);
    }
  }

  lemma {:induction false} NoElementKeptSkipped(s: string, open: string, close: string, open2: string, close2: string, j: nat)
    requires Spaceless(open2) && Spaceless(close2) && NoElementIn(s, open2, close2)
    requires ElementEnd(s, open, close).Some? && j < |StripElements(s, open, close)|
    ensures ElementEnd(StripElements(s, open, close)[j..], open2, close2).None?
    decreases |s|, 0
  {
    var r := StripElements(s, open, close);
    var e := ElementEnd(s, open, close).value;
    var rest := StripElements(s[e..], open, close);
    assert r == " " + rest;
    if j == 0 {
      assert r[0..] == r;
      SpaceOpensNothing(r, open2);
    } else {
      NoElementInSuffix(s, e, open2, close2);
      NoElementKeptAfterStrip(s[e..], open, close, open2, close2, j - 1);
      assert r[j..] == rest[j - 1..];
    }
  }

  lemma {:induction false} NoElementKeptKept(s: string, open: string, close: string, open2: string, close2: string, j: nat)
    requires Spaceless(open2) && Spaceless(close2) && NoElementIn(s, open2, close2)
    requires ElementEnd(s, open, close).None? && j < |StripElements(s, open, close)|
    ensures ElementEnd(StripElements(s, open, close)[j..], open2, close2).None?
    decreases |s|, 0
  {
    var r := StripElements(s, open, close);
    assert s != [];
    var rest := StripElements(s[1..], open, close);
    assert r == [s[0]] + rest;
    if j == 0 {
      assert r[0..] == r && [s[0]] + s[1..] == s && s[0..] == s;
      assert ElementEnd(s[0..], open2, close2).None?;
      if ElementEnd(r, open2, close2).Some? {
        ElementReflect(s[0], s[1..], open, close, open2, close2);
      }
    } else {
      NoElementInSuffix(s, 1, open2, close2);
      NoElementKeptAfterStrip(s[1..], open, close, open2, close2, j - 1);
      assert r[j..] == rest[j - 1..];
    }
  }

  /** After both passes of build.js no script and no style element is left. */
  lemma NoScriptOrStyleLeft(html: string)
    ensures var r := StripElements(StripElements(html, "<script", "</script>"), "<style", "</style>");
      NoElementIn(r, "<script", "</script>") && NoElementIn(r, "<style", "</style>")
  {
    var s1 := StripElements(html, "<script", "</script>");
    SpacelessTags();
    StripElementsRemovesAll(html, "<script", "</script>");
    StripElementsKeepsAbsent(s1, "<style", "</style>", "<script", "</script>");
    StripElementsRemovesAll(s1, "<style", "</style>");
  }

  lemma SpacelessTags()
    ensures Spaceless("<script") && Spaceless("</script>") && Spaceless("<style") && Spaceless("</style>")
  {
  }

  /** A non-empty word without a space. */
  predicate Spaceless(w: string) {
    w != [] && forall i :: 0 <= i < |w| ==> w[i] != ' '
  }

  predicate NoSpace(x: string) {
    forall i :: 0 <= i < |x| ==> x[i] != ' '
  }

  /** Text whose lower-cased form has no space has none either. */
  lemma {:induction false} LowerNoSpace(x: string, p: string)
    requires LowerMatches(x, p) && NoSpace(p)
    ensures NoSpace(x)
    decreases |x|
  {
    if x != [] {
      LowerNoSpace(x[1..], p[1..]);
      assert forall i :: 1 <= i < |x| ==> x[i] == x[1..][i - 1];
    }
  }

  /** Text starting with a space cannot start an element. */
  lemma SpaceOpensNothing(r: string, open: string)
    requires Spaceless(open) && r != [] && r[0] == ' '
    ensures !OccursAtIgnoringCase(r, open, 0)
  {
  }

  /** A stretch of the result without a space at its front is the input's
      own front: nothing was removed there yet. */
  lemma {:induction false} StripPrefixNoSpace(t: string, open: string, close: string, k: nat)
    requires k <= |StripElements(t, open, close)| && NoSpace(StripElements(t, open, close)[..k])
    ensures k <= |t| && StripElements(t, open, close)[..k] == t[..k]
    decreases |t|
  {
    var r := StripElements(t, open, close);
    if k > 0 {
      assert r[..k][0] == r[0];
      match ElementEnd(t, open, close)
      case Some(e) =>
        assert false;
      case None =>
        var rest := StripElements(t[1..], open, close);
        assert r == [t[0]] + rest;
        assert rest[..k - 1] == r[..k][1..];
        StripPrefixNoSpace(t[1..], open, close, k - 1);
        assert r[..k] == [t[0]] + rest[..k - 1];
        assert t[..k] == [t[0]] + t[1..][..k - 1];
    }
  }

  /** `p` at `m` of `s[k..]` is `p` at `m + k` of `s`. */
  lemma OccursShift(s: string, k: nat, p: string, m: int)
    requires k <= |s|
    ensures OccursAtIgnoringCase(s[k..], p, m) <==> 0 <= m && OccursAtIgnoringCase(s, p, m + k)
  {
    if 0 <= m && m + |p| <= |s| - k {
      assert s[k..][m..m + |p|] == s[m + k..m + k + |p|];
    }
  }

  /** A `>` followed by `close` in `s[k..]` is one in `s`, shifted by `k`. */
  lemma GtThenCloseShift(s: string, k: nat, close: string, a: nat)
    requires k <= |s|
    ensures GtThenClose(s[k..], close, a) ==> GtThenClose(s, close, a + k)
    ensures GtThenClose(s, close, a + k) ==> GtThenClose(s[k..], close, a)
  {
    if GtThenClose(s[k..], close, a) {
      GtThenCloseFromSuffix(s, k, close, a);
    }
    if GtThenClose(s, close, a + k) {
      GtThenCloseToSuffix(s, k, close, a);
    }
  }

  lemma GtThenCloseFromSuffix(s: string, k: nat, close: string, a: nat)
    requires k <= |s| && GtThenClose(s[k..], close, a)
    ensures GtThenClose(s, close, a + k)
  {
    var g, c :| a <= g < c && g < |s[k..]| && s[k..][g] == '>' && OccursAtIgnoringCase(s[k..], close, c);
    OccursShift(s, k, close, c);
    assert s[g + k] == '>';
  }

  lemma GtThenCloseToSuffix(s: string, k: nat, close: string, a: nat)
    requires k <= |s| && GtThenClose(s, close, a + k)
    ensures GtThenClose(s[k..], close, a)
  {
    var g, c :| a + k <= g < c && g < |s| && s[g] == '>' && OccursAtIgnoringCase(s, close, c);
    OccursShift(s, k, close, c - k);
    assert s[k..][g - k] == '>';
  }

  /** A word without a space found in the result is found in the input, at
      the same index or later. */
  lemma {:induction false} StripOccurs(t: string, open: string, close: string, p: string, m: int)
    requires Spaceless(p) && OccursAtIgnoringCase(StripElements(t, open, close), p, m)
    ensures exists m' :: m <= m' && OccursAtIgnoringCase(t, p, m')
    decreases |t|, 1
  {
    if m == 0 {
      StripOccursFront(t, open, close, p);
    } else if ElementEnd(t, open, close).Some? {
      StripOccursSkipped(t, open, close, p, m);
    } else {
      StripOccursKept(t, open, close, p, m);
    }
  }

  lemma StripOccursFront(t: string, open: string, close: string, p: string)
    requires Spaceless(p) && OccursAtIgnoringCase(StripElements(t, open, close), p, 0)
    ensures OccursAtIgnoringCase(t, p, 0)
  {
    var r := StripElements(t, open, close);
    LowerNoSpace(r[..|p|], p);
    StripPrefixNoSpace(t, open, close, |p|);
  }

  lemma {:induction false} StripOccursSkipped(t: string, open: string, close: string, p: string, m: int)
    requires Spaceless(p) && m >= 1 && t != [] && ElementEnd(t, open, close).Some?
    requires OccursAtIgnoringCase(StripElements(t, open, close), p, m)
    ensures exists m' :: m <= m' && OccursAtIgnoringCase(t, p, m')
    decreases |t|, 0
  {
    var e := ElementEnd(t, open, close).value;
    var r := StripElements(t, open, close);
    var rest := StripElements(t[e..], open, close);
    assert r == " " + rest && rest == r[1..];
    OccursShift(r, 1, p, m - 1);
    StripOccurs(t[e..], open, close, p, m - 1);
    var m2 :| m - 1 <= m2 && OccursAtIgnoringCase(t[e..], p, m2);
    OccursShift(t, e, p, m2);
  }

  lemma {:induction false} StripOccursKept(t: string, open: string, close: string, p: string, m: int)
    requires Spaceless(p) && m >= 1 && t != [] && ElementEnd(t, open, close).None?
    requires OccursAtIgnoringCase(StripElements(t, open, close), p, m)
    ensures exists m' :: m <= m' && OccursAtIgnoringCase(t, p, m')
    decreases |t|, 0
  {
    var r := StripElements(t, open, close);
    var rest := StripElements(t[1..], open, close);
    assert r == [t[0]] + rest && rest == r[1..];
    OccursShift(r, 1, p, m - 1);
    StripOccurs(t[1..], open, close, p, m - 1);
    var m2 :| m - 1 <= m2 && OccursAtIgnoringCase(t[1..], p, m2);
    OccursShift(t, 1, p, m2);
  }

  /** A `>` then `close` in the result are a `>` then `close` in the input,
      at the same index or later. */
  lemma {:induction false} StripGtThenClose(t: string, open: string, close: string, close2: string, a: nat)
    requires Spaceless(close2) && GtThenClose(StripElements(t, open, close), close2, a)
    ensures GtThenClose(t, close2, a)
    decreases |t|, 1
  {
    if t == [] {
    } else if ElementEnd(t, open, close).Some? {
      GtThenCloseSkipped(t, open, close, close2, a);
    } else {
      GtThenCloseKept(t, open, close, close2, a);
    }
  }

  lemma {:induction false} GtThenCloseSkipped(t: string, open: string, close: string, close2: string, a: nat)
    requires Spaceless(close2) && t != [] && ElementEnd(t, open, close).Some?
    requires GtThenClose(StripElements(t, open, close), close2, a)
    ensures GtThenClose(t, close2, a)
    decreases |t|, 0
  {
    var e := ElementEnd(t, open, close).value;
    var r := StripElements(t, open, close);
    var rest := StripElements(t[e..], open, close);
    assert r == " " + rest && rest == r[1..];
    var a' := if a < 1 then 0 else a - 1;
    GtThenCloseDropFirst(r, close2, a);
    StripGtThenClose(t[e..], open, close, close2, a');
    GtThenCloseShift(t, e, close2, a');
  }

  /** A first character that is not `>` plays no part in a `>` then
      `close`. */
  lemma GtThenCloseDropFirst(r: string, close2: string, a: nat)
    requires r != [] && r[0] != '>' && GtThenClose(r, close2, a)
    ensures GtThenClose(r[1..], close2, if a < 1 then 0 else a - 1)
  {
    var a' := if a < 1 then 0 else a - 1;
    var g, c :| a <= g < c && g < |r| && r[g] == '>' && OccursAtIgnoringCase(r, close2, c);
    assert GtThenClose(r, close2, a' + 1) by {
      assert a' + 1 <= g;
    }
    GtThenCloseShift(r, 1, close2, a');
  }

  lemma {:induction false} GtThenCloseKept(t: string, open: string, close: string, close2: string, a: nat)
    requires Spaceless(close2) && t != [] && ElementEnd(t, open, close).None?
    requires GtThenClose(StripElements(t, open, close), close2, a)
    ensures GtThenClose(t, close2, a)
    decreases |t|, 0
  {
    var r := StripElements(t, open, close);
    var rest := StripElements(t[1..], open, close);
    assert r == [t[0]] + rest && rest == r[1..];
    var a' := if a < 1 then 0 else a - 1;
    if GtThenClose(r, close2, a' + 1) {
      GtThenCloseToSuffix(r, 1, close2, a');
      StripGtThenClose(t[1..], open, close, close2, a');
      GtThenCloseFromSuffix(t, 1, close2, a');
    } else {
      var g, c :| a <= g < c && g < |r| && r[g] == '>' && OccursAtIgnoringCase(r, close2, c);
      assert g == 0;
      LeadingGtThenClose(t, open, close, close2, c);
    }
  }

  /** A kept `>` at the front, and `close` later in the result. */
  lemma LeadingGtThenClose(t: string, open: string, close: string, close2: string, c: int)
    requires Spaceless(close2) && t != [] && ElementEnd(t, open, close).None?
    requires StripElements(t, open, close)[0] == '>' && c >= 1
    requires OccursAtIgnoringCase(StripElements(t, open, close), close2, c)
    ensures GtThenClose(t, close2, 0)
  {
    var r := StripElements(t, open, close);
    var rest := StripElements(t[1..], open, close);
    assert r == [t[0]] + rest && rest == r[1..];
    OccursShift(r, 1, close2, c - 1);
    StripOccurs(t[1..], open, close, close2, c - 1);
    var m :| c - 1 <= m && OccursAtIgnoringCase(t[1..], close2, m);
    OccursShift(t, 1, close2, m);
    assert t[0] == '>';
  }

  /** An element at the front of a kept character and the rest of the
      result was already an element at the front of that character and the
      rest of the input. */
  lemma ElementReflect(c0: char, t: string, open: string, close: string, open2: string, close2: string)
    requires Spaceless(open2) && Spaceless(close2)
    requires ElementEnd([c0] + StripElements(t, open, close), open2, close2).Some?
    ensures ElementEnd([c0] + t, open2, close2).Some?
  {
    ElementEndFirstClose([c0] + StripElements(t, open, close), open2, close2);
    OpenReflect(c0, t, open, close, open2);
    GtThenCloseReflect(c0, t, open, close, close2, |open2|);
    ElementEndFirstClose([c0] + t, open2, close2);
  }

  /** The opening word at the front of a kept character and the result. */
  lemma OpenReflect(c0: char, t: string, open: string, close: string, open2: string)
    requires Spaceless(open2) && OccursAtIgnoringCase([c0] + StripElements(t, open, close), open2, 0)
    ensures OccursAtIgnoringCase([c0] + t, open2, 0)
  {
    var rest := StripElements(t, open, close);
    var r := [c0] + rest;
    var k := |open2|;
    LowerNoSpace(r[..k], open2);
    assert rest[..k - 1] == r[..k][1..];
    StripPrefixNoSpace(t, open, close, k - 1);
    assert ([c0] + t)[..k] == [c0] + t[..k - 1] == r[..k];
  }

  /** A `>` then `close` after a kept character and the result. */
  lemma GtThenCloseReflect(c0: char, t: string, open: string, close: string, close2: string, a: nat)
    requires Spaceless(close2) && a >= 1 && GtThenClose([c0] + StripElements(t, open, close), close2, a)
    ensures GtThenClose([c0] + t, close2, a)
  {
    var rest := StripElements(t, open, close);
    assert rest == ([c0] + rest)[1..] && t == ([c0] + t)[1..];
    GtThenCloseShift([c0] + rest, 1, close2, a - 1);
    StripGtThenClose(t, open, close, close2, a - 1);
    GtThenCloseShift([c0] + t, 1, close2, a - 1);
  }

  // ----------------------------------------------------------------------
  // `/<[^>]+>/g` replaced by a space.
  // ----------------------------------------------------------------------

  function StripTags(s: string): (r: string)
    ensures |r| <= |s|
    decreases |s|
  {
    if s == [] then []
    else match Tags.TagEnd(s)
      case Some(j) => " " + StripTags(s[j + 1..])
      case None => [s[0]] + StripTags(s[1..])
  }

  predicate NoClose(s: string) {
    forall k :: 0 <= k < |s| ==> s[k] != '>'
  }

  /** Without a `>` there is no tag, and nothing is replaced. */
  lemma {:induction false} StripTagsNoClose(s: string)
    requires NoClose(s)
    ensures StripTags(s) == s
    decreases |s|
  {
    if s != [] {
      StripTagsNoClose(s[1..]);
    }
  }

  /** A leading `>` is kept. */
  lemma StripTagsHeadClose(s: string)
    requires s != [] && s[0] == '>'
    ensures StripTags(s) != [] && StripTags(s)[0] == '>'
  {
  }

  /** No tag is left after the replacement. */
  lemma {:induction false} StripTagsNoTag(s: string)
    ensures forall i, j :: !Tags.TagAt(StripTags(s), i, j)
    decreases |s|
  {
    if s != [] {
      var r := StripTags(s);
      match Tags.TagEnd(s)
      case Some(e) =>
        var rest := StripTags(s[e + 1..]);
        StripTagsNoTag(s[e + 1..]);
        assert r == " " + rest;
        forall i, j ensures !Tags.TagAt(r, i, j) {
          if i >= 1 && Tags.TagAt(r, i, j) {
            Tags.TagAtShift(" ", rest, i, j);
          }
        }
      case None =>
        var rest := StripTags(s[1..]);
        StripTagsNoTag(s[1..]);
        assert r == [s[0]] + rest;
        forall i, j ensures !Tags.TagAt(r, i, j) {
          if i >= 1 && Tags.TagAt(r, i, j) {
            Tags.TagAtShift([s[0]], rest, i, j);
          } else if i == 0 && Tags.TagAt(r, i, j) {
            NoTagAtHead(s, rest, j);
          }
        }
    }
  }

  /** Text before the first `<` is kept exactly as it is. */
  lemma {:induction false} StripTagsKeepsPrefix(x: string, y: string)
    requires NoLt(x)
    ensures StripTags(x + y) == x + StripTags(y)
    decreases |x|
  {
    if x == [] {
      assert x + y == y;
    } else {
      var s := x + y;
      assert s[0] == x[0] && s[1..] == x[1..] + y;
      assert StripTags(s) == [x[0]] + StripTags(x[1..] + y);
      StripTagsKeepsPrefix(x[1..], y);
      Assoc([x[0]], x[1..], StripTags(y));
      assert [x[0]] + x[1..] == x;
    }
  }

  /** A whole tag, `<`, at least one character other than `>`, then `>`,
      becomes exactly one space, and the text after it is stripped on. */
  lemma StripTagsTag(m: string, y: string)
    requires m != [] && NoClose(m)
    ensures StripTags("<" + m + ">" + y) == " " + StripTags(y)
  {
    var s := "<" + m + ">" + y;
    var j := |m| + 1;
    assert s[1] == m[0] && s[j] == '>';
    assert forall k :: 1 <= k < j ==> s[k] == m[k - 1];
    assert Tags.TagEnd(s) == Some(j);
    assert s[j + 1..] == y;
  }

  /** Text without `<` holds no tag and is left as it is. */
  lemma StripTagsNoLt(s: string)
    requires NoLt(s)
    ensures StripTags(s) == s
  {
    StripTagsKeepsPrefix(s, []);
    assert s + [] == s;
  }

  /** The character kept at the front cannot open a tag in the output. */
  lemma NoTagAtHead(s: string, rest: string, j: int)
    requires s != [] && Tags.TagEnd(s).None? && rest == StripTags(s[1..])
    ensures !Tags.TagAt([s[0]] + rest, 0, j)
  {
    var r := [s[0]] + rest;
    if |s| < 2 {
      assert s[1..] == [];
    } else if s[0] == '<' && s[1] == '>' {
      StripTagsHeadClose(s[1..]);
      assert r[1] == '>';
    } else if s[0] == '<' {
      assert NoClose(s[1..]) by {
        forall k | 0 <= k < |s| - 1 ensures s[1..][k] != '>' {
          if k >= 1 { assert s[k + 1] != '>'; }
        }
      }
      StripTagsNoClose(s[1..]);
      assert r == s;
    }
  }

  // ----------------------------------------------------------------------
  // `/\s+/g` replaced by a single space, then `trim`.
  // ----------------------------------------------------------------------

  /** Every white character is a plain space and no two are adjacent. */
  predicate SingleSpaced(s: string) {
    forall i :: 0 <= i < |s| && IsWhite(s[i]) ==> s[i] == ' ' && (i + 1 < |s| ==> !IsWhite(s[i + 1]))
  }

  /** The characters that are not white space, in order. */
  function Visible(s: string): string
  {
    if s == [] then [] else (if IsWhite(s[0]) then [] else [s[0]]) + Visible(s[1..])
  }

  function CollapseWhite(s: string): (r: string)
    ensures |r| <= |s|
    ensures r != [] ==> s != [] && (IsWhite(r[0]) <==> IsWhite(s[0]))
    ensures SingleSpaced(r)
    decreases |s|
  {
    if s == [] then []
    else if IsWhite(s[0]) then
      var rest := CollapseWhite(s[WhiteEnd(s, 0)..]);
      assert forall i :: 1 <= i < |rest| + 1 ==> (" " + rest)[i] == rest[i - 1];
      " " + rest
    else
      var rest := CollapseWhite(s[1..]);
      assert forall i :: 1 <= i < |rest| + 1 ==> ([s[0]] + rest)[i] == rest[i - 1];
      [s[0]] + rest
  }

  predicate NoWhite(s: string) {
    forall i :: 0 <= i < |s| ==> !IsWhite(s[i])
  }

  /** Text without white space is kept exactly as it is. */
  lemma {:induction false} CollapseWhiteKeepsPrefix(x: string, y: string)
    requires NoWhite(x)
    ensures CollapseWhite(x + y) == x + CollapseWhite(y)
    decreases |x|
  {
    if x == [] {
      assert x + y == y;
    } else {
      var s := x + y;
      assert s[0] == x[0] && s[1..] == x[1..] + y;
      assert CollapseWhite(s) == [x[0]] + CollapseWhite(x[1..] + y);
      CollapseWhiteKeepsPrefix(x[1..], y);
      Assoc([x[0]], x[1..], CollapseWhite(y));
      assert [x[0]] + x[1..] == x;
    }
  }

  /** Text without white space is left as it is. */
  lemma CollapseWhiteNoWhite(s: string)
    requires NoWhite(s)
    ensures CollapseWhite(s) == s
  {
    CollapseWhiteKeepsPrefix(s, []);
    assert s + [] == s;
  }

  /** `WhiteEnd` stops exactly where the white run starting at `k` ends. */
  lemma {:induction false} WhiteEndFrom(s: string, k: nat, n: nat)
    requires k <= n <= |s|
    requires forall i :: k <= i < n ==> IsWhite(s[i])
    requires n == |s| || !IsWhite(s[n])
    ensures WhiteEnd(s, k) == n
    decreases n - k
  {
    if k < n {
      WhiteEndFrom(s, k + 1, n);
    }
  }

/** A whole run of white space, however long and of whatever white
      characters, becomes exactly one plain space. */
  lemma CollapseWhiteRun(w: string, y: string)
    requires w != [] && AllWhite(w) && (y == [] || !IsWhite(y[0]))
    ensures CollapseWhite(w + y) == " " + CollapseWhite(y)
  {
    var s := w + y;
    var e := WhiteEnd(s, 0);
    assert s[0] == w[0];
    assert forall i :: 0 <= i < |w| ==> s[i] == w[i];
    assert |w| < |s| ==> s[|w|] == y[0];
    WhiteEndFrom(s, 0, |w|);
    assert s[e..] == y;
  }

  lemma {:induction false} VisibleConcat(a: string, b: string)
    ensures Visible(a + b) == Visible(a) + Visible(b)
    decreases |a|
  {
    if a == [] {
      assert a + b == b;
    } else {
      assert (a + b)[1..] == a[1..] + b;
      VisibleConcat(a[1..], b);
    }
  }

  lemma {:induction false} VisibleWhite(s: string)
    requires AllWhite(s)
    ensures Visible(s) == []
    decreases |s|
  {
    if s != [] {
      VisibleWhite(s[1..]);
    }
  }

  /** Collapsing changes white space only: the other characters stay, in
      order. */
  lemma {:induction false} CollapseWhiteVisible(s: string)
    ensures Visible(CollapseWhite(s)) == Visible(s)
    decreases |s|
  {
    if s != [] {
      if IsWhite(s[0]) {
        var e := WhiteEnd(s, 0);
        CollapseWhiteVisible(s[e..]);
        assert s == s[..e] + s[e..];
        VisibleConcat(s[..e], s[e..]);
        VisibleWhite(s[..e]);
        VisibleConcat(" ", CollapseWhite(s[e..]));
      } else {
        CollapseWhiteVisible(s[1..]);
        VisibleConcat([s[0]], CollapseWhite(s[1..]));
      }
    }
  }

  /** Text already single-spaced is left as it is, so collapsing twice is
      collapsing once. */
  lemma {:induction false} CollapseSingleSpaced(s: string)
    requires SingleSpaced(s)
    ensures CollapseWhite(s) == s
    decreases |s|
  {
    if s != [] {
      if IsWhite(s[0]) {
        assert WhiteEnd(s, 0) == 1 by {
          if |s| > 1 { assert !IsWhite(s[1]); }
        }
      }
      assert SingleSpaced(s[1..]) by {
        forall i | 0 <= i < |s| - 1 && IsWhite(s[1..][i])
          ensures s[1..][i] == ' ' && (i + 1 < |s| - 1 ==> !IsWhite(s[1..][i + 1]))
        {
          assert s[1..][i] == s[i + 1];
        }
      }
      CollapseSingleSpaced(s[1..]);
    }
  }

  /** Trimming removes white space only. */
  lemma TrimVisible(s: string)
    ensures Visible(Trim(s)) == Visible(s)
  {
    TrimStartVisible(s);
    TrimEndVisible(TrimStart(s));
  }

  lemma TrimStartVisible(s: string)
    ensures Visible(TrimStart(s)) == Visible(s)
  {
    var t := TrimStart(s);
    assert s == s[..|s| - |t|] + t;
    VisibleConcat(s[..|s| - |t|], t);
    VisibleWhite(s[..|s| - |t|]);
  }

  lemma TrimEndVisible(t: string)
    ensures Visible(TrimEnd(t)) == Visible(t)
  {
    var r := TrimEnd(t);
    assert t == r + t[|r|..];
    VisibleConcat(r, t[|r|..]);
    VisibleWhite(t[|r|..]);
  }

  lemma TrimSingleSpaced(s: string)
    requires SingleSpaced(s)
    ensures SingleSpaced(Trim(s))
  {
    var t := TrimStart(s);
    SingleSpacedSuffix(s, |s| - |t|);
    SingleSpacedPrefix(t, |TrimEnd(t)|);
  }

  lemma SingleSpacedSuffix(s: string, k: nat)
    requires k <= |s| && SingleSpaced(s)
    ensures SingleSpaced(s[k..])
  {
    var t := s[k..];
    forall i | 0 <= i < |t| && IsWhite(t[i]) ensures t[i] == ' ' && (i + 1 < |t| ==> !IsWhite(t[i + 1])) {
      assert t[i] == s[k + i];
      if i + 1 < |t| { assert t[i + 1] == s[k + i + 1]; }
    }
  }

  lemma SingleSpacedPrefix(s: string, n: nat)
    requires n <= |s| && SingleSpaced(s)
    ensures SingleSpaced(s[..n])
  {
    var t := s[..n];
    forall i | 0 <= i < |t| && IsWhite(t[i]) ensures t[i] == ' ' && (i + 1 < |t| ==> !IsWhite(t[i + 1])) {
      assert t[i] == s[i];
      if i + 1 < |t| { assert t[i + 1] == s[i + 1]; }
    }
  }

  /** Single-spaced text ends in at most one white character. */
  lemma TrimEndSingleSpaced(s: string)
    requires SingleSpaced(s)
    ensures |TrimEnd(s)| + 1 >= |s|
  {
    if |s| >= 2 && IsWhite(s[|s| - 1]) {
      assert !IsWhite(s[|s| - 2]);
      assert TrimEnd(s[..|s| - 1]) == s[..|s| - 1];
    }
  }

  /** The text of the description before it is cut. */
  function PlainText(html: string): string
  {
    var noScripts := StripElements(html, "<script", "</script>");
    var noStyles := StripElements(noScripts, "<style", "</style>");
    Trim(CollapseWhite(StripTags(noStyles)))
  }

  /** The plain text is trimmed and single-spaced, and differs from the
      tag-free text in white space only. */
  lemma PlainTextShape(html: string)
    ensures var t := PlainText(html);
      && (t == [] || (!IsWhite(t[0]) && !IsWhite(t[|t| - 1])))
      && SingleSpaced(t)
      && Visible(t) == Visible(StripTags(StripElements(StripElements(html, "<script", "</script>"), "<style", "</style>")))
  {
    var stripped := StripTags(StripElements(StripElements(html, "<script", "</script>"), "<style", "</style>"));
    assert PlainText(html) == Trim(CollapseWhite(stripped));
    TidyShape(stripped);
  }

  /** Collapsing and trimming the white space of any text. */
  lemma TidyShape(s: string)
    ensures var t := Trim(CollapseWhite(s));
      && (t == [] || (!IsWhite(t[0]) && !IsWhite(t[|t| - 1])))
      && SingleSpaced(t)
      && Visible(t) == Visible(s)
  {
    TidySingleSpaced(s);
    TidyVisible(s);
  }

  lemma TidySingleSpaced(s: string)
    ensures SingleSpaced(Trim(CollapseWhite(s)))
  {
    TrimSingleSpaced(CollapseWhite(s));
  }

  lemma TidyVisible(s: string)
    ensures Visible(Trim(CollapseWhite(s))) == Visible(s)
  {
    TrimVisible(CollapseWhite(s));
    CollapseWhiteVisible(s);
  }

  /** Text without markup is only tidied: its white space collapsed and
      its ends trimmed. */
  lemma PlainTextOfText(t: string)
    requires NoLt(t)
    ensures PlainText(t) == Trim(CollapseWhite(t))
  {
    StripElementsNoLt(t, "<script", "</script>");
    StripElementsNoLt(t, "<style", "</style>");
    StripTagsNoLt(t);
  }

  /** Two words separated by a tag come out as the two words separated by
      one space: the tag becomes a space, so the words never run together. */
  lemma PlainTextWords(x: string, m: string, y: string)
    requires x != [] && NoLt(x) && NoWhite(x)
    requires y != [] && NoLt(y) && NoWhite(y)
    requires m != [] && NoLt(m) && NoClose(m)
    ensures PlainText(x + "<" + m + ">" + y) == x + " " + y
  {
    var html := x + "<" + m + ">" + y;
    StrippedWords(x, m, y);
    TidyWords(x, y);
    assert PlainText(html) == Trim(CollapseWhite(x + (" " + y)));
  }

  /** Removing scripts, styles and tags around two words leaves the words
      and the space that replaced the tag. */
  lemma StrippedWords(x: string, m: string, y: string)
    requires NoLt(x) && NoLt(y) && NoLt(m) && m != [] && NoClose(m)
    ensures var html := x + "<" + m + ">" + y;
      StripTags(StripElements(StripElements(html, "<script", "</script>"), "<style", "</style>")) == x + (" " + y)
  {
    var tag := "<" + m + ">" + y;
    var rest := m + ">" + y;
    assert tag == "<" + rest;
    assert NoLt(rest) by {
      assert forall k :: 0 <= k < |rest| ==> rest[k] == tag[k + 1];
    }
    assert x + "<" + m + ">" + y == x + tag;
    StripElementsLoneLt(x, rest, "<script", "</script>");
    StripElementsLoneLt(x, rest, "<style", "</style>");
    StripTagsKeepsPrefix(x, tag);
    StripTagsTag(m, y);
    StripTagsNoLt(y);
  }

  /** Two words and one space between them are already tidy. */
  lemma TidyWords(x: string, y: string)
    requires x != [] && NoWhite(x) && y != [] && NoWhite(y)
    ensures Trim(CollapseWhite(x + (" " + y))) == x + " " + y
  {
    var t := x + (" " + y);
    CollapseWords(x, y);
    assert t[0] == x[0] && t[|t| - 1] == y[|y| - 1];
    TrimIdentity(t);
    Assoc(x, " ", y);
  }

  lemma CollapseWords(x: string, y: string)
    requires NoWhite(x) && y != [] && NoWhite(y)
    ensures CollapseWhite(x + (" " + y)) == x + (" " + y)
  {
    CollapseWhiteKeepsPrefix(x, " " + y);
    CollapseWhiteRun(" ", y);
    CollapseWhiteNoWhite(y);
  }

  // ----------------------------------------------------------------------
  // The cut at 150 characters.
  // ----------------------------------------------------------------------

  const MaxLength := 150
  const MinCut := 80
  const Ellipsis := '…'

  /** `lastIndexOf`: the last index of `c`, or -1. */
  function LastIndexOf(s: string, c: char): (r: int)
    ensures -1 <= r < |s|
    ensures r >= 0 ==> s[r] == c
    ensures forall k :: r < k < |s| ==> s[k] != c
  {
    if s == [] then -1
    else if s[|s| - 1] == c then |s| - 1
    else LastIndexOf(s[..|s| - 1], c)
  }

  /** The slice cut at its last space when that space lies past index 80. */
  function CutCandidate(slice: string): string
  {
    var lastSpace := LastIndexOf(slice, ' ');
    if lastSpace > MinCut then slice[..lastSpace] else slice
  }

  function Truncate(text: string): string
  {
    if |text| <= MaxLength then text
    else Trim(CutCandidate(Trim(text[..MaxLength]))) + [Ellipsis]
  }

  /** `createMetaDescription`. */
  function CreateMetaDescription(html: string): string
  {
    Truncate(PlainText(html))
  }

  /** Long text: a prefix of the text and one ellipsis, 151 characters at
      most. */
  lemma TruncateLong(text: string)
    requires |text| > MaxLength && !IsWhite(text[0])
    ensures var r := Truncate(text);
      |r| <= MaxLength + 1 && r[|r| - 1] == Ellipsis && r[..|r| - 1] == text[..|r| - 1]
  {
    var slice := Trim(text[..MaxLength]);
    SlicePrefix(text);
    var candidate := CutCandidate(slice);
    CandidatePrefix(text, slice);
    TrimPrefix(candidate);
    var kept := Trim(candidate);
    PrefixOfPrefix(text, candidate, kept);
    SnocPrefix(kept, Ellipsis);
  }

  /** The trimmed slice is a non-empty prefix of text that does not start
      with white space. */
  lemma SlicePrefix(text: string)
    requires |text| > MaxLength && !IsWhite(text[0])
    ensures var slice := Trim(text[..MaxLength]);
      slice != [] && |slice| <= MaxLength && slice == text[..|slice|]
  {
    var head := text[..MaxLength];
    assert head[0] == text[0];
    TrimPrefix(head);
    PrefixOfPrefix(text, head, Trim(head));
  }

  lemma CandidatePrefix(text: string, slice: string)
    requires slice != [] && |slice| <= |text| && slice == text[..|slice|] && !IsWhite(text[0])
    ensures var c := CutCandidate(slice);
      c != [] && !IsWhite(c[0]) && |c| <= |slice| && c == text[..|c|]
  {
    var c := CutCandidate(slice);
    if LastIndexOf(slice, ' ') > MinCut {
      PrefixOfPrefix(text, slice, c);
    }
    assert c[0] == slice[0] == text[0];
  }

  /** A prefix of a prefix is a prefix. */
  lemma PrefixOfPrefix(text: string, a: string, b: string)
    requires |a| <= |text| && a == text[..|a|] && |b| <= |a| && b == a[..|b|]
    ensures b == text[..|b|]
  {
  }

  lemma SnocPrefix(s: string, c: char)
    ensures (s + [c])[..|s|] == s && (s + [c])[|s|] == c
  {
  }

  /** For single-spaced text, the cut falls exactly at the last space of
      the 150-character slice when that space lies past index 80; otherwise
      at most a final space is dropped from the slice. */
  lemma TruncateAtSpace(text: string)
    requires |text| > MaxLength && !IsWhite(text[0]) && SingleSpaced(text)
    ensures var lastSpace := LastIndexOf(Trim(text[..MaxLength]), ' ');
      && (lastSpace > MinCut ==> text[lastSpace] == ' ' && Truncate(text) == text[..lastSpace] + [Ellipsis])
      && (lastSpace <= MinCut ==> |Truncate(text)| >= MaxLength && Truncate(text) == text[..|Truncate(text)| - 1] + [Ellipsis])
  {
    var head := text[..MaxLength];
    TrimPrefix(head);
    SingleSpacedPrefix(text, MaxLength);
    var lastSpace := LastIndexOf(Trim(head), ' ');
    if lastSpace > MinCut {
      CutAtSpace(text, lastSpace);
    } else {
      CutAtEnd(text);
    }
  }

  lemma CutAtSpace(text: string, lastSpace: int)
    requires |text| > MaxLength && SingleSpaced(text[..MaxLength])
    requires var slice := Trim(text[..MaxLength]); slice != [] && slice == text[..|slice|]
    requires lastSpace == LastIndexOf(Trim(text[..MaxLength]), ' ') && lastSpace > MinCut
    ensures text[lastSpace] == ' ' && Truncate(text) == text[..lastSpace] + [Ellipsis]
  {
    var head := text[..MaxLength];
    var slice := Trim(head);
    var candidate := slice[..lastSpace];
    assert candidate == CutCandidate(slice);
    assert slice[lastSpace] == text[lastSpace] == head[lastSpace];
    assert !IsWhite(head[lastSpace - 1]);
    PrefixOfPrefix(text, slice, candidate);
    TrimIdentity(candidate);
  }

  lemma CutAtEnd(text: string)
    requires |text| > MaxLength && SingleSpaced(text[..MaxLength]) && !IsWhite(text[0])
    requires var slice := Trim(text[..MaxLength]); slice != [] && slice == text[..|slice|]
    requires LastIndexOf(Trim(text[..MaxLength]), ' ') <= MinCut
    ensures |Truncate(text)| >= MaxLength && Truncate(text) == text[..|Truncate(text)| - 1] + [Ellipsis]
  {
    var slice := Trim(text[..MaxLength]);
    SliceLength(text);
    TruncateKeepsSlice(text);
    PrefixThenEllipsis(text, slice, Truncate(text));
  }

  lemma SliceLength(text: string)
    requires |text| > MaxLength && SingleSpaced(text[..MaxLength]) && !IsWhite(text[0])
    ensures |Trim(text[..MaxLength])| + 1 >= MaxLength
  {
    assert text[..MaxLength][0] == text[0];
    TrimSingleSpacedLength(text[..MaxLength]);
  }

  lemma TruncateKeepsSlice(text: string)
    requires |text| > MaxLength && LastIndexOf(Trim(text[..MaxLength]), ' ') <= MinCut
    ensures Truncate(text) == Trim(text[..MaxLength]) + [Ellipsis]
  {
    KeptWhole(Trim(text[..MaxLength]));
  }

  /** A trimmed slice whose last space is not past index 80 is kept whole. */
  lemma KeptWhole(slice: string)
    requires slice == [] || (!IsWhite(slice[0]) && !IsWhite(slice[|slice| - 1]))
    requires LastIndexOf(slice, ' ') <= MinCut
    ensures Trim(CutCandidate(slice)) == slice
  {
    TrimIdentity(slice);
  }

  lemma PrefixThenEllipsis(text: string, slice: string, r: string)
    requires r == slice + [Ellipsis] && |slice| <= |text| && slice == text[..|slice|]
    requires |slice| + 1 >= MaxLength
    ensures |r| >= MaxLength && r == text[..|r| - 1] + [Ellipsis]
  {
    assert |r| - 1 == |slice|;
  }

  /** Trimming single-spaced text that starts with a visible character
      drops at most its last character. */
  lemma TrimSingleSpacedLength(s: string)
    requires s != [] && !IsWhite(s[0]) && SingleSpaced(s)
    ensures |Trim(s)| + 1 >= |s|
  {
    assert TrimStart(s) == s;
    TrimEndSingleSpaced(s);
  }

  /** The meta description: the plain text itself when it is short enough,
      otherwise a prefix of it and one ellipsis, 151 characters at most. */
  lemma MetaDescriptionBound(html: string)
    ensures var t := PlainText(html); var r := CreateMetaDescription(html);
      && (|t| <= MaxLength ==> r == t)
      && (|t| > MaxLength ==> |r| <= MaxLength + 1 && r[|r| - 1] == Ellipsis && r[..|r| - 1] == t[..|r| - 1])
  {
    PlainTextShape(html);
    var t := PlainText(html);
    if |t| > MaxLength {
      TruncateLong(t);
    }
  }
}
