/**
 * The JavaScript string primitives the blog tooling relies on, written out
 * over `seq<char>`: `trim`, `includes`, `startsWith`, `endsWith`,
 * `toLowerCase`, `join`, literal `replaceAll`, and the decimal rendering of
 * an integer in a template literal.  One `char` stands for one Unicode
 * scalar value; lengths and indices count scalar values, where JavaScript
 * counts UTF-16 code units.
 */
module Text {

  datatype Option<+T> = None | Some(value: T)

  /** The characters `String.prototype.trim` removes and `\s` matches:
      ECMAScript WhiteSpace plus LineTerminator. */
  predicate IsWhite(c: char) {
    || c == '\t' || c == '\n' || c == '\U{000B}' || c == '\U{000C}' || c == '\r'
    || c == ' ' || c == '\U{00A0}' || c == '\U{1680}'
    || ('\U{2000}' <= c <= '\U{200A}')
    || c == '\U{2028}' || c == '\U{2029}' || c == '\U{202F}' || c == '\U{205F}'
    || c == '\U{3000}' || c == '\U{FEFF}'
  }

  /** The characters a regular-expression `.` does not match. */
  predicate IsLineTerminator(c: char) {
    c == '\n' || c == '\r' || c == '\U{2028}' || c == '\U{2029}'
  }

  /** The characters `\w` matches. */
  predicate IsWordChar(c: char) {
    ('a' <= c <= 'z') || ('A' <= c <= 'Z') || ('0' <= c <= '9') || c == '_'
  }

  predicate AllWhite(s: string) {
    forall i :: 0 <= i < |s| ==> IsWhite(s[i])
  }

  predicate NoLineTerminator(s: string) {
    forall i :: 0 <= i < |s| ==> !IsLineTerminator(s[i])
  }

  /** Leading white space removed: what is left is a suffix of `s` that does
      not start with white space, and what was removed is all white space. */
  function TrimStart(s: string): (r: string)
    ensures |r| <= |s| && r == s[|s| - |r|..]
    ensures AllWhite(s[..|s| - |r|])
    ensures r == [] || !IsWhite(r[0])
  {
    if s != [] && IsWhite(s[0]) then TrimStart(s[1..]) else s
  }

  /** Trailing white space removed. */
  function TrimEnd(s: string): (r: string)
    ensures |r| <= |s| && r == s[..|r|]
    ensures AllWhite(s[|r|..])
    ensures r == [] || !IsWhite(r[|r| - 1])
  {
    if s != [] && IsWhite(s[|s| - 1]) then TrimEnd(s[..|s| - 1]) else s
  }

  /** `String.prototype.trim`. */
  function Trim(s: string): (r: string)
    ensures r == [] || (!IsWhite(r[0]) && !IsWhite(r[|r| - 1]))
    ensures exists k :: TrimmedAt(s, r, k)
  {
    TrimmedAtStart(s);
    TrimEnd(TrimStart(s))
  }

  lemma TrimmedAtStart(s: string)
    ensures TrimmedAt(s, TrimEnd(TrimStart(s)), |s| - |TrimStart(s)|)
  {
    var t := TrimStart(s);
    var r := TrimEnd(t);
    TrimmedFrom(s, t, r);
  }

  /** White space cut from the front, then from the back. */
  lemma TrimmedFrom(s: string, t: string, r: string)
    requires |t| <= |s| && t == s[|s| - |t|..] && AllWhite(s[..|s| - |t|])
    requires |r| <= |t| && r == t[..|r|] && AllWhite(t[|r|..])
    ensures TrimmedAt(s, r, |s| - |t|)
  {
    PrefixOfSuffix(s, t, r);
  }

  /** A prefix of a suffix occurs where the suffix starts. */
  lemma PrefixOfSuffix(s: string, t: string, r: string)
    requires |t| <= |s| && t == s[|s| - |t|..] && |r| <= |t| && r == t[..|r|]
    ensures OccursAt(s, r, |s| - |t|) && s[|s| - |t| + |r|..] == t[|r|..]
  {
    var k := |s| - |t|;
    assert s[k..k + |r|] == t[..|r|];
  }

  /** `r` is `s` with white space only removed before index `k` and after
      `r` ends. */
  predicate TrimmedAt(s: string, r: string, k: int) {
    OccursAt(s, r, k) && AllWhite(s[..k]) && AllWhite(s[k + |r|..])
  }

  /** A string trims to nothing exactly when it is all white space. */
  lemma TrimEmptyIff(s: string)
    ensures Trim(s) == [] <==> AllWhite(s)
  {
    var t := TrimStart(s);
    AllWhiteSplit(s, |s| - |t|);
    assert AllWhite(t) ==> t == [];
    assert TrimEnd(t) == [] ==> t[|TrimEnd(t)|..] == t;
  }

  /** Text is all white space exactly when both of its parts are. */
  lemma AllWhiteSplit(s: string, k: nat)
    requires k <= |s|
    ensures AllWhite(s) <==> AllWhite(s[..k]) && AllWhite(s[k..])
  {
    if AllWhite(s[..k]) && AllWhite(s[k..]) {
      forall i | 0 <= i < |s| ensures IsWhite(s[i]) {
        if i < k { assert s[i] == s[..k][i]; } else { assert s[i] == s[k..][i - k]; }
      }
    }
  }

  /** Trimming text that does not start with white space keeps a non-empty
      prefix of it. */
  lemma TrimPrefix(s: string)
    requires s != [] && !IsWhite(s[0])
    ensures Trim(s) != [] && Trim(s) == s[..|Trim(s)|]
  {
    TrimEmptyIff(s);
    assert TrimStart(s) == s;
  }

  /** A string with no white space at either end is left as it is. */
  lemma TrimIdentity(s: string)
    requires s == [] || (!IsWhite(s[0]) && !IsWhite(s[|s| - 1]))
    ensures Trim(s) == s
  {
  }

  /** The end of the run of white space starting at `k`. */
  function WhiteEnd(s: string, k: nat): (r: nat)
    requires k <= |s|
    ensures k <= r <= |s| && AllWhite(s[k..r])
    ensures r == |s| || !IsWhite(s[r])
    decreases |s| - k
  {
    if k < |s| && IsWhite(s[k]) then WhiteEnd(s, k + 1) else k
  }

  /** JavaScript truthiness of a string. */
  predicate NonEmpty(s: string) { s != [] }

  predicate StartsWith(s: string, p: string) {
    |p| <= |s| && s[..|p|] == p
  }

  predicate EndsWith(s: string, p: string) {
    |p| <= |s| && s[|s| - |p|..] == p
  }

  /** `p` occurs in `s` starting at index `i`. */
  predicate OccursAt(s: string, p: string, i: int) {
    0 <= i && i + |p| <= |s| && s[i..i + |p|] == p
  }

  /** `String.prototype.includes`, as a left-to-right scan. */
  function Contains(s: string, p: string): (r: bool)
    ensures r <==> exists i :: OccursAt(s, p, i)
  {
    if |s| < |p| then
      false
    else if s[..|p|] == p then
      assert OccursAt(s, p, 0);
      true
    else
      var r := Contains(s[1..], p);
      assert forall i :: OccursAt(s[1..], p, i) <==> OccursAt(s, p, i + 1);
      assert forall i :: OccursAt(s, p, i) ==> i == 0 || OccursAt(s[1..], p, i - 1);
      r
  }

  lemma ContainsSelf(x: string)
    ensures Contains(x, x)
  {
    assert OccursAt(x, x, 0);
  }

  /** Text without a `<`: it cannot open or close an element. */
  predicate NoLt(s: string) {
    forall m :: 0 <= m < |s| ==> s[m] != '<'
  }

  /** The index of the first `<` at or after `k`, or the length. */
  function FirstLt(s: string, k: nat): (r: nat)
    requires k <= |s|
    ensures k <= r <= |s| && (r < |s| ==> s[r] == '<')
    ensures forall m :: k <= m < r ==> s[m] != '<'
    decreases |s| - k
  {
    if k == |s| || s[k] == '<' then k else FirstLt(s, k + 1)
  }

  lemma FirstLtOf(x: string, y: string)
    requires NoLt(x) && y != [] && y[0] == '<'
    ensures FirstLt(x + y, 0) == |x|
  {
    var s := x + y;
    assert s[|x|] == '<';
    assert forall m :: 0 <= m < |x| ==> s[m] == x[m];
  }

  /** A piece between two others is contained in the whole. */
  lemma ContainsMiddle(x: string, y: string, z: string)
    ensures Contains(x + y + z, y)
  {
    assert OccursAt(x + y + z, y, |x|) by {
      assert (x + y + z)[|x|..|x| + |y|] == y;
    }
  }

  /** Text contained in a part is contained in the whole. */
  lemma ContainsExtend(x: string, y: string, p: string)
    ensures Contains(x, p) ==> Contains(x + y, p)
    ensures Contains(y, p) ==> Contains(x + y, p)
  {
    if Contains(x, p) {
      var i :| OccursAt(x, p, i);
      assert (x + y)[i..i + |p|] == x[i..i + |p|];
      assert OccursAt(x + y, p, i);
    }
    if Contains(y, p) {
      var i :| OccursAt(y, p, i);
      assert (x + y)[|x| + i..|x| + i + |p|] == y[i..i + |p|];
      assert OccursAt(x + y, p, |x| + i);
    }
  }

  /** Text contained in the middle piece is contained in the whole. */
  lemma ContainsWrap(x: string, y: string, z: string, p: string)
    requires Contains(y, p)
    ensures Contains(x + y + z, p)
  {
    ContainsExtend(x, y, p);
    ContainsExtend(x + y, z, p);
  }

  /** Every item of a join is contained in it. */
  lemma {:induction false} JoinContainsEach(xs: seq<string>, sep: string)
    ensures forall i :: 0 <= i < |xs| ==> Contains(Join(xs, sep), xs[i])
    decreases |xs|
  {
    if |xs| == 1 {
      ContainsSelf(xs[0]);
    } else if |xs| > 1 {
      var rest := Join(xs[1..], sep);
      JoinContainsEach(xs[1..], sep);
      assert Join(xs, sep) == xs[0] + sep + rest;
      ContainsSelf(xs[0]);
      ContainsExtend(xs[0], sep, xs[0]);
      ContainsExtend(xs[0] + sep, rest, xs[0]);
      forall i | 1 <= i < |xs| ensures Contains(Join(xs, sep), xs[i]) {
        assert xs[i] == xs[1..][i - 1];
        ContainsExtend(xs[0] + sep, rest, xs[i]);
      }
    }
  }

  /** `toLowerCase` on the ASCII letters; every other character is kept. */
  function LowerChar(c: char): (r: char)
    ensures 'A' <= c <= 'Z' ==> 'a' <= r <= 'z'
    ensures !('A' <= c <= 'Z') ==> r == c
  {
    if 'A' <= c <= 'Z' then (c as int + 32) as char else c
  }

  function Lower(s: string): (r: string)
    ensures |r| == |s|
    ensures forall i :: 0 <= i < |s| ==> r[i] == LowerChar(s[i])
  {
    if s == [] then [] else [LowerChar(s[0])] + Lower(s[1..])
  }

  /** Lower-casing twice is lower-casing once. */
  lemma LowerIdempotent(s: string)
    ensures Lower(Lower(s)) == Lower(s)
  {
  }

  /** `Array.prototype.join`. */
  function Join(xs: seq<string>, sep: string): string
  {
    if xs == [] then ""
    else if |xs| == 1 then xs[0]
    else xs[0] + sep + Join(xs[1..], sep)
  }

  /** Joining a longer list appends the separator and the new item, so the
      items appear in list order with one separator between neighbours. */
  lemma {:induction false} JoinSnoc(xs: seq<string>, x: string, sep: string)
    ensures Join(xs + [x], sep) == if xs == [] then x else Join(xs, sep) + sep + x
  {
    if |xs| > 1 {
      assert (xs + [x])[1..] == xs[1..] + [x];
      JoinSnoc(xs[1..], x, sep);
    } else if |xs| == 1 {
      assert (xs + [x])[1..] == [x];
    }
  }

  /** Joining with no separator is concatenation, item after item. */
  lemma JoinNoSeparator(xs: seq<string>)
    requires xs != []
    ensures Join(xs, "") == xs[0] + Join(xs[1..], "")
  {
    if |xs| == 1 {
      assert xs[0] + "" == xs[0];
    } else {
      assert xs[0] + "" == xs[0];
    }
  }

  /** Concatenation is associative. */
  lemma Assoc(a: string, b: string, c: string)
    ensures (a + b) + c == a + (b + c)
  {
  }

  /** The length of a join: the items plus one separator between neighbours. */
  lemma {:induction false} JoinLength(xs: seq<string>, sep: string, total: nat)
    requires xs != []
    requires total == SumLengths(xs)
    ensures |Join(xs, sep)| == total + (|xs| - 1) * |sep|
  {
    if |xs| > 1 {
      JoinLength(xs[1..], sep, SumLengths(xs[1..]));
    }
  }

  function SumLengths(xs: seq<string>): nat
  {
    if xs == [] then 0 else |xs[0]| + SumLengths(xs[1..])
  }

  /** The decimal digits of a natural number, most significant first. */
  function NatToDecimal(n: nat): (r: string)
    ensures r != []
    ensures forall i :: 0 <= i < |r| ==> '0' <= r[i] <= '9'
    ensures |r| > 1 ==> r[0] != '0'
    decreases n
  {
    if n < 10 then [('0' as int + n) as char]
    else NatToDecimal(n / 10) + [('0' as int + n % 10) as char]
  }

  /** The value a string of decimal digits denotes. */
  function DecimalValue(s: string): nat
    requires forall i :: 0 <= i < |s| ==> '0' <= s[i] <= '9'
  {
    if s == [] then 0
    else 10 * DecimalValue(s[..|s| - 1]) + (s[|s| - 1] as int - '0' as int)
  }

  /** The digits denote the number they were produced from. */
  lemma {:induction false} DecimalRoundTrip(n: nat)
    ensures DecimalValue(NatToDecimal(n)) == n
  {
    if n >= 10 {
      var r := NatToDecimal(n);
      assert r[..|r| - 1] == NatToDecimal(n / 10);
      DecimalRoundTrip(n / 10);
    }
  }

  /** An integer as a template literal renders it: a minus sign before
      the digits of a negative number. */
  function IntToString(n: int): (r: string)
    ensures r != []
    ensures (r[0] == '-') <==> n < 0
  {
    if n < 0 then "-" + NatToDecimal(-n) else NatToDecimal(n)
  }

  /** The length of the run of decimal digits at the start of `s`. */
  function DigitRun(s: string): (n: nat)
    ensures n <= |s| && forall i :: 0 <= i < n ==> '0' <= s[i] <= '9'
    ensures n == |s| || !('0' <= s[n] <= '9')
  {
    if s != [] && '0' <= s[0] <= '9' then 1 + DigitRun(s[1..]) else 0
  }

  /** The value of the digits at the start of `body`, if there are any. */
  function LeadingNumber(body: string): Option<nat>
  {
    var n := DigitRun(body);
    if n == 0 then None else Some(DecimalValue(body[..n]))
  }

  /** `parseInt(s, 10)`: leading white space, an optional sign and the
      longest run of decimal digits after it; `None` stands for `NaN`. */
  function ParseInt(s: string): Option<int>
  {
    var t := TrimStart(s);
    if t != [] && t[0] == '-' then
      match LeadingNumber(t[1..])
      case None => None
      case Some(v) => Some(-(v as int))
    else if t != [] && t[0] == '+' then
      match LeadingNumber(t[1..])
      case None => None
      case Some(v) => Some(v)
    else
      match LeadingNumber(t)
      case None => None
      case Some(v) => Some(v)
  }

  lemma {:induction false} DigitRunOf(d: string, rest: string)
    requires forall i :: 0 <= i < |d| ==> '0' <= d[i] <= '9'
    requires rest == [] || !('0' <= rest[0] <= '9')
    ensures DigitRun(d + rest) == |d|
  {
    if d != [] {
      assert (d + rest)[1..] == d[1..] + rest;
      DigitRunOf(d[1..], rest);
    } else {
      assert d + rest == rest;
    }
  }

  /** Reading back the rendering of an integer gives the integer, whatever
      follows it that is not a digit: `parseInt` inverts the template
      literal. */
  lemma LeadingNumberOf(d: string, rest: string)
    requires d != [] && forall i :: 0 <= i < |d| ==> '0' <= d[i] <= '9'
    requires rest == [] || !('0' <= rest[0] <= '9')
    ensures LeadingNumber(d + rest) == Some(DecimalValue(d))
  {
    DigitRunOf(d, rest);
    assert (d + rest)[..|d|] == d;
  }

  /** Text that starts with a sign or a digit is not trimmed. */
  lemma TrimStartSigned(s: string)
    requires s != [] && (s[0] == '-' || '0' <= s[0] <= '9')
    ensures TrimStart(s) == s
  {
    assert !IsWhite(s[0]);
  }

  lemma ParseIntUnsigned(s: string, v: nat)
    requires s != [] && '0' <= s[0] <= '9' && LeadingNumber(s) == Some(v)
    ensures ParseInt(s) == Some(v)
  {
    TrimStartSigned(s);
  }

  lemma ParseIntNegative(s: string, v: nat)
    requires s != [] && s[0] == '-' && LeadingNumber(s[1..]) == Some(v)
    ensures ParseInt(s) == Some(-(v as int))
  {
    TrimStartSigned(s);
  }

  lemma ParseIntRoundTripNegative(n: int, rest: string)
    requires n < 0 && (rest == [] || !('0' <= rest[0] <= '9'))
    ensures ParseInt(IntToString(n) + rest) == Some(n)
  {
    var d := NatToDecimal(-n);
    assert IntToString(n) == "-" + d;
    Assoc("-", d, rest);
    ConsTail('-', d + rest);
    LeadingNumberOf(d, rest);
    DecimalRoundTrip(-n);
    ParseIntNegative("-" + (d + rest), -n);
  }

  lemma ConsTail(c: char, x: string)
    ensures ([c] + x)[0] == c && ([c] + x)[1..] == x
  {
  }

  lemma ParseIntRoundTripNatural(n: nat, rest: string)
    requires rest == [] || !('0' <= rest[0] <= '9')
    ensures ParseInt(IntToString(n) + rest) == Some(n)
  {
    var d := NatToDecimal(n);
    assert IntToString(n) == d;
    LeadingNumberOf(d, rest);
    DecimalRoundTrip(n);
    ParseIntUnsigned(d + rest, n);
  }

  /** `parseInt` reads back the decimal rendering of any integer, whatever
      follows it that is not a digit. */
  lemma ParseIntRoundTrip(n: int, rest: string)
    requires rest == [] || !('0' <= rest[0] <= '9')
    ensures ParseInt(IntToString(n) + rest) == Some(n)
  {
    if n < 0 {
      ParseIntRoundTripNegative(n, rest);
    } else {
      ParseIntRoundTripNatural(n, rest);
    }
  }

  /** `s.replaceAll(p, q)` for a literal, non-empty `p`: occurrences are
      found left to right and do not overlap. */
  function ReplaceAll(s: string, p: string, q: string): string
    requires p != []
    decreases |s|
  {
    if s == [] then []
    else if StartsWith(s, p) then q + ReplaceAll(s[|p|..], p, q)
    else [s[0]] + ReplaceAll(s[1..], p, q)
  }

  /** The number of occurrences `ReplaceAll` replaces. */
  function CountMatches(s: string, p: string): nat
    requires p != []
    decreases |s|
  {
    if s == [] then 0
    else if StartsWith(s, p) then 1 + CountMatches(s[|p|..], p)
    else CountMatches(s[1..], p)
  }

  lemma Distribute(c: int, k: int)
    ensures (1 + c) * k == k + c * k
  {
  }

  /** Every replaced occurrence changes the length by `|q| - |p|`. */
  lemma {:induction false} ReplaceAllLength(s: string, p: string, q: string)
    requires p != []
    ensures |ReplaceAll(s, p, q)| == |s| + CountMatches(s, p) * (|q| - |p|)
    decreases |s|
  {
    if s == [] {
    } else if StartsWith(s, p) {
      ReplaceAllLength(s[|p|..], p, q);
      Distribute(CountMatches(s[|p|..], p), |q| - |p|);
    } else {
      ReplaceAllLength(s[1..], p, q);
    }
  }

  /** Text without an occurrence of `p` is left unchanged. */
  lemma {:induction false} ReplaceAllAbsent(s: string, p: string, q: string)
    requires p != []
    requires !Contains(s, p)
    ensures ReplaceAll(s, p, q) == s
    decreases |s|
  {
    if s != [] {
      assert !OccursAt(s, p, 0);
      assert forall i :: OccursAt(s[1..], p, i) ==> OccursAt(s, p, i + 1);
      ReplaceAllAbsent(s[1..], p, q);
    }
  }

  /** `Array.prototype.map`. */
  function Map<A, B>(f: A -> B, xs: seq<A>): (r: seq<B>)
    ensures |r| == |xs|
    ensures forall i :: 0 <= i < |xs| ==> r[i] == f(xs[i])
  {
    if xs == [] then [] else [f(xs[0])] + Map(f, xs[1..])
  }

  /** `Array.prototype.filter`. */
  function Filter<A>(p: A -> bool, xs: seq<A>): (r: seq<A>)
    ensures |r| <= |xs|
    ensures forall i :: 0 <= i < |r| ==> p(r[i]) && r[i] in xs
    ensures forall i :: 0 <= i < |xs| && p(xs[i]) ==> xs[i] in r
  {
    if xs == [] then [] else (if p(xs[0]) then [xs[0]] else []) + Filter(p, xs[1..])
  }

  lemma {:induction false} MapConcat<A, B>(f: A -> B, a: seq<A>, b: seq<A>)
    ensures Map(f, a + b) == Map(f, a) + Map(f, b)
  {
    if a == [] {
      assert a + b == b;
    } else {
      assert (a + b)[1..] == a[1..] + b;
      MapConcat(f, a[1..], b);
    }
  }

  /** Filtering the images is mapping the filtered list, when the image test
      and the element test agree. */
  lemma {:induction false} FilterMap<A, B>(f: A -> B, p: B -> bool, q: A -> bool, xs: seq<A>)
    requires forall x :: p(f(x)) == q(x)
    ensures Filter(p, Map(f, xs)) == Map(f, Filter(q, xs))
  {
    if xs != [] {
      FilterMap(f, p, q, xs[1..]);
      assert Map(f, xs)[1..] == Map(f, xs[1..]);
      var front := if q(xs[0]) then [xs[0]] else [];
      MapConcat(f, front, Filter(q, xs[1..]));
    }
  }

  /** `a` is `b` with some elements left out, the rest in their order. */
  predicate Subsequence<A(==)>(a: seq<A>, b: seq<A>)
    decreases |b|
  {
    if a == [] then true
    else if b == [] then false
    else (a[0] == b[0] && Subsequence(a[1..], b[1..])) || Subsequence(a, b[1..])
  }

  lemma {:induction false} FilterSubsequence<A>(p: A -> bool, xs: seq<A>)
    ensures Subsequence(Filter(p, xs), xs)
  {
    if xs != [] {
      FilterSubsequence(p, xs[1..]);
      var r := Filter(p, xs);
      if p(xs[0]) {
        assert r == [xs[0]] + Filter(p, xs[1..]);
        assert r[0] == xs[0] && r[1..] == Filter(p, xs[1..]);
      } else {
        assert r == Filter(p, xs[1..]);
      }
    }
  }

  /** A text that differs from `p` at some position does not start with it. */
  lemma NotStartsWith(e: string, p: string)
    requires e != [] && p != [] && e[0] != p[0]
    ensures !StartsWith(e, p)
  {
    DiffersAt(e, p, 0);
  }

  lemma DiffersAt(e: string, p: string, i: nat)
    requires i < |e| && i < |p| && e[i] != p[i]
    ensures !StartsWith(e, p)
  {
    if |p| <= |e| {
      assert e[..|p|][i] == e[i];
    }
  }

  /** The kept elements are exactly the elements that pass the test. */
  lemma FilterMembers<A>(p: A -> bool, xs: seq<A>)
    ensures forall a :: a in Filter(p, xs) <==> a in xs && p(a)
  {
    var r := Filter(p, xs);
    forall a ensures a in r <==> a in xs && p(a) {
      if a in r {
        var i :| 0 <= i < |r| && r[i] == a;
        assert p(r[i]);
      }
      if a in xs && p(a) {
        var i :| 0 <= i < |xs| && xs[i] == a;
        assert p(xs[i]);
      }
    }
  }

  /** A test every element passes keeps the whole list. */
  lemma {:induction false} FilterAll<A>(p: A -> bool, xs: seq<A>)
    requires forall i :: 0 <= i < |xs| ==> p(xs[i])
    ensures Filter(p, xs) == xs
  {
    if xs != [] {
      FilterAll(p, xs[1..]);
    }
  }
}
