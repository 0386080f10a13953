/**
 * The query-string encoding the pages use for tag links: the built-in
 * `encodeURIComponent` that writes `index.html?tag=…` and the decoding
 * `URLSearchParams.get` applies when the listing reads the parameter back.
 * Characters are Unicode scalar values; bytes are naturals below 256.
 */
module Uri {
  import opened Text

  predicate IsAsciiAlnum(c: char) {
    'A' <= c <= 'Z' || 'a' <= c <= 'z' || '0' <= c <= '9'
  }

  /** The characters `encodeURIComponent` leaves as they are. */
  predicate IsUnreserved(c: char) {
    IsAsciiAlnum(c) || c == '-' || c == '_' || c == '.' || c == '!'
    || c == '~' || c == '*' || c == '\'' || c == '(' || c == ')'
  }

  predicate AllUnreserved(s: string) {
    forall i :: 0 <= i < |s| ==> IsUnreserved(s[i])
  }

  /** Text that cannot end an attribute value or a query parameter: only
      unreserved characters and `%`. */
  predicate QuerySafe(s: string) {
    forall i :: 0 <= i < |s| ==> IsUnreserved(s[i]) || s[i] == '%'
  }

  predicate IsByte(b: nat) { b < 256 }

  predicate AllBytes(bs: seq<nat>) {
    forall i :: 0 <= i < |bs| ==> IsByte(bs[i])
  }

  // ----------------------------------------------------------------------
  // Encoding.
  // ----------------------------------------------------------------------

  /** An upper-case hexadecimal digit. */
  function HexDigit(d: nat): (r: char)
    requires d < 16
    ensures IsAsciiAlnum(r)
  {
    if d < 10 then ('0' as int + d) as char else ('A' as int + d - 10) as char
  }

  /** The value of a hexadecimal digit of either case. */
  function HexValue(c: char): (r: Option<nat>)
    ensures r.Some? ==> r.value < 16
  {
    if '0' <= c <= '9' then Some(c as int - '0' as int)
    else if 'A' <= c <= 'F' then Some(c as int - 'A' as int + 10)
    else if 'a' <= c <= 'f' then Some(c as int - 'a' as int + 10)
    else None
  }

  /** `%XX` for one byte. */
  function PercentByte(b: nat): (r: string)
    requires IsByte(b)
    ensures |r| == 3 && r[0] == '%' && QuerySafe(r)
  {
    ['%', HexDigit(b / 16), HexDigit(b % 16)]
  }

  function PercentBytes(bs: seq<nat>): (r: string)
    requires AllBytes(bs)
    ensures |r| == 3 * |bs| && QuerySafe(r)
  {
    if bs == [] then [] else PercentByte(bs[0]) + PercentBytes(bs[1..])
  }

  /** The UTF-8 encoding of a character: one to four bytes. */
  function Utf8(c: char): (r: seq<nat>)
    ensures 1 <= |r| <= 4 && AllBytes(r)
  {
    var cp := c as int;
    if cp < 0x80 then [cp]
    else if cp < 0x800 then [0xC0 + cp / 64, 0x80 + cp % 64]
    else if cp < 0x10000 then [0xE0 + cp / 4096, 0x80 + cp / 64 % 64, 0x80 + cp % 64]
    else [0xF0 + cp / 0x40000, 0x80 + cp / 4096 % 64, 0x80 + cp / 64 % 64, 0x80 + cp % 64]
  }

  function EncodeChar(c: char): (r: string)
    ensures r != [] && QuerySafe(r)
  {
    if IsUnreserved(c) then [c] else PercentBytes(Utf8(c))
  }

  /** `encodeURIComponent`: the output never holds a quote, `&`, `#`, `=`,
      `+`, `<` or white space. */
  function EncodeURIComponent(s: string): (r: string)
    ensures QuerySafe(r)
    ensures |r| >= |s|
  {
    if s == [] then [] else EncodeChar(s[0]) + EncodeURIComponent(s[1..])
  }

  /** Text of unreserved characters is left as it is, and any other text
      grows. */
  lemma {:induction false} EncodeIdentityIff(s: string)
    ensures EncodeURIComponent(s) == s <==> AllUnreserved(s)
    ensures !AllUnreserved(s) ==> |EncodeURIComponent(s)| > |s|
  {
    if s != [] {
      EncodeIdentityIff(s[1..]);
      if IsUnreserved(s[0]) {
        assert AllUnreserved(s) <==> AllUnreserved(s[1..]) by {
          assert forall i :: 1 <= i < |s| ==> s[i] == s[1..][i - 1];
        }
      } else {
        assert |EncodeChar(s[0])| >= 3;
        assert !AllUnreserved(s);
      }
    }
  }

  // ----------------------------------------------------------------------
  // Decoding, as `URLSearchParams` reads a value: `+` is a space and `%XX`
  // sequences are UTF-8 bytes. `None` stands for a malformed sequence.
  // ----------------------------------------------------------------------

  /** The byte `%XX` at the start of `s`. */
  function PercentByteAt(s: string): (r: Option<nat>)
    ensures r.Some? ==> IsByte(r.value) && |s| >= 3
  {
    if |s| >= 3 && s[0] == '%' then
      match (HexValue(s[1]), HexValue(s[2]))
      case (Some(h), Some(l)) => Some(16 * h + l)
      case _ => None
    else None
  }

  /** `n` continuation bytes `%80`–`%BF`, each adding six bits to `acc`. */
  function Continuation(s: string, n: nat, acc: int): (r: Option<(int, string)>)
    ensures r.Some? ==> |r.value.1| == |s| - 3 * n
  {
    if n == 0 then Some((acc, s))
    else match PercentByteAt(s)
      case Some(b) =>
        if 0x80 <= b < 0xC0 then Continuation(s[3..], n - 1, acc * 64 + (b - 0x80)) else None
      case None => None
  }

  /** For a leading byte: the number of continuation bytes, the bits it
      carries and the least code point a sequence of that length may encode. */
  function Lead(b: nat): Option<(nat, nat, int)>
  {
    if b < 0x80 then Some((0, b, 0))
    else if 0xC0 <= b < 0xE0 then Some((1, b - 0xC0, 0x80))
    else if 0xE0 <= b < 0xF0 then Some((2, b - 0xE0, 0x800))
    else if 0xF0 <= b < 0xF8 then Some((3, b - 0xF0, 0x10000))
    else None
  }

  predicate IsScalar(cp: int) {
    0 <= cp < 0xD800 || 0xE000 <= cp < 0x11_0000
  }

  /** The first character of `s` and the text after it. */
  function DecodeChar(s: string): (r: Option<(char, string)>)
    requires s != []
    ensures r.Some? ==> |r.value.1| < |s|
  {
    if s[0] == '+' then Some((' ', s[1..]))
    else if s[0] != '%' then Some((s[0], s[1..]))
    else match PercentByteAt(s)
      case None => None
      case Some(b) =>
        match Lead(b)
        case None => None
        case Some((n, bits, least)) =>
          match Continuation(s[3..], n, bits)
          case None => None
          case Some((cp, rest)) =>
            if least <= cp && IsScalar(cp) then Some((cp as char, rest)) else None
  }

  function DecodeQueryValue(s: string): Option<string>
    decreases |s|
  {
    if s == [] then Some([])
    else match DecodeChar(s)
      case None => None
      case Some((c, rest)) =>
        match DecodeQueryValue(rest)
        case None => None
        case Some(t) => Some([c] + t)
  }

  // ----------------------------------------------------------------------
  // The round trip.
  // ----------------------------------------------------------------------

  lemma HexRoundTrip(d: nat)
    requires d < 16
    ensures HexValue(HexDigit(d)) == Some(d)
  {
  }

  lemma PercentByteRoundTrip(b: nat, rest: string)
    requires IsByte(b)
    ensures PercentByteAt(PercentByte(b) + rest) == Some(b)
    ensures (PercentByte(b) + rest)[3..] == rest
  {
    var s := PercentByte(b) + rest;
    HexRoundTrip(b / 16);
    HexRoundTrip(b % 16);
    assert s[1] == HexDigit(b / 16) && s[2] == HexDigit(b % 16);
  }

  /** Continuation bytes: `0x80` to `0xBF`. */
  predicate AllContinuation(bs: seq<nat>) {
    forall i :: 0 <= i < |bs| ==> 0x80 <= bs[i] < 0xC0
  }

  /** The bits continuation bytes `bs` add to `acc`. */
  function Payload(bs: seq<nat>, acc: int): int
  {
    if bs == [] then acc else Payload(bs[1..], acc * 64 + (bs[0] as int - 0x80))
  }

  /** Reading back continuation bytes adds their six-bit payloads. */
  lemma {:induction false} ContinuationOf(bs: seq<nat>, rest: string, acc: int)
    requires AllContinuation(bs)
    ensures Continuation(PercentBytes(bs) + rest, |bs|, acc) == Some((Payload(bs, acc), rest))
  {
    if bs != [] {
      var t := PercentBytes(bs[1..]) + rest;
      assert PercentBytes(bs) + rest == PercentByte(bs[0]) + t;
      PercentByteRoundTrip(bs[0], t);
      assert Continuation(PercentBytes(bs) + rest, |bs|, acc)
        == Continuation(t, |bs| - 1, acc * 64 + (bs[0] as int - 0x80));
      assert AllContinuation(bs[1..]) by {
        assert forall i :: 0 <= i < |bs| - 1 ==> bs[1..][i] == bs[i + 1];
      }
      ContinuationOf(bs[1..], rest, acc * 64 + (bs[0] as int - 0x80));
    } else {
      assert PercentBytes(bs) + rest == rest;
    }
  }

  /** The bytes of a two-, three- or four-byte sequence carry the code
      point. */
  lemma Utf8Payload(c: char)
    requires c as int >= 0x80
    ensures var bs := Utf8(c);
      && AllContinuation(bs[1..])
      && Lead(bs[0]).Some? && Lead(bs[0]).value.0 == |bs| - 1
      && Lead(bs[0]).value.2 <= c as int
      && Payload(bs[1..], Lead(bs[0]).value.1) == c as int
  {
    var cp := c as int;
    if cp < 0x800 {
      Utf8Two(cp);
    } else if cp < 0x10000 {
      Utf8Three(cp);
    } else {
      Utf8Four(cp);
    }
  }

  lemma Utf8Two(cp: nat)
    requires 0x80 <= cp < 0x800
    ensures Payload([0x80 + cp % 64], cp / 64) == cp
  {
    assert Payload([0x80 + cp % 64], cp / 64) == cp / 64 * 64 + cp % 64;
  }

  lemma Utf8Three(cp: nat)
    requires 0x800 <= cp < 0x10000
    ensures Payload([0x80 + cp / 64 % 64, 0x80 + cp % 64], cp / 4096) == cp
  {
    var x := cp / 64;
    Split64(cp);
    Split64(x);
    Div64Twice(cp);
    PayloadTwo(0x80 + x % 64, 0x80 + cp % 64, cp / 4096);
    PayloadOne(0x80 + cp % 64, x);
  }

  lemma Utf8Four(cp: nat)
    requires 0x10000 <= cp < 0x11_0000
    ensures Payload([0x80 + cp / 4096 % 64, 0x80 + cp / 64 % 64, 0x80 + cp % 64], cp / 0x40000) == cp
  {
    var x := cp / 64;
    var y := x / 64;
    Split64(cp);
    Split64(x);
    Split64(y);
    Div64Twice(cp);
    Div64Thrice(cp);
    PayloadThree(0x80 + y % 64, 0x80 + x % 64, 0x80 + cp % 64, cp / 0x40000);
    PayloadTwo(0x80 + x % 64, 0x80 + cp % 64, y);
    PayloadOne(0x80 + cp % 64, x);
  }

  /** One to three continuation bytes, read one at a time. */
  lemma PayloadOne(b: nat, acc: int)
    ensures Payload([b], acc) == acc * 64 + (b - 0x80)
  {
    assert [b][1..] == [];
  }

  lemma PayloadTwo(b0: nat, b1: nat, acc: int)
    ensures Payload([b0, b1], acc) == Payload([b1], acc * 64 + (b0 - 0x80))
  {
    assert [b0, b1][1..] == [b1];
  }

  lemma PayloadThree(b0: nat, b1: nat, b2: nat, acc: int)
    ensures Payload([b0, b1, b2], acc) == Payload([b1, b2], acc * 64 + (b0 - 0x80))
  {
    assert [b0, b1, b2][1..] == [b1, b2];
  }

  lemma Split64(n: nat)
    ensures n == n / 64 * 64 + n % 64
  {
  }

  lemma Div64Twice(n: nat)
    ensures n / 64 / 64 == n / 4096
  {
    var q := n / 4096;
    var r := n % 4096;
    assert n == q * 4096 + r;
    assert n / 64 == q * 64 + r / 64;
  }

  lemma Div64Thrice(n: nat)
    ensures n / 64 / 64 / 64 == n / 0x40000
  {
    Div64Twice(n);
    Div64Twice(n / 64);
    var q := n / 0x40000;
    var r := n % 0x40000;
    assert n == q * 0x40000 + r;
    assert n / 4096 == q * 64 + r / 4096;
  }


  /** The encoding of a character that is not unreserved decodes to it. */
  lemma Utf8RoundTrip(c: char, rest: string)
    requires !IsUnreserved(c)
    ensures DecodeChar(PercentBytes(Utf8(c)) + rest) == Some((c, rest))
  {
    var bs := Utf8(c);
    var t := PercentBytes(bs[1..]) + rest;
    var s := PercentBytes(bs) + rest;
    assert s == PercentByte(bs[0]) + t;
    PercentByteRoundTrip(bs[0], t);
    if c as int < 0x80 {
      assert bs == [c as int];
      assert t == rest;
    } else {
      Utf8Payload(c);
      ContinuationOf(bs[1..], rest, Lead(bs[0]).value.1);
    }
  }

  /** Each encoded character decodes to itself. */
  lemma EncodeCharRoundTrip(c: char, rest: string)
    ensures DecodeChar(EncodeChar(c) + rest) == Some((c, rest))
  {
    if IsUnreserved(c) {
      assert (EncodeChar(c) + rest)[0] == c;
      assert (EncodeChar(c) + rest)[1..] == rest;
    } else {
      Utf8RoundTrip(c, rest);
    }
  }

  /** Reading an encoded value back gives the value: the tag a link carries
      is the tag the listing reads. Since `+` is encoded as `%2B`, this holds
      for every string, `+` included. */
  lemma {:induction false} DecodeEncode(s: string)
    ensures DecodeQueryValue(EncodeURIComponent(s)) == Some(s)
  {
    if s != [] {
      var e := EncodeURIComponent(s);
      assert e == EncodeChar(s[0]) + EncodeURIComponent(s[1..]);
      EncodeCharRoundTrip(s[0], EncodeURIComponent(s[1..]));
      DecodeEncode(s[1..]);
      assert [s[0]] + s[1..] == s;
    }
  }
}
