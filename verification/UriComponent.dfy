/** `encodeURIComponent` and its inverse `decodeURIComponent`, as percent-
    encoding of UTF-8 octets (section 2.1 of RFC 3986, octets per RFC 3629),
    and the rewrite of every encoded line feed into an encoded CR LF pair
    that section 5 of RFC 6068 asks of a `mailto:` body. */
module UriComponent {
  import opened Wrappers
  import opened JsText

  /** One UTF-8 octet. */
  type Byte = b: int | 0 <= b < 256

  /** ECMAScript's uriUnreserved set, which `encodeURIComponent` leaves as it is. */
  predicate IsUnreserved(c: char) {
    ('A' <= c <= 'Z') || ('a' <= c <= 'z') || ('0' <= c <= '9') ||
    c == '-' || c == '_' || c == '.' || c == '!' || c == '~' || c == '*' ||
    c == '\'' || c == '(' || c == ')'
  }

  /** Every character is unreserved or the `%` that opens an escape triple. */
  predicate IsUriSafe(s: string) {
    forall i :: 0 <= i < |s| ==> IsUnreserved(s[i]) || s[i] == '%'
  }

  /** `b` is an octet that starts a UTF-8 sequence of `n` octets. */
  predicate IsLeadByte(b: Byte, n: nat) {
    (n == 1 && b < 0x80) || (n == 2 && 0xC0 <= b < 0xE0) ||
    (n == 3 && 0xE0 <= b < 0xF0) || (n == 4 && 0xF0 <= b < 0xF8)
  }

  predicate IsContinuationByte(b: Byte) {
    0x80 <= b < 0xC0
  }

  /** UTF-8 encoding of one Unicode scalar value: a lead octet announcing the
      length, followed by continuation octets, in the shortest form. */
  function Utf8(c: char): (bs: seq<Byte>)
    ensures 1 <= |bs| <= 4 && IsLeadByte(bs[0], |bs|)
    ensures forall i :: 1 <= i < |bs| ==> IsContinuationByte(bs[i])
    ensures |bs| == 1 <==> (c as int) < 0x80
    ensures |bs| == 1 ==> bs[0] == c as int
    ensures |bs| == 2 <==> 0x80 <= (c as int) < 0x800
    ensures |bs| == 3 <==> 0x800 <= (c as int) < 0x10000
  {
    var cp := c as int;
    if cp < 0x80 then [cp]
    else if cp < 0x800 then [0xC0 + cp / 64, 0x80 + cp % 64]
    else if cp < 0x10000 then [0xE0 + cp / 4096, 0x80 + (cp / 64) % 64, 0x80 + cp % 64]
    else [0xF0 + cp / 262144, 0x80 + (cp / 4096) % 64, 0x80 + (cp / 64) % 64, 0x80 + cp % 64]
  }

  /** The upper-case hexadecimal digit for `n`. */
  function HexDigit(n: int): (c: char)
    requires 0 <= n < 16
    ensures IsUnreserved(c) && c != '%'
  {
    if n < 10 then ('0' as int + n) as char else ('A' as int + n - 10) as char
  }

  /** The value of a hexadecimal digit of either case, if `c` is one. */
  function HexValue(c: char): (r: Option<int>)
    ensures r.Some? ==> 0 <= r.value < 16
  {
    if '0' <= c <= '9' then Some(c as int - '0' as int)
    else if 'A' <= c <= 'F' then Some(c as int - 'A' as int + 10)
    else if 'a' <= c <= 'f' then Some(c as int - 'a' as int + 10)
    else None
  }

  lemma HexRoundTrip(n: int)
    requires 0 <= n < 16
    ensures HexValue(HexDigit(n)) == Some(n)
  {
  }

  /** The escape triple `%XY` for one octet. */
  function PercentByte(b: Byte): (s: string)
    ensures |s| == 3 && IsUriSafe(s)
  {
    ['%', HexDigit(b / 16), HexDigit(b % 16)]
  }

  function PercentBytes(bs: seq<Byte>): (s: string)
    ensures |s| == 3 * |bs| && IsUriSafe(s)
  {
    if bs == [] then [] else PercentByte(bs[0]) + PercentBytes(bs[1..])
  }

  /** What `encodeURIComponent` makes of one character. */
  function EncodeChar(c: char): (s: string)
    ensures s != [] && IsUriSafe(s)
  {
    if IsUnreserved(c) then [c] else PercentBytes(Utf8(c))
  }

  /** `encodeURIComponent(s)`: the result consists of unreserved characters
      and `%` alone, so in particular it holds no `&`, `?`, `=` or `#`. */
  function Encode(s: string): (r: string)
    ensures |r| >= |s| && IsUriSafe(r)
  {
    if s == [] then [] else EncodeChar(s[0]) + Encode(s[1..])
  }

  lemma {:induction false} EncodeAppend(a: string, b: string)
    ensures Encode(a + b) == Encode(a) + Encode(b)
  {
    if a == [] {
      assert a + b == b;
    } else {
      assert (a + b)[1..] == a[1..] + b;
      EncodeAppend(a[1..], b);
    }
  }

  // ---------------------------------------------------------------------
  // decodeURIComponent

  /** The octet written as an escape triple at position `i` of `s`, if any. */
  function EscapedByte(s: string, i: nat): (r: Option<Byte>)
    ensures r.Some? ==> i + 3 <= |s| && s[i] == '%'
  {
    if i + 3 <= |s| && s[i] == '%' then
      match (HexValue(s[i + 1]), HexValue(s[i + 2]))
      case (Some(hi), Some(lo)) => Some(hi * 16 + lo)
      case _ => None
    else None
  }

  /** The six payload bits of the continuation octet escaped at position `i`. */
  function ContinuationAt(s: string, i: nat): (r: Option<int>)
    ensures r.Some? ==> 0 <= r.value < 64
  {
    match EscapedByte(s, i)
    case Some(b) => if IsContinuationByte(b) then Some(b - 0x80) else None
    case None => None
  }

  /** The first character `decodeURIComponent` reads from `s`, with the number
      of characters of `s` it takes; `None` where it throws `URIError` (a bad
      escape, a stray continuation octet, a truncated sequence, an overlong
      form, a surrogate or a value beyond U+10FFFF). */
  function DecodeFirst(s: string): (r: Option<(char, nat)>)
    requires s != []
    ensures r.Some? ==> 1 <= r.value.1 <= |s|
  {
    if s[0] != '%' then Some((s[0], 1))
    else match EscapedByte(s, 0)
      case None => None
      case Some(b) =>
        if b < 0x80 then Some((b as char, 3))
        else if b < 0xC0 then None
        else if b < 0xE0 then
          match ContinuationAt(s, 3)
          case Some(c1) =>
            var cp := (b - 0xC0) * 64 + c1;
            if 0x80 <= cp then Some((cp as char, 6)) else None
          case None => None
        else if b < 0xF0 then
          match (ContinuationAt(s, 3), ContinuationAt(s, 6))
          case (Some(c1), Some(c2)) =>
            var cp := (b - 0xE0) * 4096 + c1 * 64 + c2;
            if 0x800 <= cp && !(0xD800 <= cp < 0xE000) then Some((cp as char, 9)) else None
          case _ => None
        else if b < 0xF8 then
          match (ContinuationAt(s, 3), ContinuationAt(s, 6), ContinuationAt(s, 9))
          case (Some(c1), Some(c2), Some(c3)) =>
            var cp := (b - 0xF0) * 262144 + c1 * 4096 + c2 * 64 + c3;
            if 0x10000 <= cp < 0x110000 then Some((cp as char, 12)) else None
          case _ => None
        else None
  }

  /** `decodeURIComponent(s)`, or `None` where it throws `URIError`. */
  function Decode(s: string): (r: Option<string>)
    ensures r.Some? ==> |r.value| <= |s|
    decreases |s|
  {
    if s == [] then Some([])
    else match DecodeFirst(s)
      case None => None
      case Some((c, k)) =>
        match Decode(s[k..])
        case None => None
        case Some(rest) => Some([c] + rest)
  }

  // ---------------------------------------------------------------------
  // Decoding undoes encoding

  lemma {:induction false} PercentBytesAt(bs: seq<Byte>, j: nat)
    requires j < |bs|
    ensures PercentBytes(bs)[3 * j..3 * j + 3] == PercentByte(bs[j])
  {
    if j > 0 {
      PercentBytesAt(bs[1..], j - 1);
      assert PercentBytes(bs) == PercentByte(bs[0]) + PercentBytes(bs[1..]);
    }
  }

  lemma EscapedByteOfTriple(s: string, i: nat, b: Byte)
    requires i + 3 <= |s| && s[i..i + 3] == PercentByte(b)
    ensures EscapedByte(s, i) == Some(b)
  {
    assert s[i] == '%' && s[i + 1] == HexDigit(b / 16) && s[i + 2] == HexDigit(b % 16);
    HexRoundTrip(b / 16);
    HexRoundTrip(b % 16);
  }

  lemma EscapedByteOfEncoded(bs: seq<Byte>, t: string, j: nat)
    requires j < |bs|
    ensures EscapedByte(PercentBytes(bs) + t, 3 * j) == Some(bs[j])
  {
    var p := PercentBytes(bs);
    var s := p + t;
    PercentBytesAt(bs, j);
    SliceOfPrefix(p, t, 3 * j, 3 * j + 3);
    EscapedByteOfTriple(s, 3 * j, bs[j]);
  }

  lemma SliceOfPrefix(p: string, t: string, i: nat, k: nat)
    requires i <= k <= |p|
    ensures (p + t)[i..k] == p[i..k]
  {
  }

  lemma ContinuationOfEncoded(bs: seq<Byte>, t: string, j: nat)
    requires 1 <= j < |bs| && IsContinuationByte(bs[j])
    ensures ContinuationAt(PercentBytes(bs) + t, 3 * j) == Some(bs[j] - 0x80)
  {
    EscapedByteOfEncoded(bs, t, j);
  }

  /** A code point is the sum of its 6-bit groups. */
  lemma SixBitGroups(cp: nat)
    ensures cp / 4096 == (cp / 64) / 64
    ensures cp / 262144 == (cp / 4096) / 64
    ensures cp == (cp / 4096) * 4096 + ((cp / 64) % 64) * 64 + cp % 64
    ensures cp == (cp / 262144) * 262144 + ((cp / 4096) % 64) * 4096 + ((cp / 64) % 64) * 64 + cp % 64
  {
    var q1, r0 := cp / 64, cp % 64;
    var q2, r1 := q1 / 64, q1 % 64;
    var q3, r2 := q2 / 64, q2 % 64;
    assert cp == q1 * 64 + r0;
    assert q1 == q2 * 64 + r1;
    assert q2 == q3 * 64 + r2;
    assert cp == q2 * 4096 + r1 * 64 + r0;
    assert cp == q3 * 262144 + r2 * 4096 + r1 * 64 + r0;
  }

  /** The octets of a two-, three- or four-octet sequence give back the code
      point. */
  lemma Utf8Payload(c: char)
    ensures var bs, cp := Utf8(c), c as int;
            (|bs| == 2 ==> (bs[0] as int - 0xC0) * 64 + (bs[1] as int - 0x80) == cp) &&
            (|bs| == 3 ==> (bs[0] as int - 0xE0) * 4096 + (bs[1] as int - 0x80) * 64 + (bs[2] as int - 0x80) == cp) &&
            (|bs| == 4 ==> (bs[0] as int - 0xF0) * 262144 + (bs[1] as int - 0x80) * 4096 +
                           (bs[2] as int - 0x80) * 64 + (bs[3] as int - 0x80) == cp)
  {
    SixBitGroups(c as int);
  }

  lemma DecodeFirstTwo(s: string, b0: Byte, c1: int, c: char)
    requires s != [] && s[0] == '%' && EscapedByte(s, 0) == Some(b0) && 0xC0 <= b0 < 0xE0
    requires ContinuationAt(s, 3) == Some(c1)
    requires (b0 - 0xC0) * 64 + c1 == c as int && 0x80 <= c as int
    ensures DecodeFirst(s) == Some((c, 6))
  {
  }

  lemma DecodeFirstThree(s: string, b0: Byte, c1: int, c2: int, c: char)
    requires s != [] && s[0] == '%' && EscapedByte(s, 0) == Some(b0) && 0xE0 <= b0 < 0xF0
    requires ContinuationAt(s, 3) == Some(c1) && ContinuationAt(s, 6) == Some(c2)
    requires (b0 - 0xE0) * 4096 + c1 * 64 + c2 == c as int && 0x800 <= c as int
    ensures DecodeFirst(s) == Some((c, 9))
  {
  }

  lemma DecodeFirstFour(s: string, b0: Byte, c1: int, c2: int, c3: int, c: char)
    requires s != [] && s[0] == '%' && EscapedByte(s, 0) == Some(b0) && 0xF0 <= b0 < 0xF8
    requires ContinuationAt(s, 3) == Some(c1) && ContinuationAt(s, 6) == Some(c2) && ContinuationAt(s, 9) == Some(c3)
    requires (b0 - 0xF0) * 262144 + c1 * 4096 + c2 * 64 + c3 == c as int && 0x10000 <= c as int
    ensures DecodeFirst(s) == Some((c, 12))
  {
  }

  lemma DecodeFirstOfTwo(bs: seq<Byte>, c: char, t: string)
    requires |bs| == 2 && IsLeadByte(bs[0], 2) && IsContinuationByte(bs[1])
    requires (bs[0] as int - 0xC0) * 64 + (bs[1] as int - 0x80) == c as int && 0x80 <= c as int
    ensures DecodeFirst(PercentBytes(bs) + t) == Some((c, 6))
  {
    var s := PercentBytes(bs) + t;
    EscapedByteOfEncoded(bs, t, 0);
    ContinuationOfEncoded(bs, t, 1);
    DecodeFirstTwo(s, bs[0], bs[1] as int - 0x80, c);
  }

  lemma DecodeFirstOfThree(bs: seq<Byte>, c: char, t: string)
    requires |bs| == 3 && IsLeadByte(bs[0], 3) && IsContinuationByte(bs[1]) && IsContinuationByte(bs[2])
    requires (bs[0] as int - 0xE0) * 4096 + (bs[1] as int - 0x80) * 64 + (bs[2] as int - 0x80) == c as int && 0x800 <= c as int
    ensures DecodeFirst(PercentBytes(bs) + t) == Some((c, 9))
  {
    var s := PercentBytes(bs) + t;
    EscapedByteOfEncoded(bs, t, 0);
    ContinuationOfEncoded(bs, t, 1);
    ContinuationOfEncoded(bs, t, 2);
    DecodeFirstThree(s, bs[0], bs[1] as int - 0x80, bs[2] as int - 0x80, c);
  }

  lemma DecodeFirstOfFour(bs: seq<Byte>, c: char, t: string)
    requires |bs| == 4 && IsLeadByte(bs[0], 4)
    requires IsContinuationByte(bs[1]) && IsContinuationByte(bs[2]) && IsContinuationByte(bs[3])
    requires (bs[0] as int - 0xF0) * 262144 + (bs[1] as int - 0x80) * 4096 + (bs[2] as int - 0x80) * 64 + (bs[3] as int - 0x80) == c as int
    requires 0x10000 <= c as int
    ensures DecodeFirst(PercentBytes(bs) + t) == Some((c, 12))
  {
    var s := PercentBytes(bs) + t;
    EscapedByteOfEncoded(bs, t, 0);
    ContinuationOfEncoded(bs, t, 1);
    ContinuationOfEncoded(bs, t, 2);
    ContinuationOfEncoded(bs, t, 3);
    DecodeFirstFour(s, bs[0], bs[1] as int - 0x80, bs[2] as int - 0x80, bs[3] as int - 0x80, c);
  }

  lemma DecodeFirstOfEncoded(c: char, t: string)
    ensures DecodeFirst(EncodeChar(c) + t) == Some((c, |EncodeChar(c)|))
  {
    if !IsUnreserved(c) {
      var cp := c as int;
      var bs := Utf8(c);
      Utf8Payload(c);
      if cp < 0x80 {
        EscapedByteOfEncoded(bs, t, 0);
      } else if cp < 0x800 {
        DecodeFirstOfTwo(bs, c, t);
      } else if cp < 0x10000 {
        DecodeFirstOfThree(bs, c, t);
      } else {
        DecodeFirstOfFour(bs, c, t);
      }
    }
  }

  lemma DecodeCons(c: char, t: string)
    ensures Decode(EncodeChar(c) + t) ==
            match Decode(t) case None => None case Some(rest) => Some([c] + rest)
  {
    var s := EncodeChar(c) + t;
    DecodeFirstOfEncoded(c, t);
    assert s[|EncodeChar(c)|..] == t;
  }

  /** `decodeURIComponent(encodeURIComponent(s)) == s` for every string. */
  lemma {:induction false} DecodeEncode(s: string)
    ensures Decode(Encode(s)) == Some(s)
  {
    if s != [] {
      DecodeEncode(s[1..]);
      DecodeCons(s[0], Encode(s[1..]));
      assert [s[0]] + s[1..] == s;
    }
  }

  // ---------------------------------------------------------------------
  // The %0A to %0D%0A rewrite

  /** `s.replace(/%0A/g, '%0D%0A')`: a left-to-right scan replacing every
      occurrence of `%0A`. */
  function CrlfEscapes(s: string): (r: string)
    ensures |r| >= |s|
  {
    if |s| >= 3 && s[..3] == "%0A" then "%0D%0A" + CrlfEscapes(s[3..])
    else if s == [] then []
    else [s[0]] + CrlfEscapes(s[1..])
  }

  /** Every three-character window of `s`. */
  function Triples(s: string): (r: set<string>)
    ensures forall w :: w in r ==> |w| == 3
  {
    if |s| < 3 then {} else {s[..3]} + Triples(s[1..])
  }

  /** The rewrite keeps a text URI-safe. */
  lemma {:induction false} CrlfEscapesSafe(s: string)
    requires IsUriSafe(s)
    ensures IsUriSafe(CrlfEscapes(s))
    decreases |s|
  {
    if |s| >= 3 && s[..3] == "%0A" {
      CrlfEscapesSafe(s[3..]);
    } else if s != [] {
      CrlfEscapesSafe(s[1..]);
    }
  }

  /** A text without `%0A` passes through the rewrite unchanged. */
  lemma {:induction false} CrlfEscapesUnchanged(s: string)
    requires "%0A" !in Triples(s)
    ensures CrlfEscapes(s) == s
    decreases |s|
  {
    if |s| >= 3 {
      assert s[..3] in Triples(s);
      assert Triples(s[1..]) <= Triples(s);
      CrlfEscapesUnchanged(s[1..]);
    } else if s != [] {
      assert Triples(s[1..]) == {};
      CrlfEscapesUnchanged(s[1..]);
    }
  }

  lemma CrlfEscapesKeep(s: string)
    requires s != [] && (s[0] != '%' || |s| < 3 || s[..3] != "%0A")
    ensures CrlfEscapes(s) == [s[0]] + CrlfEscapes(s[1..])
  {
  }

  /** `%0A` is the escape of the line feed octet and of no other. */
  lemma PercentByteLineFeed(b: Byte)
    ensures PercentByte(b) == "%0A" <==> b == 10
  {
    if PercentByte(b) == "%0A" {
      HexRoundTrip(b / 16);
      HexRoundTrip(b % 16);
    }
  }

  /** A three-character prefix other than `%0A` whose last two characters are
      not `%` passes through the rewrite unchanged. */
  lemma CrlfEscapesPrefix(p: string, u: string)
    requires |p| == 3 && p != "%0A" && p[1] != '%' && p[2] != '%'
    ensures CrlfEscapes(p + u) == p + CrlfEscapes(u)
  {
    var s := p + u;
    SliceOfPrefix(p, u, 0, 3);
    CrlfEscapesKeep(s);
    assert s[1..][0] == p[1] && s[1..][1..][0] == p[2];
    CrlfEscapesKeep(s[1..]);
    CrlfEscapesKeep(s[1..][1..]);
    assert s[1..][1..][1..] == u;
    assert [p[0]] + ([p[1]] + ([p[2]] + CrlfEscapes(u))) == p + CrlfEscapes(u);
  }

  lemma CrlfEscapesTriple(b: Byte, u: string)
    ensures CrlfEscapes(PercentByte(b) + u) ==
            (if b == 10 then "%0D%0A" else PercentByte(b)) + CrlfEscapes(u)
  {
    var p := PercentByte(b);
    PercentByteLineFeed(b);
    if b == 10 {
      SliceOfPrefix(p, u, 0, 3);
      assert (p + u)[3..] == u;
    } else {
      CrlfEscapesPrefix(p, u);
    }
  }

  lemma {:induction false} CrlfEscapesBytes(bs: seq<Byte>, u: string)
    requires forall i :: 0 <= i < |bs| ==> bs[i] != 10
    ensures CrlfEscapes(PercentBytes(bs) + u) == PercentBytes(bs) + CrlfEscapes(u)
  {
    if bs == [] {
      assert PercentBytes(bs) + u == u;
    } else {
      var head, tail := PercentByte(bs[0]), PercentBytes(bs[1..]);
      assert PercentBytes(bs) == head + tail;
      ConcatAssoc(head, tail, u);
      ConcatAssoc(head, tail, CrlfEscapes(u));
      CrlfEscapesTriple(bs[0], tail + u);
      CrlfEscapesBytes(bs[1..], u);
    }
  }

  lemma EncodeLineBreaks()
    ensures EncodeChar('\n') == PercentByte(10) == "%0A"
    ensures EncodeChar('\r') == PercentByte(13) == "%0D"
    ensures Encode("\r\n") == "%0D%0A"
  {
    assert Utf8('\n') == [10] && Utf8('\r') == [13];
    assert PercentBytes([10]) == PercentByte(10) + PercentBytes([]);
    assert PercentBytes([13]) == PercentByte(13) + PercentBytes([]);
    assert Encode("\r\n") == EncodeChar('\r') + Encode("\n");
    assert Encode("\n") == EncodeChar('\n') + Encode("");
  }

  lemma CrlfEscapesLineFeed(u: string)
    ensures CrlfEscapes(EncodeChar('\n') + u) == Encode("\r\n") + CrlfEscapes(u)
  {
    EncodeLineBreaks();
    CrlfEscapesTriple(10, u);
  }

  lemma CrlfEscapesUnreserved(c: char, u: string)
    requires IsUnreserved(c)
    ensures CrlfEscapes(EncodeChar(c) + u) == Encode([c]) + CrlfEscapes(u)
  {
    var s := [c] + u;
    CrlfEscapesKeep(s);
    assert s[1..] == u;
  }

  /** Only the line feed itself encodes to the octet 10. */
  lemma Utf8NoLineFeed(c: char)
    requires c != '\n'
    ensures forall i :: 0 <= i < |Utf8(c)| ==> Utf8(c)[i] != 10
  {
  }

  lemma CrlfEscapesReserved(c: char, u: string)
    requires !IsUnreserved(c) && c != '\n'
    ensures CrlfEscapes(EncodeChar(c) + u) == Encode([c]) + CrlfEscapes(u)
  {
    var bs := Utf8(c);
    Utf8NoLineFeed(c);
    calc {
      CrlfEscapes(EncodeChar(c) + u);
      CrlfEscapes(PercentBytes(bs) + u);
      { CrlfEscapesBytes(bs, u); }
      PercentBytes(bs) + CrlfEscapes(u);
      { assert Encode([c]) == EncodeChar(c) + Encode([c][1..]); }
      Encode([c]) + CrlfEscapes(u);
    }
  }

  lemma CrlfEscapesChar(c: char, u: string)
    ensures CrlfEscapes(EncodeChar(c) + u) ==
            Encode(if c == '\n' then "\r\n" else [c]) + CrlfEscapes(u)
  {
    if c == '\n' {
      CrlfEscapesLineFeed(u);
    } else if IsUnreserved(c) {
      CrlfEscapesUnreserved(c, u);
    } else {
      CrlfEscapesReserved(c, u);
    }
  }

  /** Rewriting the encoded line feeds is the same as encoding the text after
      putting a carriage return before each of its line feeds: every `%0A`
      the rewrite touches stands for a line feed, and nothing else changes. */
  lemma {:induction false} CrlfEscapesEncode(s: string)
    ensures CrlfEscapes(Encode(s)) == Encode(ToCrlf(s))
  {
    if s != [] {
      var head := if s[0] == '\n' then "\r\n" else [s[0]];
      CrlfEscapesEncode(s[1..]);
      CrlfEscapesChar(s[0], Encode(s[1..]));
      EncodeAppend(head, ToCrlf(s[1..]));
    }
  }
}
