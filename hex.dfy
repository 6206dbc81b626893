/** Base 16 as `binascii` does it: `hexlify` writes two lowercase digits per
    byte, high nibble first (section 8 of RFC 4648 with the lowercase
    alphabet); `unhexlify` rejects an odd-length string first and then any
    character that is not a hexadecimal digit, and accepts digits of either
    case. */
module Hex {
  import opened Text

  /** An 8-bit value, as `bytes` and `bytearray` hold them. */
  type byte = bv8

  datatype HexError = OddLength | NonHexDigit

  datatype Decoded = Ok(bytes: seq<byte>) | Err(error: HexError)

  /** The lowercase alphabet `hexlify` writes. */
  predicate IsLowerDigit(c: char) {
    '0' <= c <= '9' || 'a' <= c <= 'f'
  }

  /** The lowercase digit for a nibble. */
  function DigitOf(n: byte): (c: char)
    requires n < 16
    ensures IsLowerDigit(c)
  {
    if n < 10 then ('0' as int + n as int) as char else ('a' as int + n as int - 10) as char
  }

  predicate IsHexChar(c: char) {
    '0' <= c <= '9' || 'a' <= c <= 'f' || 'A' <= c <= 'F'
  }

  predicate IsHexString(s: string) {
    forall k :: 0 <= k < |s| ==> IsHexChar(s[k])
  }

  predicate IsLowerHex(s: string) {
    forall k :: 0 <= k < |s| ==> IsLowerDigit(s[k])
  }

  /** The value of one hexadecimal digit of either case. */
  function NibbleOf(c: char): (n: byte)
    requires IsHexChar(c)
    ensures n < 16
    ensures IsLowerDigit(c) ==> DigitOf(n) == c
  {
    if c <= '9' then (c as int - '0' as int) as byte
    else if c <= 'F' then (c as int - 'A' as int + 10) as byte
    else (c as int - 'a' as int + 10) as byte
  }

  lemma NibbleOfDigitOf(n: byte)
    requires n < 16
    ensures NibbleOf(DigitOf(n)) == n
  {
  }

  /** The two digits of one byte, high nibble first. */
  function HexPair(b: byte): (s: string)
    ensures |s| == 2 && IsLowerDigit(s[0]) && IsLowerDigit(s[1])
  {
    [DigitOf(b >> 4), DigitOf(b & 15)]
  }

  /** `binascii.hexlify`. */
  function Hexlify(bytes: seq<byte>): (s: string)
    ensures |s| == 2 * |bytes|
    ensures IsLowerHex(s)
  {
    if bytes == [] then [] else HexPair(bytes[0]) + Hexlify(bytes[1..])
  }

  /** Pairs of digits, high nibble first; the length is known to be even. */
  function DecodePairs(s: string): (r: Decoded)
    requires |s| % 2 == 0
    ensures r.Ok? <==> IsHexString(s)
    ensures r.Ok? ==> 2 * |r.bytes| == |s|
    ensures r.Err? ==> r.error == NonHexDigit
  {
    if s == [] then Ok([])
    else if !IsHexChar(s[0]) || !IsHexChar(s[1]) then Err(NonHexDigit)
    else
      match DecodePairs(s[2..])
      case Err(e) => Err(e)
      case Ok(rest) => Ok([(NibbleOf(s[0]) << 4) | NibbleOf(s[1])] + rest)
  }

  /** `binascii.unhexlify`: decodable exactly when the length is even and
      every character is a digit; an odd length is reported before any bad
      character. */
  function Unhexlify(s: string): (r: Decoded)
    ensures r.Ok? <==> |s| % 2 == 0 && IsHexString(s)
    ensures r.Ok? ==> 2 * |r.bytes| == |s|
    ensures r.Err? ==> (r.error == OddLength <==> |s| % 2 == 1)
  {
    if |s| % 2 == 1 then Err(OddLength) else DecodePairs(s)
  }

  /** Decoding what `Hexlify` wrote gives the bytes back. */
  lemma {:induction false} UnhexlifyHexlify(bytes: seq<byte>)
    ensures Unhexlify(Hexlify(bytes)) == Ok(bytes)
  {
    if bytes != [] {
      var b := bytes[0];
      var s := Hexlify(bytes);
      assert s[2..] == Hexlify(bytes[1..]);
      UnhexlifyHexlify(bytes[1..]);
      NibbleOfDigitOf(b >> 4);
      NibbleOfDigitOf(b & 15);
      assert ((b >> 4) << 4) | (b & 15) == b;
      assert [b] + bytes[1..] == bytes;
    }
  }

  lemma PairRoundTrip(c0: char, c1: char)
    requires IsLowerDigit(c0) && IsLowerDigit(c1)
    ensures var b := (NibbleOf(c0) << 4) | NibbleOf(c1);
      DigitOf(b >> 4) == c0 && DigitOf(b & 15) == c1
  {
    var hi, lo := NibbleOf(c0), NibbleOf(c1);
    var b := (hi << 4) | lo;
    assert b >> 4 == hi && b & 15 == lo;
  }

  lemma LowerHexIsHex(s: string)
    requires IsLowerHex(s)
    ensures IsHexString(s)
  {
    forall k | 0 <= k < |s| ensures IsHexChar(s[k]) {
      assert IsLowerDigit(s[k]);
    }
  }

  lemma LowerHexTail(s: string)
    requires |s| >= 2 && IsLowerHex(s)
    ensures IsLowerHex(s[2..])
  {
    forall k | 0 <= k < |s| - 2 ensures IsLowerDigit(s[2..][k]) {
      assert s[2..][k] == s[k + 2];
    }
  }

  lemma HexlifyCons(b: byte, tail: seq<byte>)
    ensures Hexlify([b] + tail) == HexPair(b) + Hexlify(tail)
  {
    assert ([b] + tail)[0] == b && ([b] + tail)[1..] == tail;
  }

  /** Re-encoding a decoded lowercase string gives the string back, so the
      two directions are inverse on the strings `Hexlify` can produce. */
  lemma {:induction false} HexlifyUnhexlify(s: string)
    requires |s| % 2 == 0 && IsLowerHex(s)
    ensures Unhexlify(s).Ok? && Hexlify(Unhexlify(s).bytes) == s
  {
    LowerHexIsHex(s);
    if s != [] {
      var rest := s[2..];
      LowerHexTail(s);
      HexlifyUnhexlify(rest);
      PairRoundTrip(s[0], s[1]);
      var b := (NibbleOf(s[0]) << 4) | NibbleOf(s[1]);
      var tail := Unhexlify(rest).bytes;
      assert Unhexlify(s).bytes == [b] + tail;
      HexlifyCons(b, tail);
      assert HexPair(b) + rest == s;
    }
  }

  lemma {:induction false} HexlifyIsExpand(bytes: seq<byte>)
    ensures Hexlify(bytes) == Expand(bytes, HexPair)
  {
    if bytes != [] {
      HexlifyIsExpand(bytes[1..]);
    }
  }

  /** Hex encoding works byte by byte, so it distributes over concatenation. */
  lemma HexlifyAppend(a: seq<byte>, b: seq<byte>)
    ensures Hexlify(a + b) == Hexlify(a) + Hexlify(b)
  {
    HexlifyIsExpand(a + b);
    HexlifyIsExpand(a);
    HexlifyIsExpand(b);
    ExpandAppend(a, b, HexPair);
  }

  lemma HexlifySplit(bytes: seq<byte>, n: nat)
    requires n <= |bytes|
    ensures Hexlify(bytes)[..2 * n] == Hexlify(bytes[..n])
    ensures Hexlify(bytes)[2 * n..] == Hexlify(bytes[n..])
  {
    TakeDrop(bytes, n);
    HexlifyAppend(bytes[..n], bytes[n..]);
  }

  /** The hex characters `[2 * lo, 2 * hi)` encode exactly the bytes `[lo, hi)`. */
  lemma HexlifySlice(bytes: seq<byte>, lo: nat, hi: nat)
    requires lo <= hi <= |bytes|
    ensures Hexlify(bytes)[2 * lo..2 * hi] == Hexlify(bytes[lo..hi])
  {
    var h := Hexlify(bytes);
    var front := bytes[..hi];
    HexlifySplit(bytes, hi);
    HexlifySplit(front, lo);
    assert front[lo..] == bytes[lo..hi];
    assert h[2 * lo..2 * hi] == h[..2 * hi][2 * lo..];
  }
}
