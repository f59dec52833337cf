/**
 * Bytes and the UTF-8 encoding of strings, i.e. what Rust's `str::as_bytes`
 * hands to the SHA-1 hasher and to the socket.
 */
module Utf8 {
  newtype byte = x: int | 0 <= x < 256

  /** The UTF-8 encoding of one Unicode scalar value (RFC 3629, section 3). */
  function EncodeScalar(c: char): (r: seq<byte>)
    ensures 1 <= |r| <= 4
    ensures |r| == 1 <==> c as int < 0x80
    ensures |r| == 2 <==> 0x80 <= c as int < 0x800
    ensures |r| == 3 <==> 0x800 <= c as int < 0x10000
    ensures |r| == 1 ==> r[0] as int == c as int
    ensures |r| == 2 ==> 0xC0 <= r[0] as int < 0xE0
    ensures |r| == 3 ==> 0xE0 <= r[0] as int < 0xF0
    ensures |r| == 4 ==> 0xF0 <= r[0] as int < 0xF8
    ensures forall k :: 1 <= k < |r| ==> 0x80 <= r[k] as int < 0xC0
  {
    var n := c as int;
    if n < 0x80 then
      [n as byte]
    else if n < 0x800 then
      [(0xC0 + n / 0x40) as byte, (0x80 + n % 0x40) as byte]
    else if n < 0x10000 then
      [(0xE0 + n / 0x1000) as byte, (0x80 + n / 0x40 % 0x40) as byte, (0x80 + n % 0x40) as byte]
    else
      [(0xF0 + n / 0x40000) as byte, (0x80 + n / 0x1000 % 0x40) as byte,
       (0x80 + n / 0x40 % 0x40) as byte, (0x80 + n % 0x40) as byte]
  }

  /** `s.as_bytes()`: the UTF-8 bytes of a string, character after character. */
  function AsBytes(s: string): (r: seq<byte>)
    ensures |r| >= |s|
    decreases |s|
  {
    if s == [] then [] else EncodeScalar(s[0]) + AsBytes(s[1..])
  }

  predicate IsAscii(s: string) {
    forall i :: 0 <= i < |s| ==> s[i] as int < 0x80
  }

  /** Encoding distributes over concatenation: hashing `a` then `b` hashes the bytes of `a + b`. */
  lemma {:induction false} AsBytesConcat(a: string, b: string)
    ensures AsBytes(a + b) == AsBytes(a) + AsBytes(b)
    decreases |a|
  {
    if a == [] {
      assert a + b == b;
    } else {
      var e := EncodeScalar(a[0]);
      assert (a + b)[0] == a[0];
      assert (a + b)[1..] == a[1..] + b;
      assert AsBytes(a + b) == e + AsBytes(a[1..] + b);
      AsBytesConcat(a[1..], b);
      assert e + (AsBytes(a[1..]) + AsBytes(b)) == (e + AsBytes(a[1..])) + AsBytes(b);
    }
  }

  /** The bytes of `b` follow those of `a` in the bytes of `a + b`. */
  lemma {:induction false} AsBytesConcatIndex(a: string, b: string, i: nat)
    requires i < |AsBytes(b)|
    ensures |AsBytes(a)| + i < |AsBytes(a + b)|
    ensures AsBytes(a + b)[|AsBytes(a)| + i] == AsBytes(b)[i]
  {
    var x, y := AsBytes(a), AsBytes(b);
    AsBytesConcat(a, b);
    assert (x + y)[|x| + i] == y[i];
  }

  /** An ASCII string encodes to one byte per character, each its code point. */
  lemma {:induction false} AsciiAsBytes(s: string)
    requires IsAscii(s)
    ensures |AsBytes(s)| == |s|
    ensures forall i :: 0 <= i < |s| ==> AsBytes(s)[i] as int == s[i] as int
    decreases |s|
  {
    if s != [] {
      assert IsAscii(s[1..]) by {
        forall i | 0 <= i < |s[1..]| ensures s[1..][i] as int < 0x80 {
          assert s[1..][i] == s[i + 1];
        }
      }
      AsciiAsBytes(s[1..]);
    }
  }

  /** The six payload bits of a continuation byte. */
  function Payload(b: byte): int {
    b as int - 0x80
  }

  /** Reads a code point back out of the bytes of one encoded character. */
  function DecodeScalar(r: seq<byte>): int
    requires 1 <= |r| <= 4
  {
    if |r| == 1 then r[0] as int
    else if |r| == 2 then (r[0] as int - 0xC0) * 0x40 + Payload(r[1])
    else if |r| == 3 then ((r[0] as int - 0xE0) * 0x40 + Payload(r[1])) * 0x40 + Payload(r[2])
    else (((r[0] as int - 0xF0) * 0x40 + Payload(r[1])) * 0x40 + Payload(r[2])) * 0x40 + Payload(r[3])
  }

  /** Decoding undoes the encoding of every character. */
  lemma EncodeScalarRoundTrip(c: char)
    ensures DecodeScalar(EncodeScalar(c)) == c as int
  {
    var n := c as int;
    var r := EncodeScalar(c);
    if 0x80 <= n < 0x800 {
      assert n == n / 0x40 * 0x40 + n % 0x40;
    } else if 0x800 <= n < 0x10000 {
      var q := n / 0x40;
      assert n == q * 0x40 + n % 0x40;
      assert q == n / 0x1000 * 0x40 + q % 0x40;
    } else if n >= 0x10000 {
      var q := n / 0x40;
      var q2 := q / 0x40;
      assert n == q * 0x40 + n % 0x40;
      assert q == q2 * 0x40 + q % 0x40;
      assert q2 == n / 0x1000;
      assert q2 == n / 0x40000 * 0x40 + q2 % 0x40;
    }
  }

  /** Distinct characters have distinct encodings. */
  lemma EncodeScalarInjective(c: char, d: char)
    requires EncodeScalar(c) == EncodeScalar(d)
    ensures c == d
  {
    EncodeScalarRoundTrip(c);
    EncodeScalarRoundTrip(d);
  }
}
