/** Bytes, hexadecimal text and the big-endian reading of a byte string. */
module Bytes {

  type byte = b: int | 0 <= b < 256

  /** Big-endian unsigned value of a byte string. */
  function BigEndian(bs: seq<byte>): (v: nat)
  {
    if bs == [] then 0 else 256 * BigEndian(bs[..|bs| - 1]) + bs[|bs| - 1]
  }

  function Pow16(k: nat): (p: nat)
    ensures p >= 1
  {
    if k == 0 then 1 else 16 * Pow16(k - 1)
  }

  // ------------------------------------------------------------ hexdigest

  predicate IsLowerHex(c: char)
  {
    '0' <= c <= '9' || 'a' <= c <= 'f'
  }

  /** A digit accepted by `int(s, 16)`. */
  predicate IsHexDigit(c: char)
  {
    '0' <= c <= '9' || 'a' <= c <= 'f' || 'A' <= c <= 'F'
  }

  predicate AllHex(s: string)
  {
    forall k :: 0 <= k < |s| ==> IsHexDigit(s[k])
  }

  function HexChar(v: nat): (c: char)
    requires v < 16
    ensures IsLowerHex(c) && HexValue(c) == v
  {
    if v < 10 then ('0' as int + v) as char else ('a' as int + v - 10) as char
  }

  function HexValue(c: char): (v: nat)
    requires IsHexDigit(c)
    ensures v < 16
  {
    if '0' <= c <= '9' then (c as int) - ('0' as int)
    else if 'a' <= c <= 'f' then (c as int) - ('a' as int) + 10
    else (c as int) - ('A' as int) + 10
  }

  /** `hashlib`'s `hexdigest()`: two lower-case hex digits per byte, high nibble first. */
  function HexDigest(bs: seq<byte>): (s: string)
    ensures |s| == 2 * |bs|
    ensures forall k :: 0 <= k < |s| ==> IsLowerHex(s[k])
  {
    if bs == [] then []
    else
      var b := bs[|bs| - 1];
      HexDigest(bs[..|bs| - 1]) + [HexChar(b / 16), HexChar(b % 16)]
  }

  /** `int(s, 16)` on a string of hex digits; it is below 16 to the number of digits. */
  function ParseHex(s: string): (v: nat)
    requires AllHex(s)
    ensures v < Pow16(|s|)
  {
    if s == [] then 0
    else
      var p := ParseHex(s[..|s| - 1]);
      var d := HexValue(s[|s| - 1]);
      assert p * 16 + d <= (Pow16(|s| - 1) - 1) * 16 + 15;
      p * 16 + d
  }

  /** The first 2k digits of a hex digest are the digest of the first k bytes. */
  lemma {:induction false} HexDigestPrefix(bs: seq<byte>, k: nat)
    requires k <= |bs|
    ensures HexDigest(bs)[..2 * k] == HexDigest(bs[..k])
    decreases |bs|
  {
    if k < |bs| {
      var init := bs[..|bs| - 1];
      HexDigestPrefix(init, k);
      assert init[..k] == bs[..k];
      assert HexDigest(bs)[..2 * k] == HexDigest(init)[..2 * k];
    } else {
      assert bs[..k] == bs;
    }
  }

  /** Reading a hex digest back with `int(_, 16)` gives the big-endian value of the bytes. */
  lemma {:induction false} ParseHexDigest(bs: seq<byte>)
    ensures AllHex(HexDigest(bs))
    ensures ParseHex(HexDigest(bs)) == BigEndian(bs)
    decreases |bs|
  {
    var s := HexDigest(bs);
    assert AllHex(s);
    if bs != [] {
      var init := bs[..|bs| - 1];
      var b := bs[|bs| - 1];
      ParseHexDigest(init);
      var h := HexDigest(init);
      assert s == h + [HexChar(b / 16), HexChar(b % 16)];
      assert s[..|s| - 1] == h + [HexChar(b / 16)];
      assert (h + [HexChar(b / 16)])[..|h|] == h;
      calc {
        ParseHex(s);
        ParseHex(h + [HexChar(b / 16)]) * 16 + b % 16;
        (ParseHex(h) * 16 + b / 16) * 16 + b % 16;
        BigEndian(init) * 256 + b;
      }
    }
  }
}
