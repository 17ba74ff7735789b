/** Fixed-width hashes and their hexadecimal text form. */
module Crypto {
  import opened Wrappers

  newtype byte = x: int | 0 <= x < 256

  /** Number of bytes of a `Crypto::Hash`. */
  const HashSize: nat := 32

  /** A 32-byte hash (block hash, transaction hash or payment id). */
  type Hash = h: seq<byte> | |h| == HashSize witness seq(32, _ => 0 as byte)

  predicate IsHexDigit(c: char) {
    ('0' <= c <= '9') || ('a' <= c <= 'f') || ('A' <= c <= 'F')
  }

  function HexDigitValue(c: char): (d: nat)
    requires IsHexDigit(c)
    ensures d < 16
  {
    if '0' <= c <= '9' then (c - '0') as nat
    else if 'a' <= c <= 'f' then (c - 'a') as nat + 10
    else (c - 'A') as nat + 10
  }

  /** Lower-case hexadecimal digit of a nibble. */
  function HexChar(d: nat): (c: char)
    requires d < 16
    ensures IsHexDigit(c) && HexDigitValue(c) == d
  {
    if d < 10 then '0' + d as char else 'a' + (d - 10) as char
  }

  /** `podFromHex` for a hash: the text must be exactly 64 hexadecimal
      digits (either case); byte i is read from digits 2i (high nibble)
      and 2i+1 (low nibble). */
  function HashFromHex(s: string): (r: Option<Hash>)
    ensures r.Some? <==> |s| == 2 * HashSize && forall i :: 0 <= i < |s| ==> IsHexDigit(s[i])
  {
    if |s| == 2 * HashSize && forall i :: 0 <= i < |s| ==> IsHexDigit(s[i]) then
      Some(seq(HashSize, i requires 0 <= i < HashSize =>
        (16 * HexDigitValue(s[2 * i]) + HexDigitValue(s[2 * i + 1])) as byte))
    else
      None
  }

  /** Lower-case hexadecimal text of a hash, as the logger prints it. */
  function HashToHex(h: Hash): (s: string)
    ensures |s| == 2 * HashSize
  {
    seq(2 * HashSize, i requires 0 <= i < 2 * HashSize =>
      if i % 2 == 0 then HexChar(h[i / 2] as nat / 16) else HexChar(h[i / 2] as nat % 16))
  }

  /** Digits 2i and 2i+1 of the text form read back as byte i. */
  lemma HexDigitsOfByte(h: Hash, i: nat)
    requires i < HashSize
    ensures var s := HashToHex(h);
      IsHexDigit(s[2 * i]) && IsHexDigit(s[2 * i + 1])
      && (16 * HexDigitValue(s[2 * i]) + HexDigitValue(s[2 * i + 1])) as byte == h[i]
  {
    var s := HashToHex(h);
    assert (2 * i) / 2 == i && (2 * i) % 2 == 0;
    assert (2 * i + 1) / 2 == i && (2 * i + 1) % 2 == 1;
    var b := h[i] as nat;
    assert HexDigitValue(s[2 * i]) == b / 16;
    assert HexDigitValue(s[2 * i + 1]) == b % 16;
  }

  /** Decoding the text form of a hash gives the hash back. */
  lemma HexRoundTrip(h: Hash)
    ensures HashFromHex(HashToHex(h)) == Some(h)
  {
    var s := HashToHex(h);
    forall i | 0 <= i < |s|
      ensures IsHexDigit(s[i])
    {
      HexDigitsOfByte(h, i / 2);
      assert i == 2 * (i / 2) || i == 2 * (i / 2) + 1;
    }
    var r := HashFromHex(s).value;
    forall i | 0 <= i < HashSize
      ensures r[i] == h[i]
    {
      HexDigitsOfByte(h, i);
    }
    assert r == h;
  }
}
