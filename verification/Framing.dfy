/** Byte fields preceded by a big-endian 64-bit length, and why concatenations of them read back uniquely. */
module Framing {
  import opened Common

  function BigEndian(n: nat, width: nat): (b: bytes)
    ensures |b| == width
  {
    if width == 0 then [] else BigEndian(n / 256, width - 1) + [n % 256]
  }

  function BigEndianValue(b: bytes): nat {
    if |b| == 0 then 0 else BigEndianValue(b[..|b| - 1]) * 256 + b[|b| - 1]
  }

  function Pow256(k: nat): nat {
    if k == 0 then 1 else 256 * Pow256(k - 1)
  }

  lemma {:induction false} BigEndianRoundTrip(n: nat, width: nat)
    requires n < Pow256(width)
    ensures BigEndianValue(BigEndian(n, width)) == n
    decreases width
  {
    if width > 0 {
      BigEndianRoundTrip(n / 256, width - 1);
      assert BigEndian(n, width)[..width - 1] == BigEndian(n / 256, width - 1);
    }
  }

  /** The first byte is the most significant one. */
  lemma {:induction false} FirstByteIsMostSignificant(b: bytes)
    requires |b| > 0
    ensures BigEndianValue(b) == b[0] * Pow256(|b| - 1) + BigEndianValue(b[1..])
    decreases |b|
  {
    if |b| > 1 {
      var front := b[..|b| - 1];
      FirstByteIsMostSignificant(front);
      assert front[1..] == b[1..][..|b| - 2];
    }
  }

  lemma U64Range()
    ensures Pow256(8) == U64_MAX + 1
  {
    assert Pow256(4) == 0x1_0000_0000;
    assert Pow256(6) == 0x1_0000_0000_0000;
  }

  /** A value behind its `u64` length. */
  function Field(value: bytes): (f: bytes)
    ensures |f| == 8 + |value|
  {
    BigEndian(|value|, 8) + value
  }

  /** Reads one field and what follows it. */
  function ReadField(b: bytes): Option<(bytes, bytes)> {
    if |b| < 8 then None
    else
      var n := BigEndianValue(b[..8]);
      if |b| - 8 < n then None else Some((b[8..8 + n], b[8 + n..]))
  }

  lemma {:induction false} BigEndianOfValue(b: bytes)
    ensures BigEndianValue(b) < Pow256(|b|) && BigEndian(BigEndianValue(b), |b|) == b
  {
    if |b| > 0 {
      var front, last := b[..|b| - 1], b[|b| - 1];
      BigEndianOfValue(front);
      assert BigEndianValue(b) / 256 == BigEndianValue(front) && BigEndianValue(b) % 256 == last;
      assert b == front + [last];
    }
  }

  /** Reading undoes writing. */
  lemma ReadFieldOfField(value: bytes, rest: bytes)
    requires |value| <= U64_MAX
    ensures ReadField(Field(value) + rest) == Some((value, rest))
  {
    U64Range();
    BigEndianRoundTrip(|value|, 8);
    var b := Field(value) + rest;
    assert b[..8] == BigEndian(|value|, 8);
  }

  /** Writing undoes reading. */
  lemma FieldOfReadField(b: bytes)
    requires ReadField(b).Some?
    ensures var (value, rest) := ReadField(b).value; |value| <= U64_MAX && b == Field(value) + rest
  {
    U64Range();
    BigEndianOfValue(b[..8]);
  }

  /** A short field starts with a zero byte. */
  lemma ShortFieldStartsWithZero(value: bytes)
    requires |value| < 256
    ensures Field(value)[0] == 0
  {
    assert BigEndian(|value|, 8)[..7] == BigEndian(0, 7);
    ZeroBytes(7);
    assert Field(value)[0] == BigEndian(|value|, 8)[..7][0];
  }

  lemma {:induction false} ZeroBytes(width: nat)
    requires width > 0
    ensures BigEndian(0, width)[0] == 0
  {
    if width > 1 { ZeroBytes(width - 1); }
  }
}
