/** Bytes and big-endian integers: the vocabulary of the PGS wire format. */
module Bytes {

  /** An octet, as a number. */
  type byte = x: int | 0 <= x < 0x100

  type U8 = x: int | 0 <= x < 0x100
  type U16 = x: int | 0 <= x < 0x1_0000
  type U32 = x: int | 0 <= x < 0x1_0000_0000
  type U64 = x: int | 0 <= x < 0x1_0000_0000_0000_0000

  /** 256 to the power n: one more than the largest n-byte value. */
  function Pow256(n: nat): (p: nat)
    ensures p > 0
  {
    if n == 0 then 1 else 256 * Pow256(n - 1)
  }

  lemma Pow256Values()
    ensures Pow256(1) == 0x100
    ensures Pow256(2) == 0x1_0000
    ensures Pow256(3) == 0x100_0000
    ensures Pow256(4) == 0x1_0000_0000
  {
    assert Pow256(1) == 256 * Pow256(0);
    assert Pow256(2) == 256 * Pow256(1);
    assert Pow256(3) == 256 * Pow256(2);
    assert Pow256(4) == 256 * Pow256(3);
  }

  /** The value of a byte string read most significant byte first, as
      `u16::from_be_bytes` and `u32::from_be_bytes` read it. */
  function BigEndian(bs: seq<byte>): (v: nat)
    ensures v < Pow256(|bs|)
  {
    if |bs| == 0 then 0 else BigEndian(bs[..|bs| - 1]) * 256 + bs[|bs| - 1]
  }

  /** The n-byte big-endian representation of v. */
  function ToBigEndian(v: nat, n: nat): (bs: seq<byte>)
    requires v < Pow256(n)
    ensures |bs| == n
  {
    if n == 0 then [] else ToBigEndian(v / 256, n - 1) + [v % 256]
  }

  /** Decoding an encoded value gives the value back. */
  lemma {:induction false} BigEndianOfToBigEndian(v: nat, n: nat)
    requires v < Pow256(n)
    ensures BigEndian(ToBigEndian(v, n)) == v
  {
    if n > 0 {
      var q, r := v / 256, v % 256;
      DivBound(v, Pow256(n - 1));
      var init := ToBigEndian(q, n - 1);
      BigEndianOfToBigEndian(q, n - 1);
      BigEndianSnoc(init, r);
      assert ToBigEndian(v, n) == init + [r];
    }
  }

  lemma BigEndianSnoc(bs: seq<byte>, b: byte)
    ensures BigEndian(bs + [b]) == BigEndian(bs) * 256 + b
  {
    assert (bs + [b])[..|bs|] == bs;
  }

  /** Encoding a decoded byte string gives the bytes back: the representation is unique. */
  lemma {:induction false} ToBigEndianOfBigEndian(bs: seq<byte>)
    ensures ToBigEndian(BigEndian(bs), |bs|) == bs
  {
    if |bs| > 0 {
      var n := |bs|;
      var init := bs[..n - 1];
      var last := bs[n - 1];
      var v := BigEndian(bs);
      assert v == BigEndian(init) * 256 + last;
      DivMod256(BigEndian(init), last);
      ToBigEndianOfBigEndian(init);
      assert ToBigEndian(v, n) == ToBigEndian(BigEndian(init), n - 1) + [v % 256];
      assert v % 256 == last;
      assert bs == init + [last];
    }
  }

  lemma DivBound(v: nat, p: nat)
    requires v < 256 * p
    ensures v / 256 < p && v == v / 256 * 256 + v % 256
  {
  }

  lemma DivMod256(a: nat, b: nat)
    requires b < 256
    ensures (a * 256 + b) / 256 == a && (a * 256 + b) % 256 == b
  {
  }

  lemma BigEndian1(bs: seq<byte>)
    requires |bs| == 1
    ensures BigEndian(bs) == bs[0]
  {
    assert BigEndian(bs[..0]) == 0;
  }

  lemma BigEndian2(bs: seq<byte>)
    requires |bs| == 2
    ensures BigEndian(bs) == bs[0] as int * 0x100 + bs[1]
  {
    BigEndian1(bs[..1]);
  }

  lemma BigEndian3(bs: seq<byte>)
    requires |bs| == 3
    ensures BigEndian(bs) == bs[0] as int * 0x1_0000 + bs[1] as int * 0x100 + bs[2]
  {
    BigEndian2(bs[..2]);
  }

  lemma BigEndian4(bs: seq<byte>)
    requires |bs| == 4
    ensures BigEndian(bs) == bs[0] as int * 0x100_0000 + bs[1] as int * 0x1_0000
                             + bs[2] as int * 0x100 + bs[3]
  {
    BigEndian3(bs[..3]);
  }

  /** A leading zero byte does not change a big-endian value (how `read_u24`
      fills the low three bytes of a four-byte buffer). */
  lemma {:induction false} BigEndianLeadingZero(bs: seq<byte>)
    ensures BigEndian([0] + bs) == BigEndian(bs)
  {
    if |bs| > 0 {
      var init := bs[..|bs| - 1];
      assert ([0] + bs)[..|bs|] == [0] + init;
      BigEndianLeadingZero(init);
    }
  }

  /** `saturating_sub` on unsigned integers: subtraction that stops at zero. */
  function SaturatingSub(a: nat, b: nat): (r: nat)
    ensures r == 0 || r + b == a
    ensures r <= a
  {
    if a >= b then a - b else 0
  }

  /** `bytes` occurs in `buf` starting at position `pos`. */
  predicate At(buf: seq<byte>, pos: nat, bytes: seq<byte>) {
    pos + |bytes| <= |buf| && buf[pos..pos + |bytes|] == bytes
  }

  lemma AtConcat(buf: seq<byte>, pos: nat, a: seq<byte>, b: seq<byte>)
    requires At(buf, pos, a + b)
    ensures At(buf, pos, a) && At(buf, pos + |a|, b)
  {
    assert buf[pos..pos + |a|] == (a + b)[..|a|];
    assert buf[pos + |a|..pos + |a| + |b|] == (a + b)[|a|..];
  }

  lemma AtJoin(buf: seq<byte>, pos: nat, a: seq<byte>, b: seq<byte>)
    requires At(buf, pos, a) && At(buf, pos + |a|, b)
    ensures At(buf, pos, a + b)
  {
    assert buf[pos..pos + |a| + |b|] == buf[pos..pos + |a|] + buf[pos + |a|..pos + |a| + |b|];
  }

  /** Concatenation of a sequence of byte strings. */
  function Flatten(parts: seq<seq<byte>>): (bs: seq<byte>)
  {
    if |parts| == 0 then [] else parts[0] + Flatten(parts[1..])
  }
}
