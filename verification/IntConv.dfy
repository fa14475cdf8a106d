/** Integers as byte strings (common/intconv): two's complement, big-endian, as short as possible. */
module IntConv {
  import opened Base
  import opened PowersOfTwo

  const UINT64_MAX := 0xffff_ffff_ffff_ffff

  // ----- the reference

  function Pow256(k: nat): (p: int)
    ensures p >= 1
  {
    if k == 0 then 1 else 256 * Pow256(k - 1)
  }

  /** The unsigned value of a byte string. */
  function Unsigned(bs: Bytes): (v: nat) {
    if bs == [] then 0 else 256 * Unsigned(bs[..|bs| - 1]) + bs[|bs| - 1]
  }

  /** The two's-complement value of a byte string; nothing stands for zero. */
  function Signed(bs: Bytes): (v: int) {
    if bs != [] && bs[0] >= 0x80 then Unsigned(bs) - Pow256(|bs|) else Unsigned(bs)
  }

  /** The shortest unsigned form; zero is empty. */
  function Magnitude(v: nat): (bs: Bytes) {
    if v == 0 then [] else Magnitude(v / 256) + [v % 256]
  }

  /** The shortest two's-complement form, of at least one byte. */
  function Shortest(v: int): (bs: Bytes)
    ensures |bs| >= 1
    decreases if v < 0 then -v else v
  {
    if -0x80 <= v < 0x80 then [v % 256] else Shortest(v / 256) + [v % 256]
  }

  lemma {:induction false} SignedStep(bs: Bytes)
    requires |bs| >= 2
    ensures Signed(bs) == 256 * Signed(bs[..|bs| - 1]) + bs[|bs| - 1]
  {
  }

  lemma {:induction false} SignedSnoc(bs: Bytes, b: Byte)
    requires |bs| >= 1
    ensures Signed(bs + [b]) == 256 * Signed(bs) + b
  {
    SignedStep(bs + [b]);
    assert (bs + [b])[..|bs|] == bs;
  }

  lemma SignedOne(b: Byte)
    ensures Signed([b]) == if b < 0x80 then b else b - 256
  {
    assert Unsigned([b]) == 256 * Unsigned([b][..0]) + b;
    assert Pow256(1) == 256 * Pow256(0);
  }

  /** The shortest form stands for its number. */
  lemma {:induction false} ShortestValue(v: int)
    ensures Signed(Shortest(v)) == v
    decreases if v < 0 then -v else v
  {
    if -0x80 <= v < 0x80 {
      SignedOne(v % 256);
    } else {
      ShortestValue(v / 256);
      SignedSnoc(Shortest(v / 256), v % 256);
    }
  }

  /** No byte string that stands for the number is shorter, and none of that length is different. */
  lemma {:induction false} ShortestIsShortest(v: int, bs: Bytes)
    requires bs != [] && Signed(bs) == v
    ensures |Shortest(v)| <= |bs|
    ensures |Shortest(v)| == |bs| ==> bs == Shortest(v)
    decreases |bs|
  {
    var n := |bs|;
    if n == 1 {
      assert bs == [bs[0]];
      SignedOne(bs[0]);
    } else {
      SignedStep(bs);
      assert v / 256 == Signed(bs[..n - 1]) && v % 256 == bs[n - 1];
      if !(-0x80 <= v < 0x80) {
        ShortestIsShortest(v / 256, bs[..n - 1]);
        assert bs == bs[..n - 1] + [bs[n - 1]];
      }
    }
  }

  lemma {:induction false} MagnitudeValue(v: nat)
    ensures Unsigned(Magnitude(v)) == v
    ensures v > 0 ==> |Magnitude(v)| >= 1 && Magnitude(v)[0] != 0
  {
    if v > 0 {
      MagnitudeValue(v / 256);
      var bs := Magnitude(v / 256) + [v % 256];
      assert bs[..|bs| - 1] == Magnitude(v / 256);
    }
  }

  lemma {:induction false} MagnitudeLength(v: nat, k: nat)
    requires v < Pow256(k)
    ensures |Magnitude(v)| <= k
    decreases k
  {
    if v > 0 { MagnitudeLength(v / 256, k - 1); }
  }

  // ----- big integers

  /** BitLen and the conversion to bytes of a big integer, as the code combines them. */
  function BigIntToBytes(i: int): (bs: Bytes) {
    if i == 0 then [0]
    else if i > 0 then
      if BitLen(i) % 8 == 0 then [0] + Magnitude(i) else Magnitude(i)
    else
      var bl := BitLen(-(i + 1));
      Magnitude(if Pow256((bl + 8) / 8) + i >= 0 then Pow256((bl + 8) / 8) + i else 0)
  }

  function BigIntSetBytes(bs: Bytes): (i: int) {
    var u := Unsigned(bs);
    if |bs| > 0 && bs[0] >= 0x80 then u - Pow2(BitLen(u)) else u
  }

  lemma {:induction false} BitLenByte(m: nat)
    requires m >= 256
    ensures BitLen(m) == 8 + BitLen(m / 256)
  {
    var m1, m2, m3 := m / 2, m / 4, m / 8;
    var m4, m5, m6, m7 := m / 16, m / 32, m / 64, m / 128;
    assert BitLen(m) == 1 + BitLen(m1);
    assert BitLen(m1) == 1 + BitLen(m2) by { assert m1 / 2 == m2; }
    assert BitLen(m2) == 1 + BitLen(m3) by { assert m2 / 2 == m3; }
    assert BitLen(m3) == 1 + BitLen(m4) by { assert m3 / 2 == m4; }
    assert BitLen(m4) == 1 + BitLen(m5) by { assert m4 / 2 == m5; }
    assert BitLen(m5) == 1 + BitLen(m6) by { assert m5 / 2 == m6; }
    assert BitLen(m6) == 1 + BitLen(m7) by { assert m6 / 2 == m7; }
    assert BitLen(m7) == 1 + BitLen(m / 256) by { assert m7 / 2 == m / 256; }
  }

  lemma SmallPowers()
    ensures Pow2(0) == 1 && Pow2(7) == 128 && Pow2(8) == 256
  {
    assert Pow2(3) == 2 * Pow2(2) == 4 * Pow2(1) == 8 * Pow2(0);
    assert Pow2(6) == 2 * Pow2(5) == 4 * Pow2(4) == 8 * Pow2(3);
    assert Pow2(8) == 2 * Pow2(7) == 4 * Pow2(6);
  }

  lemma {:induction false} BitLenSmall(m: nat)
    requires m < 256
    ensures m < 128 ==> BitLen(m) <= 7
    ensures m >= 128 ==> BitLen(m) == 8
    ensures m == 0 <==> BitLen(m) == 0
  {
    SmallPowers();
    if m >= 128 {
      BitLenUnique(m, 8);
    } else if BitLen(m) > 7 {
      BitLenBounds(m);
      Pow2Monotone(7, BitLen(m) - 1);
    }
  }

  lemma {:induction false} PositiveToBytes(i: int)
    requires i > 0
    ensures BigIntToBytes(i) == Shortest(i)
  {
    hide Shortest, Magnitude, BitLen;
    ShortestStep(i);
    MagnitudeStep(i);
    if i < 256 {
      BitLenSmall(i);
      MagnitudeStep(0);
      ShortestStep(0);
    } else {
      BitLenByte(i);
      PositiveToBytes(i / 256);
      assert [0] + (Magnitude(i / 256) + [i % 256]) == [0] + Magnitude(i / 256) + [i % 256];
    }
  }

  lemma {:induction false} MagnitudeSnoc(v: nat, b: Byte)
    requires v > 0
    ensures Magnitude(256 * v + b) == Magnitude(v) + [b]
  {
    assert (256 * v + b) / 256 == v && (256 * v + b) % 256 == b;
  }

  /** Bytes needed for a negative number whose complement is m. */
  function ByteCount(m: nat): (k: nat) {
    (BitLen(m) + 8) / 8
  }

  lemma {:induction false} ByteCountStep(m: nat)
    ensures m < 0x80 ==> ByteCount(m) == 1
    ensures m >= 0x80 ==> ByteCount(m) == ByteCount(m / 256) + 1
  {
    if m >= 256 { BitLenByte(m); } else { BitLenSmall(m); BitLenSmall(0); }
  }

  lemma {:induction false} NegativeToBytes(i: int)
    requires i < 0
    ensures Pow256(ByteCount(-(i + 1))) + i > 0
    ensures Magnitude(Pow256(ByteCount(-(i + 1))) + i) == Shortest(i)
    decreases -i
  {
    hide ByteCount, Pow256, Magnitude, Shortest;
    var m := -(i + 1);
    ByteCountStep(m);
    ShortestStep(i);
    if i >= -0x80 {
      Pow256Step(0);
      MagnitudeStep(0);
      MagnitudeStep(256 + i);
    } else {
      var i' := i / 256;
      assert -(i' + 1) == m / 256;
      NegativeToBytes(i');
      var k := ByteCount(m / 256);
      Pow256Step(k);
      MagnitudeSnoc(Pow256(k) + i', i % 256);
      assert 256 * Pow256(k) + i == 256 * (Pow256(k) + i') + i % 256;
    }
  }

  /** The bytes of a big integer are the shortest two's-complement form. */
  lemma {:induction false} BigIntShortest(i: int)
    ensures BigIntToBytes(i) == Shortest(i)
  {
    if i > 0 { PositiveToBytes(i); } else if i < 0 { NegativeToBytes(i); }
  }

  lemma {:induction false} UnsignedBounds(bs: Bytes)
    ensures Unsigned(bs) < Pow256(|bs|)
    ensures bs != [] && bs[0] >= 0x80 ==> Pow256(|bs|) <= 2 * Unsigned(bs)
    decreases |bs|
  {
    if |bs| == 1 {
      SignedOne(bs[0]);
      assert bs[..0] == [];
      assert Pow256(1) == 256 * Pow256(0);
    } else if |bs| > 1 {
      UnsignedBounds(bs[..|bs| - 1]);
    }
  }

  lemma {:induction false} Pow256IsPow2(k: nat)
    ensures Pow256(k) == Pow2(8 * k)
  {
    if k > 0 {
      Pow256IsPow2(k - 1);
      var e := 8 * (k - 1);
      assert Pow2(e + 8) == 2 * Pow2(e + 7) && Pow2(e + 7) == 2 * Pow2(e + 6);
      assert Pow2(e + 6) == 2 * Pow2(e + 5) && Pow2(e + 5) == 2 * Pow2(e + 4);
      assert Pow2(e + 4) == 2 * Pow2(e + 3) && Pow2(e + 3) == 2 * Pow2(e + 2);
      assert Pow2(e + 2) == 2 * Pow2(e + 1) && Pow2(e + 1) == 2 * Pow2(e);
    }
  }

  /** Reading bytes back gives their two's-complement value, whatever the bytes are. */
  lemma {:induction false} BigIntSetBytesValue(bs: Bytes)
    ensures BigIntSetBytes(bs) == Signed(bs)
  {
    if bs != [] && bs[0] >= 0x80 {
      var u, k := Unsigned(bs), 8 * |bs|;
      UnsignedBounds(bs);
      Pow256IsPow2(|bs|);
      assert Pow2(k) == 2 * Pow2(k - 1);
      BitLenUnique(u, k);
    }
  }

  /** Every integer survives the way to bytes and back. */
  lemma {:induction false} BigIntRoundTrip(i: int)
    ensures BigIntSetBytes(BigIntToBytes(i)) == i
  {
    BigIntShortest(i);
    ShortestValue(i);
    BigIntSetBytesValue(Shortest(i));
  }

  // ----- fixed-width loops

  lemma EightBytes()
    ensures Pow256(7) == 0x100_0000_0000_0000 && Pow256(8) == 0x1_0000_0000_0000_0000
  {
    assert Pow256(2) == 256 * Pow256(1) == 256 * 256 * Pow256(0);
    assert Pow256(4) == 256 * Pow256(3) == 256 * 256 * Pow256(2);
    assert Pow256(6) == 256 * Pow256(5) == 256 * 256 * Pow256(4);
    assert Pow256(8) == 256 * Pow256(7) == 256 * 256 * Pow256(6);
  }

  lemma Pow256Step(k: nat)
    ensures Pow256(k + 1) == 256 * Pow256(k) && Pow256(0) == 1
  {
  }

  lemma ShortestStep(v: int)
    ensures Shortest(v) == if -0x80 <= v < 0x80 then [v % 256] else Shortest(v / 256) + [v % 256]
  {
  }

  lemma MagnitudeStep(v: nat)
    ensures Magnitude(v) == if v == 0 then [] else Magnitude(v / 256) + [v % 256]
  {
  }

  /** A number that fits into one more byte than there is room for loses its lowest byte. */
  lemma ByteShift(k: int, v: int)
    requires 0 <= k && -Pow256(k + 1) <= 2 * v < Pow256(k + 1) && !(-0x80 <= v < 0x80)
    ensures k >= 1 && -Pow256(k) <= 2 * (v / 256) < Pow256(k)
  {
    hide Pow256;
    Pow256Step(k);
    if k >= 1 {
      Pow256Step(k - 1);
      LosesByte(v, Pow256(k - 1));
    }
  }

  lemma LosesByte(v: int, p: int)
    requires -65536 * p <= 2 * v < 65536 * p
    ensures -256 * p <= 2 * (v / 256) < 256 * p
  {
    var w := v / 256;
    assert 256 * w <= v < 256 * w + 256;
    assert -128 * p <= w < 128 * p;
  }

  /** The loop fills a buffer from its end; the bytes written so far complete the form of what is
      left of the number. The loop always returns before the buffer is full. */
  method Int64ToBytes(v0: int) returns (bs: Bytes)
    requires INT64_MIN <= v0 <= INT64_MAX
    ensures bs == Shortest(v0)
  {
    hide Shortest, Pow256;
    ShortestStep(v0);
    if v0 == 0 { return [0]; }
    bs := [];
    var buffer := new Byte[8](_ => 0);
    var v, idx := v0, 7;
    assert buffer[8..] == [];
    EightBytes();
    while idx >= 0
      invariant 0 <= idx <= 7 && -Pow256(idx + 1) <= 2 * v < Pow256(idx + 1)
      invariant Shortest(v0) == Shortest(v) + buffer[idx + 1..]
    {
      buffer[idx] := v % 256;
      assert buffer[idx..] == [v % 256] + buffer[idx + 1..];
      ShortestStep(v);
      Pow256Step(idx);
      if -0x80 <= v < 0x80 { return buffer[idx..]; }
      ByteShift(idx, v);
      v := v / 256;
      idx := idx - 1;
    }
    assert false;
  }

  method Uint64ToBytes(v0: int) returns (bs: Bytes)
    requires 0 <= v0 <= UINT64_MAX
    ensures bs == Shortest(v0)
  {
    hide Shortest, Pow256;
    ShortestStep(v0);
    if v0 == 0 { return [0]; }
    bs := [];
    var buffer := new Byte[9](_ => 0);
    var v, idx := v0, 8;
    assert buffer[9..] == [];
    EightBytes();
    Pow256Step(8);
    while idx >= 0
      invariant 0 <= idx <= 8 && 0 <= v && 256 * v < Pow256(idx + 1)
      invariant Shortest(v0) == Shortest(v) + buffer[idx + 1..]
    {
      var tv := v % 256;
      buffer[idx] := tv;
      assert buffer[idx..] == [tv] + buffer[idx + 1..];
      ShortestStep(v);
      Pow256Step(idx);
      v := v / 256;
      if v == 0 && tv < 0x80 { return buffer[idx..]; }
      idx := idx - 1;
    }
    assert false;
  }

  /** Sizes are written without a sign: the shortest unsigned form, and one byte for zero. */
  method SizeToBytes(v0: int) returns (bs: Bytes)
    requires 0 <= v0 <= UINT64_MAX
    ensures bs == if v0 == 0 then [0] else Magnitude(v0)
  {
    hide Magnitude, Pow256;
    if v0 == 0 { return [0]; }
    MagnitudeStep(0);
    bs := [];
    var buffer := new Byte[8](_ => 0);
    var v, idx := v0, 7;
    assert buffer[8..] == [];
    EightBytes();
    while idx >= 0
      invariant 0 <= idx <= 7 && 0 < v < Pow256(idx + 1)
      invariant Magnitude(v0) == Magnitude(v) + buffer[idx + 1..]
    {
      buffer[idx] := v % 256;
      assert buffer[idx..] == [v % 256] + buffer[idx + 1..];
      MagnitudeStep(v);
      Pow256Step(idx);
      v := v / 256;
      if v == 0 { return buffer[idx..]; }
      idx := idx - 1;
    }
    assert false;
  }

  lemma UnsignedPrefix(bs: Bytes, i: nat)
    requires i < |bs|
    ensures Unsigned(bs[..i + 1]) == 256 * Unsigned(bs[..i]) + bs[i]
  {
    assert bs[..i + 1][..i] == bs[..i];
  }

  lemma {:induction false} LeadingZero(bs: Bytes)
    requires bs != [] && bs[0] == 0
    ensures Unsigned(bs) == Unsigned(bs[1..])
    decreases |bs|
  {
    var n := |bs|;
    if n > 1 {
      LeadingZero(bs[..n - 1]);
      assert bs[1..][..n - 2] == bs[..n - 1][1..];
    } else {
      assert bs[..0] == [] && bs[1..] == [];
    }
  }

  /** Accepts what fits into 64 bits without a sign, and then gives its value. */
  method SafeBytesToUint64(bs: Bytes) returns (v: Option<int>)
    ensures v.Some? <==> bs == [] || (bs[0] < 0x80 && |bs| <= if bs[0] == 0 then 9 else 8)
    ensures v.Some? ==> v.value == Signed(bs)
  {
    if |bs| == 0 { return Some(0); }
    var rest := bs;
    if bs[0] == 0 {
      LeadingZero(bs);
      rest := bs[1..];
    } else if bs[0] >= 0x80 {
      return None;
    }
    if |rest| > 8 { return None; }
    var u := Accumulate(rest);
    v := Some(u);
  }

  method Accumulate(bs: Bytes) returns (u: int)
    ensures u == Unsigned(bs)
  {
    u := 0;
    for i := 0 to |bs|
      invariant u == Unsigned(bs[..i])
    {
      UnsignedPrefix(bs, i);
      u := 256 * u + bs[i];
    }
    assert bs[..|bs|] == bs;
  }

  method SafeBytesToSize(bs: Bytes) returns (v: Option<int>)
    ensures v == if |bs| <= 8 && Unsigned(bs) <= INT64_MAX then Some(Unsigned(bs)) else None
  {
    if |bs| == 0 { return Some(0); }
    if |bs| > 8 { return None; }
    var u := Accumulate(bs);
    v := if u <= INT64_MAX then Some(u) else None;
  }

  /** The unsigned value of the complement of every byte. */
  function Complemented(bs: Bytes): (v: nat) {
    if bs == [] then 0 else 256 * Complemented(bs[..|bs| - 1]) + (255 - bs[|bs| - 1])
  }

  lemma {:induction false} ComplementedValue(bs: Bytes)
    ensures Complemented(bs) == Pow256(|bs|) - 1 - Unsigned(bs)
    decreases |bs|
  {
    if bs != [] { ComplementedValue(bs[..|bs| - 1]); }
  }

  lemma ComplementedPrefix(bs: Bytes, i: nat)
    requires i < |bs|
    ensures Complemented(bs[..i + 1]) == 256 * Complemented(bs[..i]) + (255 - bs[i])
  {
    assert bs[..i + 1][..i] == bs[..i];
  }

  method SafeBytesToInt64(bs: Bytes) returns (v: Option<int>)
    ensures v == if |bs| <= 8 then Some(Signed(bs)) else None
  {
    if |bs| == 0 { return Some(0); }
    if |bs| > 8 { return None; }
    if bs[0] >= 0x80 {
      var c: int := 0;
      for i := 0 to |bs|
        invariant c == Complemented(bs[..i])
      {
        ComplementedPrefix(bs, i);
        c := 256 * c + (255 - bs[i]);
      }
      assert bs[..|bs|] == bs;
      ComplementedValue(bs);
      return Some(-c - 1);
    }
    var u := Accumulate(bs);
    v := Some(u);
  }

  lemma {:induction false} ShortestLength(v: int, k: nat)
    requires k >= 1 && -Pow256(k) <= 2 * v < Pow256(k)
    ensures |Shortest(v)| <= k
    decreases k
  {
    if !(-0x80 <= v < 0x80) {
      assert k > 1 by { assert Pow256(1) == 256 * Pow256(0); }
      ShortestLength(v / 256, k - 1);
    }
  }

  /** Signed 64-bit numbers survive the way to bytes and back. */
  method Int64RoundTrip(v: int) returns (r: Option<int>)
    requires INT64_MIN <= v <= INT64_MAX
    ensures r == Some(v)
  {
    EightBytes();
    ShortestLength(v, 8);
    ShortestValue(v);
    var bs := Int64ToBytes(v);
    r := SafeBytesToInt64(bs);
  }

  lemma {:induction false} ShortestSign(v: int)
    ensures v >= 0 <==> Shortest(v)[0] < 0x80
    decreases if v < 0 then -v else v
  {
    if !(-0x80 <= v < 0x80) { ShortestSign(v / 256); }
  }

  /** A ninth byte is only ever a leading zero. */
  lemma {:induction false} ShortestUnsigned(v: int, k: nat)
    requires 0 <= v < Pow256(k) && k >= 1
    ensures |Shortest(v)| <= k + 1
    ensures |Shortest(v)| == k + 1 ==> Shortest(v)[0] == 0
    decreases k
  {
    if v >= 0x80 {
      if k == 1 {
        assert Pow256(1) == 256 * Pow256(0);
        assert Shortest(v) == Shortest(0) + [v];
      } else {
        ShortestUnsigned(v / 256, k - 1);
      }
    }
  }

  /** Unsigned 64-bit numbers survive the way to bytes and back. */
  method Uint64RoundTrip(v: int) returns (r: Option<int>)
    requires 0 <= v <= UINT64_MAX
    ensures r == Some(v)
  {
    EightBytes();
    ShortestUnsigned(v, 8);
    ShortestSign(v);
    ShortestValue(v);
    var bs := Uint64ToBytes(v);
    r := SafeBytesToUint64(bs);
  }
}
