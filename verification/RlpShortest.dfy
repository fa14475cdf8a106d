/** The encoding against everything the reader accepts: whatever bytes are read as an item, its encoding
    is not longer, and if it is as long it is those bytes. */
module RlpShortest {
  import opened Base
  import opened IntConv
  import opened Rlp

  /** bs is not longer than what was read between two positions, and if it is as long it is what was read. */
  ghost predicate NotLonger(input: Bytes, from: int, to: int, bs: Bytes) {
    && 0 <= from <= to <= |input| && |bs| <= to - from
    && (|bs| == to - from ==> input[from..to] == bs)
  }

  lemma Joined(input: Bytes, a: int, b: int, c: int, x: Bytes, y: Bytes)
    requires NotLonger(input, a, b, x) && NotLonger(input, b, c, y)
    ensures NotLonger(input, a, c, x + y)
  {
    if |x + y| == c - a { assert input[a..c] == input[a..b] + input[b..c]; }
  }

  lemma Same(input: Bytes, from: int, to: int)
    requires 0 <= from <= to <= |input|
    ensures NotLonger(input, from, to, input[from..to])
  {
  }

  // ----- sizes and headers

  /** A number has no shorter unsigned form than its magnitude, and no other one of that length. */
  lemma {:induction false} MagnitudeShortest(bs: Bytes)
    ensures |Magnitude(Unsigned(bs))| <= |bs|
    ensures |Magnitude(Unsigned(bs))| == |bs| ==> Magnitude(Unsigned(bs)) == bs
    decreases |bs|
  {
    if bs != [] {
      var front, last := bs[..|bs| - 1], bs[|bs| - 1];
      MagnitudeShortest(front);
      var v := Unsigned(bs);
      assert v == 256 * Unsigned(front) + last;
      assert v / 256 == Unsigned(front) && v % 256 == last;
      assert bs == front + [last];
    }
  }

  lemma {:induction false} MagnitudeGrows(m: nat, n: nat)
    requires m <= n
    ensures |Magnitude(m)| <= |Magnitude(n)|
    decreases n
  {
    if m > 0 { MagnitudeGrows(m / 256, n / 256); }
  }

  lemma HeaderGrows(base: int, m: nat, n: nat)
    requires m <= n
    ensures |Header(base, m)| <= |Header(base, n)|
  {
    hide Magnitude;
    MagnitudeGrows(m, n);
  }

  /** A payload may get shorter under a header that gets shorter with it. */
  lemma Framed(input: Bytes, a: int, b: int, c: int, base: int, n: nat, p: Bytes)
    requires NotLonger(input, a, b, Header(base, n)) && NotLonger(input, b, c, p) && n == c - b
    ensures NotLonger(input, a, c, Header(base, |p|) + p)
  {
    hide Header;
    HeaderGrows(base, |p|, n);
    if |p| == n { Joined(input, a, b, c, Header(base, n), p); }
  }

  /** A read takes what is there. */
  lemma ReadFullTakes(c: Cursor, n: nat)
    requires Valid(c) && ReadFull(c, n).1.Ok?
    ensures c.pos + n <= |c.input| && ReadFull(c, n) == (Advance(c, n), Ok(c.input[c.pos..c.pos + n]))
  {
    hide Bound;
    ValidBound(c);
  }

  /** A read fails at an end, and only at the end of the own list with an end of file. */
  lemma ReadFullFails(c: Cursor, n: nat)
    requires Valid(c) && ReadFull(c, n).1.Err?
    ensures ReadFull(c, n).1.error in {EOF, UnexpectedEOF, InvalidFormat}
    ensures ReadFull(c, n).1 == Err(EOF) ==> ReadFull(c, n).0 == c && c.pos == Bound(c.frames) == Top(c).end
    ensures c.pos + n > Bound(c.frames)
  {
    hide Bound;
  }

  /** The tag of a short header. */
  lemma ShortTag(c: Cursor, base: int)
    requires Valid(c) && ReadFull(c, 1).1.Ok? && (base == 0x80 || base == 0xC0)
    requires 0 <= ReadFull(c, 1).1.value[0] - base <= 55
    ensures NotLonger(c.input, c.pos, c.pos + 1, Header(base, ReadFull(c, 1).1.value[0] - base))
  {
    hide Bound, ReadFull;
    ReadFullTakes(c, 1);
  }

  /** The tag of a long header and the size after it. */
  lemma LongTag(c: Cursor, base: int)
    requires Valid(c) && ReadFull(c, 1).1.Ok? && (base == 0x80 || base == 0xC0)
    requires var k := ReadFull(c, 1).1.value[0] - base - 55;
             1 <= k <= 8 && ReadSize(ReadFull(c, 1).0, k).1.Ok?
    ensures var k := ReadFull(c, 1).1.value[0] - base - 55;
            var (c2, n) := ReadSize(ReadFull(c, 1).0, k);
            c2 == Advance(c, 1 + k) && NotLonger(c.input, c.pos, c2.pos, Header(base, n.value))
  {
    hide Bound, ReadFull, Magnitude, Unsigned, INT64_MAX;
    ReadFullTakes(c, 1);
    var tag := ReadFull(c, 1).1.value[0];
    var k := tag - base - 55;
    var c1 := ReadFull(c, 1).0;
    ReadFullTakes(c1, k);
    var bs := c.input[c.pos + 1..c.pos + 1 + k];
    var n := ReadSize(c1, k).1.value;
    assert n == Unsigned(bs);
    if n > 55 {
      MagnitudeShortest(bs);
      if |Magnitude(n)| == k {
        assert c.input[c.pos..c.pos + 1 + k] == [tag] + bs;
      }
    }
  }

  lemma OneByte(input: Bytes, i: nat)
    requires i < |input|
    ensures input[i..i + 1] == [input[i]]
  {
  }

  // ----- strings

  lemma {:induction false} StringNotLonger(c: Cursor)
    requires Valid(c) && ReadBytes(c).1.Ok?
    ensures NotLonger(c.input, c.pos, ReadBytes(c).0.pos, EncodeBytes(ReadBytes(c).1.value))
  {
    hide Bound, ReadFull, Header, ReadSize;
    ReadFullTakes(c, 1);
    var tag, c1 := c.input[c.pos], Advance(c, 1);
    OneByte(c.input, c.pos);
    if tag < 0x80 {
      Same(c.input, c.pos, c.pos + 1);
    } else if tag <= 0xB7 {
      ShortTag(c, 0x80);
      PayloadNotLonger(c, c1, tag - 0x80);
    } else {
      LongTag(c, 0x80);
      var (c2, sz) := ReadSize(c1, tag - 0xB7);
      PayloadNotLonger(c, c2, sz.value);
    }
  }

  lemma PayloadNotLonger(c: Cursor, c1: Cursor, n: nat)
    requires Valid(c1) && c1.input == c.input && ReadAll(c1, n).1.Ok?
    requires NotLonger(c.input, c.pos, c1.pos, Header(0x80, n))
    ensures NotLonger(c.input, c.pos, ReadAll(c1, n).0.pos, EncodeBytes(ReadAll(c1, n).1.value))
  {
    hide Bound, ReadFull;
    ReadFullTakes(c1, n);
    Same(c.input, c1.pos, c1.pos + n);
    var b := c.input[c1.pos..c1.pos + n];
    Joined(c.input, c.pos, c1.pos, c1.pos + n, Header(0x80, n), b);
  }

  // ----- lists

  /** A list that was entered ends where its size says. */
  lemma {:induction false} ListNotLonger(c: Cursor)
    requires Valid(c) && ReadList(c).1.Ok?
    ensures var c1 := ReadList(c).0;
            && Top(c1).end >= c1.pos
            && NotLonger(c.input, c.pos, c1.pos, Header(0xC0, Top(c1).end - c1.pos))
  {
    hide Bound, ReadFull, Header, ReadSize;
    ReadFullTakes(c, 1);
    var tag := ReadFull(c, 1).1.value[0];
    if tag <= 0xF7 { ShortTag(c, 0xC0); } else { LongTag(c, 0xC0); }
  }

  lemma SizeFails(c: Cursor, n: nat)
    requires Valid(c)
    ensures ReadSize(c, n).1.Err? ==> ReadSize(c, n).1.error in {UnexpectedEOF, InvalidFormat}
  {
    hide Bound, ReadFull, Unsigned;
    if ReadFull(c, n).1.Err? { ReadFullFails(c, n); }
  }

  lemma {:induction false} NullNotLonger(c: Cursor)
    requires Valid(c) && ReadList(c).1 == Err(NilValue)
    ensures NotLonger(c.input, c.pos, ReadList(c).0.pos, Encode(Null))
  {
    hide Bound, ReadFull;
    if ReadFull(c, 1).1.Err? { ReadFullFails(c, 1); }
    ReadFullTakes(c, 1);
    var c1 := Advance(c, 1);
    assert c.input[c.pos..c.pos + 1][0] == 0xF8 by { SizeFails(c1, c.input[c.pos] - 0xF7); }
    if ReadFull(c1, 1).1.Err? { ReadFullFails(c1, 1); }
    ReadFullTakes(c1, 1);
    var b := c.input[c.pos + 1..c.pos + 2];
    assert Unsigned(b) == 256 * Unsigned(b[..0]) + b[0];
    assert c.input[c.pos..c.pos + 2] == [0xF8, 0];
  }

  /** Elements are read up to the end of the list. */
  lemma {:induction false} EndOfItems(c: Cursor)
    requires Valid(c) && Decode(c).1 == Err(EOF)
    ensures Decode(c).0 == c && c.pos == Bound(c.frames) == Top(c).end
  {
    hide Bound, DecodeItems, ReadFull, ReadSize, Enter;
    ValidBound(c);
    if ReadFull(c, 1).1.Err? {
      ReadFullFails(c, 1);
    } else {
      NoEndInside(c);
    }
  }

  /** Behind the tag an end is a format error. */
  lemma NoEndInside(c: Cursor)
    requires Valid(c) && ReadFull(c, 1).1.Ok?
    ensures ReadList(c).1 != Err(EOF) && ReadBytes(c).1 != Err(EOF)
  {
    hide Bound, ReadFull, Enter;
    var c1, tag := ReadFull(c, 1).0, ReadFull(c, 1).1.value[0];
    if 0xB7 < tag < 0xC0 { SizeFails(c1, tag - 0xB7); }
    if 0xF7 < tag { SizeFails(c1, tag - 0xF7); }
  }

  // ----- items

  /** What is read as an item is not shorter than the encoding of the item. */
  lemma {:induction false} ItemNotLonger(c: Cursor)
    requires Valid(c) && Decode(c).1.Ok?
    ensures NotLonger(c.input, c.pos, Decode(c).0.pos, Encode(Decode(c).1.value))
    decreases |c.input| - c.pos, 1
  {
    hide Bound, Header, ReadList, ReadBytes, DecodeItems, FlushTo, EncodeBytes, EncodeAll;
    ValidBound(c);
    if c.pos < Bound(c.frames) && c.input[c.pos] >= 0xC0 {
      if ReadList(c).1 == Err(NilValue) {
        NullNotLonger(c);
      } else {
        var c1 := ReadList(c).0;
        ListNotLonger(c);
        ValidBound(c1);
        ItemsNotLonger(c1);
        var (c2, xs) := DecodeItems(c1);
        LeaveEnds(c, c2);
        Framed(c.input, c.pos, c1.pos, c2.pos, 0xC0, c2.pos - c1.pos, EncodeAll(xs.value));
      }
    } else {
      StringNotLonger(c);
    }
  }

  /** Leaving a list at its end moves nothing. */
  lemma LeaveEnds(c: Cursor, c2: Cursor)
    requires Valid(c) && Valid(c2) && |c2.frames| == |c.frames| + 1 && c2.pos == Bound(c2.frames)
    ensures FlushTo(c2, |c.frames| - 1).0.pos == c2.pos
  {
    hide Bound;
    assert c2.frames[..|c.frames| + 1] == c2.frames;
  }

  lemma {:induction false} ItemsNotLonger(c: Cursor)
    requires Valid(c) && DecodeItems(c).1.Ok?
    ensures var (c', xs) := DecodeItems(c);
            && c'.pos == Bound(c.frames) == Top(c).end
            && NotLonger(c.input, c.pos, c'.pos, EncodeAll(xs.value))
    decreases |c.input| - c.pos, 2
  {
    hide Bound, Encode, Decode;
    ValidBound(c);
    var (c1, x) := Decode(c);
    if x == Err(EOF) {
      EndOfItems(c);
    } else {
      ValidBound(c1);
      ItemNotLonger(c);
      ItemsNotLonger(c1);
      var (c2, xs) := DecodeItems(c1);
      assert ([x.value] + xs.value)[1..] == xs.value;
      Joined(c.input, c.pos, c1.pos, c2.pos, Encode(x.value), EncodeAll(xs.value));
    }
  }

  /** The encoding is the shortest form: bytes that are read as an item, and read to their end, are not
      fewer than its encoding, and they are its encoding if they are as many. */
  lemma {:induction false} ShortestEncoding(bs: Bytes)
    requires var (c, x) := Decode(Open(bs)); x.Ok? && c.pos == |bs|
    ensures var x := Decode(Open(bs)).1.value;
            |Encode(x)| <= |bs| && (|Encode(x)| == |bs| ==> Encode(x) == bs)
  {
    hide Decode, Encode;
    ItemNotLonger(Open(bs));
    assert bs[0..|bs|] == bs;
  }
}
