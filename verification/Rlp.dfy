/** RLP (Appendix B of the Ethereum Yellow Paper) with a null, as written by common/codec/rlp.go, and
    its streaming reader: a cursor with the nested limits of the lists it is in. */
module Rlp {
  import opened Base
  import opened IntConv

  datatype Item = Null | Str(bytes: Bytes) | List(items: seq<Item>)

  // ----- the encoding

  /** The header of a string (base 0x80) or of a list (base 0xC0) with n bytes of payload. */
  function Header(base: int, n: nat): (bs: Bytes) {
    if n <= 55 then [(base + n) % 256]
    else [(base + 55 + |Magnitude(n)|) % 256] + Magnitude(n)
  }

  function EncodeBytes(b: Bytes): (bs: Bytes) {
    if |b| == 1 && b[0] < 0x80 then b else Header(0x80, |b|) + b
  }

  function Encode(x: Item): (bs: Bytes)
    decreases x, 1
  {
    match x
    case Null => [0xF8, 0]
    case Str(b) => EncodeBytes(b)
    case List(xs) => var p := EncodeAll(xs); Header(0xC0, |p|) + p
  }

  function EncodeAll(xs: seq<Item>): (bs: Bytes)
    decreases xs, 0
  {
    if xs == [] then [] else Encode(xs[0]) + EncodeAll(xs[1..])
  }

  // ----- the cursor

  /** One level of reading: where its list ends and how large a byte string may be. */
  datatype Frame = Frame(end: int, maxSB: int)

  /** The input, how far it has been read, and the lists being read, the outermost first. The first
      frame is the whole input. */
  datatype Cursor = Cursor(input: Bytes, pos: int, frames: seq<Frame>)

  datatype Error = EOF | UnexpectedEOF | InvalidFormat | NilValue | Panicked

  type Out<+T> = Result<T, Error>

  /** No read may go beyond the end of any enclosing list. */
  function Bound(fs: seq<Frame>): (b: int)
    requires |fs| >= 1
  {
    if |fs| == 1 then fs[0].end
    else if fs[|fs| - 1].end < Bound(fs[..|fs| - 1]) then fs[|fs| - 1].end
    else Bound(fs[..|fs| - 1])
  }

  function Top(c: Cursor): (f: Frame)
    requires |c.frames| >= 1
  {
    c.frames[|c.frames| - 1]
  }

  predicate Valid(c: Cursor) {
    |c.frames| >= 1 && c.frames[0].end == |c.input| && 0 <= c.pos <= Bound(c.frames)
  }

  lemma {:induction false} BoundIsLowest(fs: seq<Frame>, i: nat)
    requires i < |fs|
    ensures Bound(fs) <= fs[i].end
    decreases |fs|
  {
    if i < |fs| - 1 { BoundIsLowest(fs[..|fs| - 1], i); }
  }

  lemma {:induction false} BoundPrefix(fs: seq<Frame>, n: nat)
    requires 1 <= n <= |fs|
    ensures Bound(fs) <= Bound(fs[..n])
    decreases |fs|
  {
    if n < |fs| {
      BoundPrefix(fs[..|fs| - 1], n);
      assert fs[..|fs| - 1][..n] == fs[..n];
    } else {
      assert fs[..n] == fs;
    }
  }

  lemma BoundPush(fs: seq<Frame>, f: Frame)
    requires |fs| >= 1
    ensures Bound(fs + [f]) == if f.end < Bound(fs) then f.end else Bound(fs)
  {
    assert (fs + [f])[..|fs|] == fs;
  }

  lemma ValidBound(c: Cursor)
    requires Valid(c)
    ensures Bound(c.frames) <= |c.input|
  {
    BoundIsLowest(c.frames, 0);
  }

  function Avail(c: Cursor): (n: nat)
    requires Valid(c)
  {
    Bound(c.frames) - c.pos
  }

  // ----- reading

  /** Reads exactly n bytes. Running into the end of the own list gives an end-of-file error, running
      into the end of an outer one a format error. */
  function ReadFull(c: Cursor, n: nat): (r: (Cursor, Out<Bytes>))
    requires Valid(c)
    ensures Valid(r.0) && r.0.frames == c.frames && r.0.input == c.input && c.pos <= r.0.pos
    ensures r.1.Ok? ==> |r.1.value| == n && r.0.pos == c.pos + n
  {
    ValidBound(c);
    if n <= Avail(c) then (c.(pos := c.pos + n), Ok(c.input[c.pos..c.pos + n]))
    else (c.(pos := Bound(c.frames)),
          Err(if Top(c).end != Bound(c.frames) then InvalidFormat else if Avail(c) == 0 then EOF else UnexpectedEOF))
  }

  function NoEOF(e: Error): (e': Error) {
    if e == EOF then InvalidFormat else e
  }

  function ReadAll(c: Cursor, n: nat): (r: (Cursor, Out<Bytes>))
    requires Valid(c)
    ensures Valid(r.0) && r.0.frames == c.frames && r.0.input == c.input && c.pos <= r.0.pos
    ensures r.1.Ok? ==> |r.1.value| == n && r.0.pos == c.pos + n
  {
    var (c', o) := ReadFull(c, n);
    (c', if o.Err? then Err(NoEOF(o.error)) else o)
  }

  function ReadSize(c: Cursor, sz: nat): (r: (Cursor, Out<nat>))
    requires Valid(c)
    ensures Valid(r.0) && r.0.frames == c.frames && r.0.input == c.input && c.pos <= r.0.pos
  {
    var (c', o) := ReadAll(c, sz);
    if o.Err? then (c', Err(o.error))
    else if |o.value| <= 8 && Unsigned(o.value) <= INT64_MAX then (c', Ok(Unsigned(o.value)))
    else (c', Err(InvalidFormat))
  }

  function SkipN(c: Cursor, n: nat): (r: (Cursor, Out<()>))
    requires Valid(c)
    ensures Valid(r.0) && r.0.frames == c.frames && r.0.input == c.input && c.pos <= r.0.pos
  {
    if n <= Avail(c) then (c.(pos := c.pos + n), Ok(()))
    else (c.(pos := Bound(c.frames)), Err(InvalidFormat))
  }

  function ReadBytes(c: Cursor): (r: (Cursor, Out<Bytes>))
    requires Valid(c)
    ensures Valid(r.0) && r.0.frames == c.frames && r.0.input == c.input && c.pos <= r.0.pos
    ensures r.1.Ok? ==> c.pos < r.0.pos
  {
    var (c1, o) := ReadFull(c, 1);
    if o.Err? then (c1, Err(o.error)) else
    var tag := o.value[0];
    if tag < 0x80 then (c1, Ok([tag]))
    else if tag <= 0xB7 then ReadAll(c1, tag - 0x80)
    else if tag < 0xC0 then
      var (c2, sz) := ReadSize(c1, tag - 0xB7);
      if sz.Err? then (c2, Err(sz.error))
      else if sz.value > Top(c2).maxSB then (c2, Err(InvalidFormat))
      else ReadAll(c2, sz.value)
    else if tag == 0xF8 then
      var (c2, sz) := ReadSize(c1, 1);
      if sz.Err? then (c2, Err(sz.error))
      else if sz.value == 0 then (c2, Err(NilValue))
      else (c2, Err(InvalidFormat))
    else (c1, Err(InvalidFormat))
  }

  /** Enters a list: one more frame, whose byte strings may not be larger than the list. */
  function Enter(c: Cursor, size: nat): (c': Cursor)
    requires Valid(c)
    ensures Valid(c')
  {
    BoundPush(c.frames, Frame(c.pos + size, if Top(c).maxSB < size then Top(c).maxSB else size));
    c.(frames := c.frames + [Frame(c.pos + size, if Top(c).maxSB < size then Top(c).maxSB else size)])
  }

  function ReadList(c: Cursor): (r: (Cursor, Out<()>))
    requires Valid(c)
    ensures Valid(r.0) && r.0.input == c.input && c.pos <= r.0.pos
    ensures r.1.Err? ==> r.0.frames == c.frames
    ensures r.1.Ok? ==> c.pos < r.0.pos && |r.0.frames| == |c.frames| + 1 && r.0.frames[..|c.frames|] == c.frames
  {
    var (c1, o) := ReadFull(c, 1);
    if o.Err? then (c1, Err(o.error)) else
    var tag := o.value[0];
    if tag < 0xC0 then (c1, Err(InvalidFormat))
    else if tag <= 0xF7 then (Enter(c1, tag - 0xC0), Ok(()))
    else
      var (c2, sz) := ReadSize(c1, tag - 0xF7);
      if sz.Err? then (c2, Err(sz.error))
      else if tag == 0xF8 && sz.value == 0 then (c2, Err(NilValue))
      else (Enter(c2, sz.value), Ok(()))
  }

  function SkipOne(c: Cursor): (r: (Cursor, Out<()>))
    requires Valid(c)
    ensures Valid(r.0) && r.0.frames == c.frames && r.0.input == c.input && c.pos <= r.0.pos
  {
    var (c1, o) := ReadFull(c, 1);
    if o.Err? then (c1, Err(o.error)) else
    var tag := o.value[0];
    if tag < 0x80 then (c1, Ok(()))
    else if tag <= 0xB7 then SkipN(c1, tag - 0x80)
    else if tag < 0xC0 then
      var (c2, sz) := ReadSize(c1, tag - 0xB7);
      if sz.Err? then (c2, Err(sz.error)) else SkipN(c2, sz.value)
    else if tag <= 0xF7 then SkipN(c1, tag - 0xC0)
    else
      var (c2, sz) := ReadSize(c1, tag - 0xF7);
      if sz.Err? then (c2, Err(sz.error)) else SkipN(c2, sz.value)
  }

  function Skip(c: Cursor, cnt: nat): (r: (Cursor, Out<()>))
    requires Valid(c)
    ensures Valid(r.0) && r.0.frames == c.frames && r.0.input == c.input && c.pos <= r.0.pos
    decreases cnt
  {
    if cnt == 0 then (c, Ok(())) else
    var (c1, o) := SkipOne(c);
    if o.Err? then (c1, o) else Skip(c1, cnt - 1)
  }

  /** Reads the rest of a raw item. A size close to the largest integer wraps to a negative one, which
      passes the size limit and cannot be allocated. */
  function ReadMore(c: Cursor, org: Bytes, size: nat): (r: (Cursor, Out<Bytes>))
    requires Valid(c)
    ensures Valid(r.0) && r.0.frames == c.frames && r.0.input == c.input && c.pos <= r.0.pos
  {
    if size + |org| > INT64_MAX then (c, Err(Panicked))
    else if size + |org| > Top(c).maxSB then (c, Err(InvalidFormat)) else
    var (c', o) := ReadAll(c, size);
    (c', if o.Err? then o else Ok(org + o.value))
  }

  function ReadRaw(c: Cursor): (r: (Cursor, Out<Bytes>))
    requires Valid(c)
    ensures Valid(r.0) && r.0.frames == c.frames && r.0.input == c.input && c.pos <= r.0.pos
  {
    var (c1, o) := ReadFull(c, 1);
    if o.Err? then (c1, o) else
    var tag := o.value[0];
    if tag < 0x80 then (c1, o)
    else if tag <= 0xB7 then ReadMore(c1, o.value, tag - 0x80)
    else if 0xC0 <= tag <= 0xF7 then ReadMore(c1, o.value, tag - 0xC0)
    else
      var n := if tag < 0xC0 then tag - 0xB7 else tag - 0xF7;
      var (c2, bs) := ReadAll(c1, n);
      if bs.Err? then (c2, bs)
      else if Unsigned(bs.value) > INT64_MAX then (c2, Err(InvalidFormat))
      else ReadMore(c2, o.value + bs.value, Unsigned(bs.value))
  }

  /** Size limits: nothing longer than the limit is read, apart from strings with a short header, and the
      limit inside a list is neither above the one outside nor above the size of the list. */
  lemma SizeLimits(c: Cursor)
    requires Valid(c)
    ensures ReadBytes(c).1.Ok? ==> |ReadBytes(c).1.value| <= 55 || |ReadBytes(c).1.value| <= Top(c).maxSB
    ensures ReadRaw(c).1.Ok? ==> |ReadRaw(c).1.value| <= 1 || |ReadRaw(c).1.value| <= Top(c).maxSB
    ensures ReadList(c).1.Ok? ==>
              var c' := ReadList(c).0;
              Top(c').maxSB <= Top(c).maxSB && Top(c').maxSB <= Top(c').end - c'.pos
  {
    hide Bound, Unsigned;
  }

  /** Going on at an outer level drains the list that was being read there. */
  function FlushTo(c: Cursor, level: nat): (r: (Cursor, Out<()>))
    requires Valid(c) && level < |c.frames|
    ensures Valid(r.0) && r.0.input == c.input && c.pos <= r.0.pos && r.0.frames == c.frames[..level + 1]
  {
    if level + 1 == |c.frames| then
      assert c.frames[..level + 1] == c.frames;
      (c, Ok(()))
    else
      var inner := c.frames[..level + 2];
      BoundPrefix(c.frames, level + 2);
      BoundPrefix(inner, level + 1);
      assert inner[..level + 1] == c.frames[..level + 1];
      (c.(pos := Bound(inner), frames := c.frames[..level + 1]),
       if inner[level + 1].end == Bound(inner) then Ok(()) else Err(InvalidFormat))
  }

  // ----- what is ahead

  /** The next bytes, all inside the current list, are bs. */
  predicate At(c: Cursor, bs: Bytes) {
    Valid(c) && c.pos + |bs| <= Bound(c.frames) <= |c.input| && c.input[c.pos..c.pos + |bs|] == bs
  }

  function Advance(c: Cursor, n: nat): (c': Cursor) {
    c.(pos := c.pos + n)
  }

  lemma {:induction false} AtSplit(c: Cursor, a: Bytes, b: Bytes)
    requires At(c, a + b)
    ensures At(c, a) && At(Advance(c, |a|), b)
  {
    hide Bound;
    var s := c.input[c.pos..c.pos + |a + b|];
    assert s[..|a|] == a && s[|a|..] == b;
    assert c.input[c.pos..c.pos + |a|] == s[..|a|];
    assert c.input[c.pos + |a|..c.pos + |a| + |b|] == s[|a|..];
  }

  lemma {:induction false} ReadFullAt(c: Cursor, bs: Bytes)
    requires At(c, bs)
    ensures ReadFull(c, |bs|) == (Advance(c, |bs|), Ok(bs))
  {
  }

  lemma {:induction false} ReadSizeAt(c: Cursor, n: nat)
    requires At(c, Magnitude(n)) && n <= INT64_MAX
    ensures ReadSize(c, |Magnitude(n)|) == (Advance(c, |Magnitude(n)|), Ok(n))
    ensures |Magnitude(n)| <= 8
  {
    hide Bound, Magnitude, Unsigned, Pow256;
    MagnitudeSize(n);
    ReadFullAt(c, Magnitude(n));
  }

  lemma {:induction false} MagnitudeSize(n: nat)
    requires n <= INT64_MAX
    ensures |Magnitude(n)| <= 8 && Unsigned(Magnitude(n)) == n
    ensures n > 55 ==> |Magnitude(n)| >= 1
    ensures |Magnitude(n)| == 1 ==> Magnitude(n)[0] == n
  {
    EightBytes();
    MagnitudeLength(n, 8);
    MagnitudeValue(n);
    if |Magnitude(n)| == 1 { assert Magnitude(n)[..0] == []; }
  }

  /** The single byte of a short header and what follows it. */
  lemma {:induction false} ShortHeader(c: Cursor, base: int, n: nat, rest: Bytes)
    requires (base == 0x80 || base == 0xC0) && n <= 55 && At(c, Header(base, n) + rest)
    ensures ReadFull(c, 1) == (Advance(c, 1), Ok([base + n]))
    ensures |Header(base, n)| == 1 && At(Advance(c, 1), rest)
  {
    hide Bound, Magnitude, ReadFull;
    AtSplit(c, [base + n], rest);
    ReadFullAt(c, [base + n]);
  }

  /** The tag of a long header, the size after it and what follows. */
  lemma {:induction false} LongHeader(c: Cursor, base: int, n: nat, rest: Bytes)
    requires (base == 0x80 || base == 0xC0) && 55 < n <= INT64_MAX && At(c, Header(base, n) + rest)
    ensures var k := |Magnitude(n)|;
            && 1 <= k <= 8 && |Header(base, n)| == 1 + k && Header(base, n) == [base + 55 + k] + Magnitude(n)
            && ReadFull(c, 1) == (Advance(c, 1), Ok([base + 55 + k]))
            && Valid(Advance(c, 1)) && ReadSize(Advance(c, 1), k) == (Advance(c, 1 + k), Ok(n))
            && ReadFull(Advance(c, 1), k) == (Advance(c, 1 + k), Ok(Magnitude(n))) && Unsigned(Magnitude(n)) == n
            && At(Advance(c, 1 + k), rest)
  {
    hide Bound, Magnitude, ReadSize, ReadFull, Unsigned, At;
    MagnitudeSize(n);
    var tag, m := base + 55 + |Magnitude(n)|, Magnitude(n);
    assert Header(base, n) == [tag] + m;
    AtSplit(c, [tag] + m, rest);
    AtSplit(c, [tag], m);
    ReadFullAt(c, [tag]);
    ReadSizeAt(Advance(c, 1), n);
    ReadFullAt(Advance(c, 1), m);
  }

  lemma {:induction false} ReadBytesAt(c: Cursor, b: Bytes)
    requires At(c, EncodeBytes(b)) && |b| <= INT64_MAX && (|b| > 55 ==> |b| <= Top(c).maxSB)
    ensures ReadBytes(c) == (Advance(c, |EncodeBytes(b)|), Ok(b))
  {
    hide Bound, Header, ReadBytes, At;
    if |b| == 1 && b[0] < 0x80 {
      ReadSmallBytes(c, b);
    } else if |b| <= 55 {
      ReadShortBytes(c, b);
    } else {
      ReadLongBytes(c, b);
    }
  }

  lemma ReadSmallBytes(c: Cursor, b: Bytes)
    requires At(c, b) && |b| == 1 && b[0] < 0x80
    ensures ReadBytes(c) == (Advance(c, 1), Ok(b))
  {
    hide Bound, ReadSize, ReadFull, At;
    assert b == [b[0]];
    ReadFullAt(c, b);
  }

  lemma ReadShortBytes(c: Cursor, b: Bytes)
    requires At(c, Header(0x80, |b|) + b) && |b| <= 55
    ensures ReadBytes(c) == (Advance(c, |Header(0x80, |b|)| + |b|), Ok(b))
  {
    hide Bound, Header, ReadSize, ReadFull, At;
    ShortHeader(c, 0x80, |b|, b);
    ReadFullAt(Advance(c, 1), b);
  }

  lemma ReadLongBytes(c: Cursor, b: Bytes)
    requires At(c, Header(0x80, |b|) + b) && 55 < |b| <= INT64_MAX && |b| <= Top(c).maxSB
    ensures ReadBytes(c) == (Advance(c, |Header(0x80, |b|)| + |b|), Ok(b))
  {
    hide Bound, Header, ReadSize, ReadFull, At, Magnitude, Unsigned;
    LongHeader(c, 0x80, |b|, b);
    ReadFullAt(Advance(c, 1 + |Magnitude(|b|)|), b);
  }

  lemma {:induction false} NullAt(c: Cursor)
    requires At(c, Encode(Null))
    ensures ReadBytes(c) == (Advance(c, 2), Err(NilValue)) && ReadList(c) == (Advance(c, 2), Err(NilValue))
  {
    hide Bound;
    AtSplit(c, [0xF8], [0]);
    assert [0xF8] + [0] == Encode(Null);
    ReadFullAt(c, [0xF8]);
    ReadFullAt(Advance(c, 1), [0]);
    assert Unsigned([0]) == 256 * Unsigned([0][..0]) + 0;
  }

  /** Entering an encoded list: the window of the new frame is exactly the encoded elements. */
  lemma {:induction false} ReadListAt(c: Cursor, p: Bytes)
    requires At(c, Header(0xC0, |p|) + p) && |p| <= INT64_MAX
    ensures var h := |Header(0xC0, |p|)|;
            var c' := Advance(c, h);
            && Valid(c') && ReadList(c) == (Enter(c', |p|), Ok(()))
            && At(Enter(c', |p|), p) && Bound(Enter(c', |p|).frames) == Top(Enter(c', |p|)).end == c'.pos + |p|
  {
    hide Magnitude, Header, ReadList, Bound, At;
    var c' := Advance(c, |Header(0xC0, |p|)|);
    AtSplit(c, Header(0xC0, |p|), p);
    EnterAt(c', p);
    if |p| <= 55 { ReadShortList(c, p); } else { ReadLongList(c, p); }
  }

  lemma EnterAt(c: Cursor, p: Bytes)
    requires At(c, p)
    ensures At(Enter(c, |p|), p) && Bound(Enter(c, |p|).frames) == Top(Enter(c, |p|)).end == c.pos + |p|
  {
    hide Bound;
    BoundPush(c.frames, Frame(c.pos + |p|, if Top(c).maxSB < |p| then Top(c).maxSB else |p|));
  }

  lemma ReadShortList(c: Cursor, p: Bytes)
    requires At(c, Header(0xC0, |p|) + p) && |p| <= 55
    ensures Valid(Advance(c, |Header(0xC0, |p|)|))
    ensures ReadList(c) == (Enter(Advance(c, |Header(0xC0, |p|)|), |p|), Ok(()))
  {
    hide Bound, Header, ReadSize, ReadFull, Enter;
    ShortHeader(c, 0xC0, |p|, p);
  }

  lemma ReadLongList(c: Cursor, p: Bytes)
    requires At(c, Header(0xC0, |p|) + p) && 55 < |p| <= INT64_MAX
    ensures Valid(Advance(c, |Header(0xC0, |p|)|))
    ensures ReadList(c) == (Enter(Advance(c, |Header(0xC0, |p|)|), |p|), Ok(()))
  {
    hide Bound, Header, ReadSize, ReadFull, Enter, Magnitude, Unsigned;
    LongHeader(c, 0xC0, |p|, p);
  }

  // ----- reading whole items

  /** Reads the next item: a string by its tag, or else a list, element by element until its end. */
  function Decode(c: Cursor): (r: (Cursor, Out<Item>))
    requires Valid(c)
    ensures Valid(r.0) && r.0.input == c.input && c.pos <= r.0.pos
    ensures r.1.Ok? ==> r.0.frames == c.frames && c.pos < r.0.pos
    ensures r.1 == Err(EOF) ==> r.0.frames == c.frames
    decreases |c.input| - c.pos, 1
  {
    ValidBound(c);
    if c.pos < Bound(c.frames) && c.input[c.pos] >= 0xC0 then
      var (c1, o) := ReadList(c);
      if o == Err(NilValue) then (NilAdvances(c); (c1, Ok(Null)))
      else if o.Err? then (c1, Err(o.error))
      else
        ValidBound(c1);
        var (c2, xs) := DecodeItems(c1);
        if xs.Err? then (c2, Err(xs.error)) else
        var (c3, f) := FlushTo(c2, |c.frames| - 1);
        (c3, if f.Err? then Err(f.error) else Ok(List(xs.value)))
    else
      var (c1, o) := ReadBytes(c);
      (c1, if o.Err? then Err(o.error) else Ok(Str(o.value)))
  }

  lemma NilAdvances(c: Cursor)
    requires Valid(c) && ReadList(c).1 == Err(NilValue)
    ensures c.pos < ReadList(c).0.pos
  {
  }

  function DecodeItems(c: Cursor): (r: (Cursor, Out<seq<Item>>))
    requires Valid(c)
    ensures Valid(r.0) && r.0.input == c.input && c.pos <= r.0.pos
    ensures r.1.Ok? ==> r.0.frames == c.frames
    ensures r.1 != Err(EOF)
    decreases |c.input| - c.pos, 2
  {
    ValidBound(c);
    var (c1, x) := Decode(c);
    if x == Err(EOF) then (c1, Ok([]))
    else if x.Err? then (c1, Err(x.error))
    else
      ValidBound(c1);
      var (c2, xs) := DecodeItems(c1);
      (c2, if xs.Err? then xs else Ok([x.value] + xs.value))
  }

  /** At the end of the own list there is no item. */
  lemma {:induction false} DecodeAtEnd(c: Cursor)
    requires Valid(c) && Bound(c.frames) == Top(c).end == c.pos
    ensures Decode(c) == (c, Err(EOF))
  {
    hide Bound;
  }

  lemma {:induction false} EncodeNotEmpty(x: Item)
    ensures |Encode(x)| >= 1
    ensures !x.Str? ==> Encode(x)[0] >= 0xC0 || |Encode(x)| > INT64_MAX
    ensures x.Str? && |Encode(x)| <= INT64_MAX ==> Encode(x)[0] < 0xC0
  {
    hide Magnitude, EncodeAll;
    match x
    case Null =>
    case Str(b) => if |b| <= INT64_MAX { MagnitudeSize(|b|); }
    case List(xs) => if |EncodeAll(xs)| <= INT64_MAX { MagnitudeSize(|EncodeAll(xs)|); }
  }

  /** Round trip: whatever follows, reading the encoding of an item gives the item and stops right
      after it, as long as the size limit is not below the length of the encoding. */
  lemma {:induction false} DecodeAt(c: Cursor, x: Item)
    requires At(c, Encode(x)) && |Encode(x)| <= INT64_MAX && |Encode(x)| <= Top(c).maxSB
    ensures Decode(c) == (Advance(c, |Encode(x)|), Ok(x))
    decreases x, 1
  {
    hide Bound, Magnitude, Header, EncodeAll, ReadBytes, ReadList, DecodeItems, FlushTo;
    EncodeNotEmpty(x);
    assert c.input[c.pos] == Encode(x)[0] by { assert c.input[c.pos..c.pos + |Encode(x)|][0] == Encode(x)[0]; }
    match x
    case Null => NullAt(c);
    case Str(b) =>
      BytesShorter(b);
      ReadBytesAt(c, b);
    case List(xs) =>
      var p := EncodeAll(xs);
      var h := |Header(0xC0, |p|)|;
      ReadListAt(c, p);
      var c1 := Enter(Advance(c, h), |p|);
      DecodeItemsAt(c1, xs);
      LeaveAt(c, h, |p|);
  }

  lemma BytesShorter(b: Bytes)
    ensures |b| <= |EncodeBytes(b)|
  {
  }

  /** Leaving a list that has been read to its end. */
  lemma {:induction false} LeaveAt(c: Cursor, h: nat, n: nat)
    requires Valid(c) && Valid(Advance(c, h)) && c.pos + h + n <= Bound(c.frames)
    ensures var c1 := Advance(Enter(Advance(c, h), n), n);
            Valid(c1) && FlushTo(c1, |c.frames| - 1) == (Advance(c, h + n), Ok(()))
  {
    hide Bound;
    var f := Frame(c.pos + h + n, if Top(c).maxSB < n then Top(c).maxSB else n);
    BoundPush(c.frames, f);
    assert (c.frames + [f])[..|c.frames|] == c.frames;
    assert (c.frames + [f])[..|c.frames| + 1] == c.frames + [f];
  }

  lemma {:induction false} DecodeItemsAt(c: Cursor, xs: seq<Item>)
    requires At(c, EncodeAll(xs)) && |EncodeAll(xs)| <= INT64_MAX
    requires Bound(c.frames) == Top(c).end == c.pos + |EncodeAll(xs)|
    requires xs != [] ==> |EncodeAll(xs)| <= Top(c).maxSB
    ensures DecodeItems(c) == (Advance(c, |EncodeAll(xs)|), Ok(xs))
    decreases xs, 2
  {
    hide Bound, Encode, Decode;
    if xs != [] {
      EncodeNotEmpty(xs[0]);
      AtSplit(c, Encode(xs[0]), EncodeAll(xs[1..]));
      DecodeAt(c, xs[0]);
      DecodeItemsAt(Advance(c, |Encode(xs[0])|), xs[1..]);
      assert [xs[0]] + xs[1..] == xs;
    } else {
      DecodeAtEnd(c);
    }
  }

  /** A reader of a whole input whose size limit is the length of the input. */
  function Open(input: Bytes): (c: Cursor)
    ensures Valid(c)
  {
    Cursor(input, 0, [Frame(|input|, |input|)])
  }

  /** Decoding encode(x) followed by anything gives x and leaves exactly the rest. */
  lemma {:induction false} RoundTrip(x: Item, rest: Bytes)
    requires |Encode(x)| <= INT64_MAX
    ensures var (c, o) := Decode(Open(Encode(x) + rest));
            o == Ok(x) && c.input[c.pos..] == rest
  {
    hide Encode, Decode;
    var input := Encode(x) + rest;
    assert input[0..|Encode(x)|] == Encode(x);
    DecodeAt(Open(input), x);
  }

  /** The encoding is unambiguous: no encoding is a prefix of the encoding of another item. */
  lemma {:induction false} PrefixFree(x: Item, y: Item, rest: Bytes)
    requires |Encode(x)| <= INT64_MAX && |Encode(y)| <= INT64_MAX && Encode(y) == Encode(x) + rest
    ensures x == y && rest == []
  {
    hide Encode, Decode;
    RoundTrip(x, rest);
    RoundTrip(y, []);
    assert Encode(y) + [] == Encode(x) + rest;
  }

  // ----- cursor discipline

  /** An encoding with its header: anything but a null or a single small byte. */
  lemma {:induction false} SkipOneHeader(c: Cursor, base: int, p: Bytes)
    requires (base == 0x80 || base == 0xC0) && |p| <= INT64_MAX && At(c, Header(base, |p|) + p)
    ensures SkipOne(c) == (Advance(c, |Header(base, |p|)| + |p|), Ok(()))
  {
    hide Magnitude, ReadSize, ReadFull, Bound, Header, SkipN, At, Unsigned;
    if |p| <= 55 {
      ShortHeader(c, base, |p|, p);
      SkipNAt(Advance(c, 1), p);
    } else {
      LongHeader(c, base, |p|, p);
      SkipNAt(Advance(c, 1 + |Magnitude(|p|)|), p);
    }
  }

  lemma SkipNAt(c: Cursor, p: Bytes)
    requires At(c, p)
    ensures SkipN(c, |p|) == (Advance(c, |p|), Ok(()))
  {
    hide Bound;
  }

  lemma {:induction false} SkipOneAt(c: Cursor, x: Item)
    requires At(c, Encode(x)) && |Encode(x)| <= INT64_MAX
    ensures SkipOne(c) == (Advance(c, |Encode(x)|), Ok(()))
  {
    hide Bound, Header, EncodeAll, SkipOne, At;
    match x
    case Null => SkipNull(c);
    case Str(b) =>
      if |b| == 1 && b[0] < 0x80 { SkipSmall(c, b); } else { SkipOneHeader(c, 0x80, b); }
    case List(xs) => SkipOneHeader(c, 0xC0, EncodeAll(xs));
  }

  lemma {:induction false} SkipNull(c: Cursor)
    requires At(c, [0xF8, 0])
    ensures SkipOne(c) == (Advance(c, 2), Ok(()))
  {
    hide Bound;
    AtSplit(c, [0xF8], [0]);
    assert [0xF8] + [0] == [0xF8, 0];
    ReadFullAt(c, [0xF8]);
    ReadFullAt(Advance(c, 1), [0]);
    assert Unsigned([0]) == 256 * Unsigned([0][..0]) + 0;
  }

  lemma {:induction false} SkipSmall(c: Cursor, b: Bytes)
    requires |b| == 1 && b[0] < 0x80 && At(c, b)
    ensures SkipOne(c) == (Advance(c, 1), Ok(()))
  {
    ReadFullAt(c, b);
  }

  /** Skip(n) consumes exactly n encoded items. */
  lemma {:induction false} SkipAt(c: Cursor, xs: seq<Item>)
    requires At(c, EncodeAll(xs)) && |EncodeAll(xs)| <= INT64_MAX
    ensures Skip(c, |xs|) == (Advance(c, |EncodeAll(xs)|), Ok(()))
    decreases |xs|
  {
    hide Bound, Encode, SkipOne;
    if xs != [] {
      AtSplit(c, Encode(xs[0]), EncodeAll(xs[1..]));
      SkipOneAt(c, xs[0]);
      SkipAt(Advance(c, |Encode(xs[0])|), xs[1..]);
    }
  }

  lemma {:induction false} ReadRawHeader(c: Cursor, base: int, p: Bytes)
    requires (base == 0x80 || base == 0xC0) && |Header(base, |p|) + p| <= INT64_MAX && At(c, Header(base, |p|) + p)
    requires |Header(base, |p|) + p| <= Top(c).maxSB
    ensures ReadRaw(c) == (Advance(c, |Header(base, |p|)| + |p|), Ok(Header(base, |p|) + p))
  {
    hide Bound, Header, ReadRaw;
    if |p| <= 55 { ReadRawShort(c, base, p); } else { ReadRawLong(c, base, p); }
  }

  lemma {:induction false} ReadRawShort(c: Cursor, base: int, p: Bytes)
    requires (base == 0x80 || base == 0xC0) && |p| <= 55 && At(c, Header(base, |p|) + p)
    requires |Header(base, |p|) + p| <= Top(c).maxSB
    ensures ReadRaw(c) == (Advance(c, |Header(base, |p|)| + |p|), Ok(Header(base, |p|) + p))
  {
    hide Magnitude, ReadFull, Bound, Unsigned, At;
    ShortHeader(c, base, |p|, p);
    ReadFullAt(Advance(c, 1), p);
  }

  lemma {:induction false} ReadRawLong(c: Cursor, base: int, p: Bytes)
    requires (base == 0x80 || base == 0xC0) && 55 < |p| && |Header(base, |p|) + p| <= INT64_MAX
             && At(c, Header(base, |p|) + p)
    requires |Header(base, |p|) + p| <= Top(c).maxSB
    ensures ReadRaw(c) == (Advance(c, |Header(base, |p|)| + |p|), Ok(Header(base, |p|) + p))
  {
    hide Magnitude, ReadFull, Bound, Unsigned, At, Header;
    LongHeader(c, base, |p|, p);
    ReadFullAt(Advance(c, 1 + |Magnitude(|p|)|), p);
  }

  /** ReadRaw returns exactly the encoding of one item. */
  lemma {:induction false} ReadRawAt(c: Cursor, x: Item)
    requires At(c, Encode(x)) && |Encode(x)| <= INT64_MAX && |Encode(x)| <= Top(c).maxSB
    ensures ReadRaw(c) == (Advance(c, |Encode(x)|), Ok(Encode(x)))
  {
    hide Bound, Header, EncodeAll, ReadRaw, At;
    match x
    case Null => ReadRawNull(c);
    case Str(b) =>
      if |b| == 1 && b[0] < 0x80 { ReadRawSmall(c, b); } else { ReadRawHeader(c, 0x80, b); }
    case List(xs) => ReadRawHeader(c, 0xC0, EncodeAll(xs));
  }

  lemma {:induction false} ReadRawNull(c: Cursor)
    requires At(c, [0xF8, 0]) && 2 <= Top(c).maxSB
    ensures ReadRaw(c) == (Advance(c, 2), Ok([0xF8, 0]))
  {
    hide Bound;
    AtSplit(c, [0xF8], [0]);
    assert [0xF8] + [0] == [0xF8, 0];
    ReadFullAt(c, [0xF8]);
    ReadFullAt(Advance(c, 1), [0]);
    ReadFullAt(Advance(c, 2), []);
    assert [0xF8, 0] + [] == [0xF8, 0];
    assert Unsigned([0]) == 256 * Unsigned([0][..0]) + 0;
  }

  lemma {:induction false} ReadRawSmall(c: Cursor, b: Bytes)
    requires |b| == 1 && b[0] < 0x80 && At(c, b)
    ensures ReadRaw(c) == (Advance(c, 1), Ok(b))
  {
    ReadFullAt(c, b);
  }

  /** Nine bytes that are not refused: the tag of a string and the largest size there is. */
  lemma {:induction false} RawSizePanics()
    ensures ReadRaw(Open(HUGE_HEADER)).1 == Err(Panicked)
  {
    hide Bound, Unsigned, ReadFull;
    var c, m := Open(HUGE_HEADER), HUGE_HEADER[1..];
    HugeOpens();
    AtSplit(c, [0xBF], m);
    ReadFullAt(c, [0xBF]);
    ReadFullAt(Advance(c, 1), m);
    HugeSize();
  }

  const HUGE_HEADER: Bytes := [0xBF, 0x7F, 0xFF, 0xFF, 0xFF, 0xFF, 0xFF, 0xFF, 0xFF]

  lemma HugeOpens()
    ensures At(Open(HUGE_HEADER), [0xBF] + HUGE_HEADER[1..]) && |HUGE_HEADER[1..]| == 8
  {
    assert [0xBF] + HUGE_HEADER[1..] == HUGE_HEADER;
    assert HUGE_HEADER[0..9] == HUGE_HEADER;
  }

  lemma HugeSize()
    ensures Unsigned(HUGE_HEADER[1..]) == INT64_MAX
  {
    hide Unsigned;
    var m := HUGE_HEADER[1..];
    UnsignedNone();
    UnsignedSnoc([], 0x7F);
    UnsignedSnoc(m[..1], 0xFF);
    UnsignedSnoc(m[..2], 0xFF);
    UnsignedSnoc(m[..3], 0xFF);
    UnsignedSnoc(m[..4], 0xFF);
    UnsignedSnoc(m[..5], 0xFF);
    UnsignedSnoc(m[..6], 0xFF);
    UnsignedSnoc(m[..7], 0xFF);
    assert [] + [0x7F] == m[..1];
    assert m[..1] + [0xFF] == m[..2];
    assert m[..2] + [0xFF] == m[..3];
    assert m[..3] + [0xFF] == m[..4];
    assert m[..4] + [0xFF] == m[..5];
    assert m[..5] + [0xFF] == m[..6];
    assert m[..6] + [0xFF] == m[..7];
    assert m[..7] + [0xFF] == m;
  }

  lemma UnsignedNone()
    ensures Unsigned([]) == 0
  {
  }

  lemma UnsignedSnoc(bs: Bytes, b: Byte)
    ensures Unsigned(bs + [b]) == 256 * Unsigned(bs) + b
  {
    assert (bs + [b])[..|bs|] == bs;
  }

  /** Something a decoder of a nested list may do. */
  datatype Op = DoReadBytes | DoReadList | DoSkip(cnt: nat) | DoReadRaw | DoFlush(level: nat)

  /** One operation, whether it succeeds or fails, of a decoder of a level above `base`. */
  function Apply(c: Cursor, base: nat, op: Op): (c': Cursor)
    requires Valid(c) && |c.frames| >= base + 2
    ensures Valid(c') && |c'.frames| >= base + 2 && c'.frames[..base + 2] == c.frames[..base + 2]
    ensures c'.input == c.input && c.pos <= c'.pos
  {
    match op
    case DoReadBytes => ReadBytes(c).0
    case DoReadList => FramesKept(c, base); ReadList(c).0
    case DoSkip(cnt) => Skip(c, cnt).0
    case DoReadRaw => ReadRaw(c).0
    case DoFlush(level) =>
      if base < level < |c.frames| then
        assert c.frames[..level + 1][..base + 2] == c.frames[..base + 2];
        FlushTo(c, level).0
      else c
  }

  lemma FramesKept(c: Cursor, base: nat)
    requires Valid(c) && |c.frames| >= base + 2
    ensures |ReadList(c).0.frames| >= base + 2 && ReadList(c).0.frames[..base + 2] == c.frames[..base + 2]
  {
    hide ReadFull, ReadSize, Bound;
    var fs := ReadList(c).0.frames;
    if ReadList(c).1.Ok? { assert fs[..|c.frames|][..base + 2] == fs[..base + 2]; }
  }

  function Run(c: Cursor, base: nat, ops: seq<Op>): (c': Cursor)
    requires Valid(c) && |c.frames| >= base + 2
    ensures Valid(c') && |c'.frames| >= base + 2 && c'.frames[..base + 2] == c.frames[..base + 2]
    ensures c'.input == c.input && c.pos <= c'.pos
    decreases |ops|
  {
    if ops == [] then c else Run(Apply(c, base, ops[0]), base, ops[1..])
  }

  /** Whatever has been done inside a list, going on outside finds the next sibling. */
  lemma {:induction false} NextSibling(c: Cursor, xs: seq<Item>, ops: seq<Op>)
    requires At(c, Encode(List(xs))) && |Encode(List(xs))| <= INT64_MAX
    ensures ReadList(c).1.Ok?
    ensures FlushTo(Run(ReadList(c).0, |c.frames| - 1, ops), |c.frames| - 1)
         == (Advance(c, |Encode(List(xs))|), Ok(()))
  {
    hide Header, EncodeAll, Run, ReadList, Bound;
    var p, level := EncodeAll(xs), |c.frames| - 1;
    var h := |Header(0xC0, |p|)|;
    ReadListAt(c, p);
    var c1 := ReadList(c).0;
    var c2 := Run(c1, level, ops);
    assert c1.frames[..level + 2] == c1.frames;
    assert c2.frames[..level + 2] == c1.frames;
    assert c2.frames[..level + 1] == c1.frames[..level + 1] == c.frames;
  }
}
