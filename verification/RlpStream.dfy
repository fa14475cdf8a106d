/** The reader and writer objects of common/codec/rlp.go: a position and a stack of limits that every
    read advances, and a stack of buffers that every write extends. */
module RlpStream {
  import opened Base
  import opened IntConv
  import opened Rlp

  /** A reader over one input together with the readers of the nested lists it is in. Each nested
      reader counts its own limit in the code; here a limit is the position where its list ends. */
  class Reader {
    const input: Bytes
    var pos: int
    var frames: seq<Frame>

    function At(): (c: Cursor)
      reads this
    {
      Cursor(input, pos, frames)
    }

    constructor (input: Bytes)
      ensures At() == Open(input)
    {
      this.input, pos, frames := input, 0, [Frame(|input|, |input|)];
    }

    method ReadFull(n: nat) returns (o: Out<Bytes>)
      requires Valid(At())
      modifies this`pos
      ensures (At(), o) == Rlp.ReadFull(old(At()), n)
    {
      ValidBound(At());
      var bound := Bound(frames);
      var avail := bound - pos;
      if n <= avail {
        o := Ok(input[pos..pos + n]);
        pos := pos + n;
      } else {
        var own := Top(At()).end == bound;
        o := Err(if !own then InvalidFormat else if avail == 0 then EOF else UnexpectedEOF);
        pos := bound;
      }
    }

    method ReadAll(n: nat) returns (o: Out<Bytes>)
      requires Valid(At())
      modifies this`pos
      ensures (At(), o) == Rlp.ReadAll(old(At()), n)
    {
      o := ReadFull(n);
      if o == Err(EOF) { o := Err(InvalidFormat); }
    }

    method ReadSize(sz: nat) returns (o: Out<nat>)
      requires Valid(At())
      modifies this`pos
      ensures (At(), o) == Rlp.ReadSize(old(At()), sz)
    {
      var bs := ReadAll(sz);
      if bs.Err? { return Err(bs.error); }
      var v := SafeBytesToSize(bs.value);
      o := if v.Some? then Ok(v.value) else Err(InvalidFormat);
    }

    method SkipN(n: nat) returns (o: Out<()>)
      requires Valid(At())
      modifies this`pos
      ensures (At(), o) == Rlp.SkipN(old(At()), n)
    {
      var bound := Bound(frames);
      if n <= bound - pos {
        pos, o := pos + n, Ok(());
      } else {
        pos, o := bound, Err(InvalidFormat);
      }
    }

    method ReadBytes() returns (o: Out<Bytes>)
      requires Valid(At())
      modifies this`pos
      ensures (At(), o) == Rlp.ReadBytes(old(At()))
    {
      hide Bound, Rlp.ReadFull, Rlp.ReadAll, Rlp.ReadSize;
      o := ReadFull(1);
      if o.Err? { return; }
      var tag := o.value[0];
      if tag < 0x80 {
        o := Ok([tag]);
      } else if tag <= 0xB7 {
        o := ReadAll(tag - 0x80);
      } else if tag < 0xC0 {
        var sz := ReadSize(tag - 0xB7);
        if sz.Err? { return Err(sz.error); }
        if sz.value > Top(At()).maxSB { return Err(InvalidFormat); }
        o := ReadAll(sz.value);
      } else {
        if tag == 0xF8 {
          var sz := ReadSize(1);
          if sz.Err? { return Err(sz.error); }
          if sz.value == 0 { return Err(NilValue); }
        }
        o := Err(InvalidFormat);
      }
    }

    method EnterList(size: nat)
      requires Valid(At())
      modifies this`frames
      ensures At() == Enter(old(At()), size)
    {
      var maxSB := Top(At()).maxSB;
      frames := frames + [Frame(pos + size, if maxSB < size then maxSB else size)];
    }

    method ReadList() returns (o: Out<()>)
      requires Valid(At())
      modifies this
      ensures (At(), o) == Rlp.ReadList(old(At()))
    {
      hide Bound, Rlp.ReadFull, Rlp.ReadSize;
      var bs := ReadFull(1);
      if bs.Err? { return Err(bs.error); }
      var tag := bs.value[0];
      if tag < 0xC0 { return Err(InvalidFormat); }
      if tag <= 0xF7 {
        EnterList(tag - 0xC0);
        return Ok(());
      }
      var sz := ReadSize(tag - 0xF7);
      if sz.Err? { return Err(sz.error); }
      if tag - 0xF7 == 1 && sz.value == 0 { return Err(NilValue); }
      EnterList(sz.value);
      o := Ok(());
    }

    method SkipOne() returns (o: Out<()>)
      requires Valid(At())
      modifies this`pos
      ensures (At(), o) == Rlp.SkipOne(old(At()))
    {
      hide Bound, Rlp.ReadFull, Rlp.ReadSize, Rlp.SkipN;
      var bs := ReadFull(1);
      if bs.Err? { return Err(bs.error); }
      var tag := bs.value[0];
      if tag < 0x80 { return Ok(()); }
      if tag <= 0xB7 {
        o := SkipN(tag - 0x80);
        return;
      }
      if 0xC0 <= tag <= 0xF7 {
        o := SkipN(tag - 0xC0);
        return;
      }
      var sz := ReadSize(if tag < 0xC0 then tag - 0xB7 else tag - 0xF7);
      if sz.Err? { return Err(sz.error); }
      o := SkipN(sz.value);
    }

    method Skip(cnt: nat) returns (o: Out<()>)
      requires Valid(At())
      modifies this`pos
      ensures (At(), o) == Rlp.Skip(old(At()), cnt)
    {
      hide Rlp.SkipOne, Valid;
      o := Ok(());
      for i := 0 to cnt
        invariant Valid(At()) && Rlp.Skip(old(At()), cnt) == Rlp.Skip(At(), cnt - i)
      {
        o := SkipOne();
        if o.Err? { return; }
      }
      o := Ok(());
    }

    method ReadMore(org: Bytes, size: nat) returns (o: Out<Bytes>)
      requires Valid(At())
      modifies this`pos
      ensures (At(), o) == Rlp.ReadMore(old(At()), org, size)
    {
      if size + |org| > INT64_MAX { return Err(Panicked); } // the sum is negative, and so is the buffer size
      if size + |org| > Top(At()).maxSB { return Err(InvalidFormat); }
      o := ReadAll(size);
      if o.Ok? { o := Ok(org + o.value); }
    }

    method ReadRaw() returns (o: Out<Bytes>)
      requires Valid(At())
      modifies this`pos
      ensures (At(), o) == Rlp.ReadRaw(old(At()))
    {
      hide Bound, Rlp.ReadFull, Rlp.ReadAll, Rlp.ReadMore;
      o := ReadFull(1);
      if o.Err? { return; }
      var header := o.value;
      var tag := header[0];
      if tag < 0x80 { return; }
      if tag <= 0xB7 {
        o := ReadMore(header, tag - 0x80);
        return;
      }
      if 0xC0 <= tag <= 0xF7 {
        o := ReadMore(header, tag - 0xC0);
        return;
      }
      o := ReadAll(if tag < 0xC0 then tag - 0xB7 else tag - 0xF7);
      if o.Err? { return; }
      var sz := SafeBytesToSize(o.value);
      if sz.None? { return Err(InvalidFormat); }
      o := ReadMore(header + o.value, sz.value);
    }

    /** Closes the list being read at a level and all lists inside it. */
    method Flush(level: nat) returns (o: Out<()>)
      requires Valid(At()) && level < |frames|
      modifies this
      ensures (At(), o) == FlushTo(old(At()), level)
    {
      hide Bound;
      if level + 1 == |frames| {
        assert frames[..level + 1] == frames;
        return Ok(());
      }
      var child := frames[..level + 2];
      var bound := Bound(child);
      o := if child[level + 1].end == bound then Ok(()) else Err(InvalidFormat);
      pos, frames := bound, frames[..level + 1];
    }

    /** Reads one item and everything in it. If the encoding of x is ahead, the item is x and the
        reader stops right after it. */
    method Next(ghost x: Item) returns (o: Out<Item>)
      requires Valid(At())
      modifies this
      ensures Valid(At())
      ensures (At(), o) == Decode(old(At()))
      ensures old(Rlp.At(At(), Encode(x))) && |Encode(x)| <= INT64_MAX && |Encode(x)| <= old(Top(At()).maxSB)
              ==> o == Ok(x) && pos == old(pos) + |Encode(x)| && frames == old(frames)
      decreases |input| - pos, 1
    {
      hide Bound, Rlp.ReadBytes, Rlp.ReadList, FlushTo, DecodeItems, Encode;
      ghost var c := At();
      if Rlp.At(c, Encode(x)) && |Encode(x)| <= INT64_MAX && |Encode(x)| <= Top(c).maxSB { DecodeAt(c, x); }
      ValidBound(c);
      var level := |frames| - 1;
      if pos < Bound(frames) && input[pos] >= 0xC0 {
        if Rlp.ReadList(c).1 == Err(NilValue) { NilAdvances(c); }
        var l := ReadList();
        if l == Err(NilValue) { return Ok(Null); }
        if l.Err? { return Err(l.error); }
        var xs := Items();
        if xs.Err? { return Err(xs.error); }
        var f := Flush(level);
        o := if f.Err? then Err(f.error) else Ok(List(xs.value));
      } else {
        var b := ReadBytes();
        o := if b.Err? then Err(b.error) else Ok(Str(b.value));
      }
    }

    /** Reads items until the end of the current list. */
    method Items() returns (o: Out<seq<Item>>)
      requires Valid(At())
      modifies this
      ensures Valid(At())
      ensures (At(), o) == DecodeItems(old(At()))
      decreases |input| - pos, 2
    {
      hide Bound, Decode, Encode;
      ghost var c := At();
      ValidBound(c);
      var x := Next(Null);
      if x == Err(EOF) { return Ok([]); }
      if x.Err? { return Err(x.error); }
      ValidBound(At());
      var xs := Items();
      o := if xs.Err? then xs else Ok([x.value] + xs.value);
    }
  }

  // ----- writing

  /** A list being written: its payload so far, whether it is a map and its number of elements. */
  datatype Level = Level(buffer: Bytes, isMap: bool, cnt: nat)

  class Writer {
    /** The output first, then the lists being written, the outermost first. */
    var levels: seq<Level>

    ghost predicate Valid()
      reads this
    {
      |levels| >= 1
    }

    constructor ()
      ensures Valid() && levels == [Level([], false, 0)]
    {
      levels := [Level([], false, 0)];
    }

    /** Appends to the innermost buffer, and counts cnt more elements. */
    method Append(b: Bytes, cnt: nat)
      requires Valid()
      modifies this
      ensures Valid() && levels == Appended(old(levels), b, cnt)
    {
      var top := levels[|levels| - 1];
      levels := levels[..|levels| - 1] + [Level(top.buffer + b, top.isMap, top.cnt + cnt)];
    }

    method WriteNull()
      requires Valid()
      modifies this
      ensures Valid() && levels == Appended(old(levels), Encode(Null), 1)
    {
      Append([0xF8, 0], 1);
    }

    /** Writes the header and the payload of a string or of a closed list. */
    method WriteWithHeader(base: int, b: Bytes, cnt: nat)
      requires Valid() && |b| <= INT64_MAX
      modifies this
      ensures Valid() && levels == Appended(old(levels), Header(base, |b|) + b, cnt)
    {
      var l := |b|;
      if l <= 55 {
        Append([(base + l) % 256] + b, cnt);
      } else {
        var sz := SizeToBytes(l);
        Append([(base + 55 + |sz|) % 256] + sz + b, cnt);
      }
    }

    method WriteBytes(b: Bytes)
      requires Valid() && |b| <= INT64_MAX
      modifies this
      ensures Valid() && levels == Appended(old(levels), Encode(Str(b)), 1)
    {
      if |b| == 1 && b[0] < 0x80 {
        Append(b, 1);
      } else {
        WriteWithHeader(0x80, b, 1);
      }
    }

    method WriteList(isMap: bool)
      requires Valid()
      modifies this
      ensures Valid() && levels == Appended(old(levels), [], 1) + [Level([], isMap, 0)]
    {
      Append([], 1);
      levels := levels + [Level([], isMap, 0)];
    }

    /** Closes the innermost list and writes it to the one around it; a map needs pairs. */
    method Close() returns (ok: bool)
      requires Valid() && |levels[|levels| - 1].buffer| <= INT64_MAX
      modifies this
      ensures Valid()
      ensures |old(levels)| == 1 ==> ok && levels == old(levels)
      ensures |old(levels)| > 1 ==>
                var top := old(levels)[|old(levels)| - 1];
                var below := old(levels)[..|old(levels)| - 1];
                && (ok <==> !(top.isMap && top.cnt % 2 != 0))
                && levels == if ok then Appended(below, Header(0xC0, |top.buffer|) + top.buffer, 0) else old(levels)
    {
      if |levels| == 1 { return true; }
      var top := levels[|levels| - 1];
      if top.isMap && top.cnt % 2 != 0 { return false; }
      levels := levels[..|levels| - 1];
      WriteWithHeader(0xC0, top.buffer, 0);
      ok := true;
    }

    /** Writing an item appends exactly its encoding and counts one element, whatever was open. */
    method WriteItem(x: Item)
      requires Valid() && |Encode(x)| <= INT64_MAX
      modifies this
      ensures Valid() && levels == Appended(old(levels), Encode(x), 1)
      decreases x, 1
    {
      hide Header, Appended, EncodeAll;
      match x
      case Null => WriteNull();
      case Str(b) =>
        BytesShorter(b);
        WriteBytes(b);
      case List(xs) =>
        ghost var start := levels;
        WriteList(false);
        WriteItems(xs);
        ClosedList(start, xs);
        var ok := Close();
        assert ok;
    }

    method WriteItems(xs: seq<Item>)
      requires Valid() && |Encode(List(xs))| <= INT64_MAX
      modifies this
      ensures Valid() && levels == Appended(old(levels), EncodeAll(xs), |xs|)
      decreases xs, 0
    {
      hide Encode, EncodeAll, Appended;
      ghost var start := levels;
      AppendedNothing(levels, xs);
      for i := 0 to |xs|
        invariant Valid() && levels == Appended(start, EncodeAll(xs[..i]), i)
      {
        EncodeAllSnoc(xs, i);
        AppendedTwice(start, EncodeAll(xs[..i]), i, Encode(xs[i]));
        WriteItem(xs[i]);
      }
      assert xs[..|xs|] == xs;
    }
  }

  lemma AppendedNothing(levels: seq<Level>, xs: seq<Item>)
    requires |levels| >= 1
    ensures Appended(levels, EncodeAll(xs[..0]), 0) == levels
  {
    assert xs[..0] == [];
    assert levels == levels[..|levels| - 1] + [levels[|levels| - 1]];
    assert levels[|levels| - 1].buffer + [] == levels[|levels| - 1].buffer;
  }

  lemma AppendedTwice(levels: seq<Level>, a: Bytes, n: nat, b: Bytes)
    requires |levels| >= 1
    ensures Appended(Appended(levels, a, n), b, 1) == Appended(levels, a + b, n + 1)
  {
    var top := levels[|levels| - 1];
    assert top.buffer + a + b == top.buffer + (a + b);
    assert Appended(levels, a, n)[..|levels| - 1] == levels[..|levels| - 1];
  }

  /** The levels when a list has been written and is about to be closed, and after that. */
  lemma {:induction false} ClosedList(start: seq<Level>, xs: seq<Item>)
    requires |start| >= 1 && |Encode(List(xs))| <= INT64_MAX
    ensures var full := Appended(Appended(start, [], 1) + [Level([], false, 0)], EncodeAll(xs), |xs|);
            && full[|full| - 1] == Level(EncodeAll(xs), false, |xs|) && |EncodeAll(xs)| <= INT64_MAX
            && Appended(full[..|full| - 1], Encode(List(xs)), 0) == Appended(start, Encode(List(xs)), 1)
  {
    hide Header, EncodeAll;
    var p, below := EncodeAll(xs), Appended(start, [], 1);
    var listed := below + [Level([], false, 0)];
    var full := Appended(listed, p, |xs|);
    assert [] + p == p;
    assert listed[..|listed| - 1] == below && full[..|full| - 1] == below;
    AppendedAgain(start, Encode(List(xs)));
  }

  lemma AppendedAgain(levels: seq<Level>, b: Bytes)
    requires |levels| >= 1
    ensures Appended(Appended(levels, [], 1), b, 0) == Appended(levels, b, 1)
  {
    var top := levels[|levels| - 1];
    assert top.buffer + [] + b == top.buffer + b;
    assert Appended(levels, [], 1)[..|levels| - 1] == levels[..|levels| - 1];
  }

  function Appended(levels: seq<Level>, b: Bytes, cnt: nat): (r: seq<Level>)
    requires |levels| >= 1
    ensures |r| == |levels|
  {
    var top := levels[|levels| - 1];
    levels[..|levels| - 1] + [Level(top.buffer + b, top.isMap, top.cnt + cnt)]
  }

  lemma {:induction false} EncodeAllConcat(xs: seq<Item>, ys: seq<Item>)
    ensures EncodeAll(xs + ys) == EncodeAll(xs) + EncodeAll(ys)
    decreases |xs|
  {
    hide Encode;
    if xs == [] {
      assert xs + ys == ys;
    } else {
      assert (xs + ys)[1..] == xs[1..] + ys;
      EncodeAllConcat(xs[1..], ys);
    }
  }

  lemma {:induction false} EncodeAllSnoc(xs: seq<Item>, i: nat)
    requires i < |xs| && |Encode(List(xs))| <= INT64_MAX
    ensures EncodeAll(xs[..i + 1]) == EncodeAll(xs[..i]) + Encode(xs[i])
    ensures |EncodeAll(xs[..i + 1])| <= INT64_MAX && |Encode(xs[i])| <= INT64_MAX
  {
    hide Header;
    assert xs[..i + 1] == xs[..i] + [xs[i]];
    EncodeAllConcat(xs[..i], [xs[i]]);
    assert EncodeAll([xs[i]]) == Encode(xs[i]) + EncodeAll([xs[i]][1..]) == Encode(xs[i]);
    assert xs == xs[..i + 1] + xs[i + 1..];
    EncodeAllConcat(xs[..i + 1], xs[i + 1..]);
  }
}
