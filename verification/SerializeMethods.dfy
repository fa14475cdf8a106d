/** The serialiser as it runs: loops that write into a buffer, proved against the text of a value. */
module SerializeMethods {
  import opened Base
  import opened Serialize

  // ----- sorted keys

  lemma {:induction false} SortedTail(ks: seq<Bytes>)
    requires Sorted(ks) && ks != []
    ensures Sorted(ks[1..]) && ks[0] !in ks[1..]
  {
    hide Less;
    forall i, j | 0 <= i < j < |ks[1..]| ensures Less(ks[1..][i], ks[1..][j]) {
      assert ks[1..][i] == ks[i + 1] && ks[1..][j] == ks[j + 1];
    }
    if ks[0] in ks[1..] {
      var i :| 0 <= i < |ks[1..]| && ks[1..][i] == ks[0];
      assert Less(ks[0], ks[i + 1]);
      LessTotalSelf(ks[0]);
    }
  }

  /** A set has only one sorted list of its elements. */
  lemma {:induction false} SortedUnique(ks: seq<Bytes>, s: set<Bytes>)
    requires Sorted(ks) && forall k :: k in ks <==> k in s
    ensures ks == SortedKeys(s)
    decreases |ks|
  {
    hide Less;
    if ks == [] {
      assert s == {};
    } else {
      assert ks[0] in s;
      forall x | x in s ensures x == ks[0] || Less(ks[0], x) {
        var i :| 0 <= i < |ks| && ks[i] == x;
      }
      LeastUnique(s, ks[0]);
      SortedTail(ks);
      assert ks == [ks[0]] + ks[1..];
      forall k | k in ks[1..] ensures k in s - {ks[0]} { assert k in ks; }
      forall k | k in s - {ks[0]} ensures k in ks[1..] { assert k in ks; }
      SortedUnique(ks[1..], s - {ks[0]});
    }
  }

  method SortKeys(m: map<Bytes, Value>) returns (keys: seq<Bytes>)
    ensures keys == SortedKeys(m.Keys)
    ensures Sorted(keys) && forall k :: k in keys <==> k in m
  {
    hide Less, SortedKeys, IsLeast, Sorted;
    keys := [];
    var todo := m.Keys;
    SortedKeysSpec(m.Keys);
    SortedKeysNone();
    while todo != {}
      invariant SortedKeys(m.Keys) == keys + SortedKeys(todo)
      decreases |todo|
    {
      var k := FindLeast(todo);
      SortedKeysStep(todo, k);
      assert keys + ([k] + SortedKeys(todo - {k})) == keys + [k] + SortedKeys(todo - {k});
      keys := keys + [k];
      todo := todo - {k};
    }
    assert keys + [] == keys;
  }

  lemma SortedKeysNone()
    ensures SortedKeys({}) == []
  {
  }

  lemma SortedKeysStep(s: set<Bytes>, k: Bytes)
    requires s != {} && IsLeast(k, s)
    ensures k in s && SortedKeys(s) == [k] + SortedKeys(s - {k})
  {
    LeastUnique(s, k);
  }

  method FindLeast(s: set<Bytes>) returns (k: Bytes)
    requires s != {}
    ensures IsLeast(k, s)
  {
    hide Less;
    k :| k in s;
    var todo := s - {k};
    while todo != {}
      invariant k in s && todo <= s && forall x :: x in s && x !in todo ==> x == k || Less(k, x)
      decreases |todo|
    {
      var x :| x in todo;
      LessTotal(k, x);
      if Less(x, k) {
        forall y | y in s && y !in todo && y != k ensures Less(x, y) { LessTransitive(x, k, y); }
        k := x;
      }
      todo := todo - {x};
    }
  }

  // ----- the text, piece by piece

  lemma {:induction false} EscapeSnoc(s: Bytes, b: Byte)
    ensures Escape(s + [b]) == Escape(s) + if Special(b) then [BACKSLASH, b] else [b]
    decreases |s|
  {
    if s == [] {
      assert [b][1..] == [] && s + [b] == [b];
    } else {
      assert (s + [b])[1..] == s[1..] + [b];
      EscapeSnoc(s[1..], b);
    }
  }

  method SerializeString(s: Bytes) returns (t: Bytes)
    ensures t == Escape(s)
  {
    hide Escape;
    t := [];
    EscapeNothing();
    for i := 0 to |s|
      invariant t == Escape(s[..i])
    {
      assert s[..i + 1] == s[..i] + [s[i]];
      EscapeSnoc(s[..i], s[i]);
      if Special(s[i]) {
        t := t + [BACKSLASH, s[i]];
      } else {
        t := t + [s[i]];
      }
    }
    assert s[..|s|] == s;
  }

  lemma EscapeNothing()
    ensures Escape([]) == []
  {
  }

  lemma {:induction false} MoreSnoc(xs: seq<Value>, x: Value)
    ensures More(xs + [x]) == More(xs) + [DOT] + Serialized(x)
    decreases |xs|
  {
    hide Serialized;
    if xs == [] {
      assert [x][1..] == [] && xs + [x] == [x];
      assert [DOT] + Serialized(x) + [] == [] + [DOT] + Serialized(x);
    } else {
      assert (xs + [x])[1..] == xs[1..] + [x];
      MoreSnoc(xs[1..], x);
      assert [DOT] + Serialized(xs[0]) + (More(xs[1..]) + [DOT] + Serialized(x))
          == [DOT] + Serialized(xs[0]) + More(xs[1..]) + [DOT] + Serialized(x);
    }
  }

  lemma {:induction false} ElementsSnoc(xs: seq<Value>, x: Value)
    ensures Elements(xs + [x]) == Elements(xs) + (if Elements(xs) != [] then [DOT] else []) + Serialized(x)
    decreases |xs|
  {
    hide Serialized, More;
    if xs == [] {
      assert [x][1..] == [] && xs + [x] == [x];
      assert [] + Serialized(x) == Serialized(x);
      MoreNothing();
    } else {
      assert (xs + [x])[1..] == xs[1..] + [x];
      if Serialized(xs[0]) == [] {
        ElementsSnoc(xs[1..], x);
      } else {
        MoreSnoc(xs[1..], x);
        assert Serialized(xs[0]) + (More(xs[1..]) + [DOT] + Serialized(x))
            == Serialized(xs[0]) + More(xs[1..]) + [DOT] + Serialized(x);
      }
    }
  }

  lemma MoreNothing()
    ensures More([]) == []
  {
  }

  lemma {:induction false} EntriesSnoc(v: Value, ks: seq<Bytes>, k: Bytes)
    requires v.Dict? && k in v.entries && forall x :: x in ks ==> x in v.entries
    ensures forall x :: x in ks + [k] ==> x in v.entries
    ensures Entries(v, ks + [k]) == Entries(v, ks) + (if ks != [] then [DOT] else []) + Entry(v, k)
    ensures ks != [] ==> Entries(v, ks) != []
    decreases |ks|
  {
    hide Entry;
    if ks == [] {
      assert ks + [k] == [k];
      assert [] + Entry(v, k) == Entry(v, k);
    } else {
      var all := ks + [k];
      assert all[1..] == ks[1..] + [k];
      EntrySize(v, ks[0]);
      EntriesSnoc(v, ks[1..], k);
      if |ks| == 1 {
        assert ks[1..] == [];
        assert all[1..] == [k];
        assert Entries(v, all) == Entry(v, ks[0]) + [DOT] + Entry(v, k);
      } else {
        assert Entries(v, all) == Entry(v, ks[0]) + [DOT] + Entries(v, all[1..]);
        assert Entry(v, ks[0]) + [DOT] + (Entries(v, ks[1..]) + [DOT] + Entry(v, k))
            == Entry(v, ks[0]) + [DOT] + Entries(v, ks[1..]) + [DOT] + Entry(v, k);
      }
    }
  }

  lemma EntrySize(v: Value, k: Bytes)
    requires v.Dict? && k in v.entries
    ensures |Entry(v, k)| >= 1
  {
  }

  // ----- the serialiser

  /** Which keys of a dictionary are written: those in the first list, if there is one, and not in the
      second. */
  predicate Kept(k: Bytes, incl: Option<set<Bytes>>, excl: Option<set<Bytes>>) {
    !((incl.Some? && k !in incl.value) || (excl.Some? && k in excl.value))
  }

  function Filtered(m: map<Bytes, Value>, incl: Option<set<Bytes>>, excl: Option<set<Bytes>>): (r: map<Bytes, Value>) {
    map k | k in m && Kept(k, incl, excl) :: m[k]
  }

  /** The text of a dictionary without braces. */
  ghost function DictText(m: map<Bytes, Value>): (t: Bytes) {
    SortedKeysSpec(m.Keys);
    Entries(Dict(m), SortedKeys(m.Keys))
  }

  method SerializeValue(v: Value) returns (t: Option<Bytes>)
    ensures t.Some? <==> Supported(v)
    ensures t.Some? ==> t.value == Serialized(v)
    decreases v, 2
  {
    hide Escape, Decimal, Elements, Entries, SortedKeys;
    match v
    case Null => t := Some([BACKSLASH, ZERO]);
    case Dict(m) =>
      NoFilter(m);
      t := SerializeDict(v, None, None);
      if t.Some? { t := Some([LBRACE] + t.value + [RBRACE]); }
    case Arr(xs) =>
      t := SerializeList(xs);
      if t.Some? { t := Some([LBRACKET] + t.value + [RBRACKET]); }
    case Text(s) =>
      var e := SerializeString(s);
      t := Some(e);
    case Number(n) => t := Some(Decimal(n));
    case Unsupported => t := None;
  }

  lemma NoFilter(m: map<Bytes, Value>)
    ensures Filtered(m, None, None) == m
  {
  }

  method SerializeList(xs: seq<Value>) returns (t: Option<Bytes>)
    ensures t.Some? <==> forall i :: 0 <= i < |xs| ==> Supported(xs[i])
    ensures t.Some? ==> t.value == Elements(xs)
    decreases xs, 1
  {
    hide Serialized, Elements, Supported;
    var buf: Bytes := [];
    ElementsNothing();
    for i := 0 to |xs|
      invariant forall j :: 0 <= j < i ==> Supported(xs[j])
      invariant buf == Elements(xs[..i])
    {
      var frag := SerializeValue(xs[i]);
      if frag.None? { return None; }
      assert xs[..i + 1] == xs[..i] + [xs[i]];
      ElementsSnoc(xs[..i], xs[i]);
      if |buf| > 0 { buf := buf + [DOT]; }
      buf := buf + frag.value;
    }
    assert xs[..|xs|] == xs;
    t := Some(buf);
  }

  lemma ElementsNothing()
    ensures Elements([]) == []
  {
  }

  /** The filtered dictionary, its keys in order. */
  method SerializeDict(v: Value, incl: Option<set<Bytes>>, excl: Option<set<Bytes>>) returns (t: Option<Bytes>)
    requires v.Dict?
    ensures t.Some? <==> forall k :: k in Filtered(v.entries, incl, excl) ==> Supported(v.entries[k])
    ensures t.Some? ==> t.value == DictText(Filtered(v.entries, incl, excl))
    ensures forall k :: k in Filtered(v.entries, incl, excl) <==>
                        k in v.entries && (incl.None? || k in incl.value) && (excl.None? || k !in excl.value)
    decreases v, 1
  {
    hide Serialized, Supported, Escape, Entries, Less, SortedKeys;
    var d := v.entries;
    var keys := SortKeys(d);
    var buf: Bytes := [];
    ghost var kept: seq<Bytes> := [];
    NoEntries(v);
    for i := 0 to |keys|
      invariant forall k :: k in kept <==> k in keys[..i] && Kept(k, incl, excl)
      invariant forall k :: k in kept ==> k in d && Supported(d[k])
      invariant Sorted(kept)
      invariant buf == Entries(v, kept)
    {
      var k := keys[i];
      assert k in keys;
      assert keys[..i + 1] == keys[..i] + [k];
      if !Kept(k, incl, excl) { continue; }
      var frag := SerializeValue(d[k]);
      if frag.None? { return None; }
      var key := SerializeString(k);
      EntriesSnoc(v, kept, k);
      SortedSnoc(keys, i, kept);
      assert Entry(v, k) == Escape(k) + [DOT] + frag.value;
      if |buf| > 0 { buf := buf + [DOT]; }
      buf := buf + key;
      buf := buf + [DOT];
      buf := buf + frag.value;
      kept := kept + [k];
    }
    assert keys[..|keys|] == keys;
    SameText(v, kept, incl, excl);
    t := Some(buf);
  }

  lemma {:induction false} SortedSnoc(keys: seq<Bytes>, i: nat, kept: seq<Bytes>)
    requires Sorted(keys) && i < |keys| && Sorted(kept) && forall k :: k in kept ==> k in keys[..i]
    ensures Sorted(kept + [keys[i]])
  {
    hide Less;
    var ks := kept + [keys[i]];
    forall a, b | 0 <= a < b < |ks| ensures Less(ks[a], ks[b]) {
      if b == |kept| {
        assert ks[a] in kept;
        var j :| 0 <= j < i && keys[..i][j] == ks[a];
      }
    }
  }

  lemma {:induction false} SameText(v: Value, kept: seq<Bytes>, incl: Option<set<Bytes>>, excl: Option<set<Bytes>>)
    requires v.Dict? && Sorted(kept) && forall k :: k in kept <==> k in v.entries && Kept(k, incl, excl)
    ensures Entries(v, kept) == DictText(Filtered(v.entries, incl, excl))
  {
    hide Serialized, Entries, Less, SortedKeys;
    var m := Filtered(v.entries, incl, excl);
    SortedUnique(kept, m.Keys);
    SameEntries(v, Dict(m), kept);
  }

  /** The text of a filtered dictionary in braces is read back as exactly the entries that are in the first
      list, if there is one, and not in the second. */
  lemma {:induction false} FilteredRead(d: map<Bytes, Value>, incl: Option<set<Bytes>>, excl: Option<set<Bytes>>)
    requires Supported(Dict(Filtered(d, incl, excl)))
    ensures var r := Parse(Serialized(Dict(Filtered(d, incl, excl))));
            && r.Some? && r.value.0.Dict? && r.value.1 == []
            && (forall k :: k in r.value.0.entries <==>
                            k in d && (incl.None? || k in incl.value) && (excl.None? || k !in excl.value))
            && forall k :: k in r.value.0.entries ==> r.value.0.entries[k] == Norm(d[k])
  {
    hide Parse, Serialized, Supported;
    var v := Dict(Filtered(d, incl, excl));
    ParseSerialized(v, []);
    assert Serialized(v) + [] == Serialized(v);
    assert Norm(v) == Dict(map k | k in v.entries :: Norm(v.entries[k]));
  }

  /** What a transaction is signed over: the dictionary without braces, of which exactly the entries in the
      first list, if there is one, and not in the second are shown. Equal texts mean equal filtered
      dictionaries, up to what the text does not show. */
  method SerializeMap(d: map<Bytes, Value>, incl: Option<set<Bytes>>, excl: Option<set<Bytes>>)
    returns (t: Option<Bytes>)
    ensures t.Some? <==> Supported(Dict(Filtered(d, incl, excl)))
    ensures t.Some? ==> [LBRACE] + t.value + [RBRACE] == Serialized(Dict(Filtered(d, incl, excl)))
    ensures t.Some? ==>
              var r := Parse([LBRACE] + t.value + [RBRACE]);
              && r.Some? && r.value.0.Dict? && r.value.1 == []
              && (forall k :: k in r.value.0.entries <==>
                              k in d && (incl.None? || k in incl.value) && (excl.None? || k !in excl.value))
              && forall k :: k in r.value.0.entries ==> r.value.0.entries[k] == Norm(d[k])
    ensures t.None? <==> exists k :: k in d && (incl.None? || k in incl.value) && (excl.None? || k !in excl.value)
                                     && !Supported(d[k])
  {
    hide Entries, SortedKeys, Parse, Norm;
    t := SerializeDict(Dict(d), incl, excl);
    if t.Some? { FilteredRead(d, incl, excl); }
  }

  lemma {:induction false} MapTextIff(d: map<Bytes, Value>, e: map<Bytes, Value>)
    requires Supported(Dict(d)) && Supported(Dict(e))
    ensures DictText(d) == DictText(e) <==> Norm(Dict(d)) == Norm(Dict(e))
  {
    hide Entries, SortedKeys, Norm, Supported;
    SameTextIff(Dict(d), Dict(e));
    var a, b := DictText(d), DictText(e);
    assert Serialized(Dict(d)) == [LBRACE] + a + [RBRACE] && Serialized(Dict(e)) == [LBRACE] + b + [RBRACE];
    if [LBRACE] + a + [RBRACE] == [LBRACE] + b + [RBRACE] {
      assert a == ([LBRACE] + a + [RBRACE])[1..|a| + 1] && b == ([LBRACE] + b + [RBRACE])[1..|b| + 1];
    }
  }
}
