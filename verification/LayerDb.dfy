/** The layered database of common/db/layer_db.go: writes are kept in memory over a base until they
    are flushed. Seen from outside it is a plain map per bucket. */
module LayerDb {
  import opened Base

  type BucketId = string
  type Content = map<Bytes, Bytes>

  /** What has been written over a base: a value, or nothing for a deleted key. */
  type Changes = map<Bytes, Option<Bytes>>

  function Lookup(m: Content, k: Bytes): (v: Option<Bytes>) {
    if k in m then Some(m[k]) else None
  }

  function With(m: Content, k: Bytes, v: Option<Bytes>): (m': Content)
    ensures forall x :: Lookup(m', x) == if x == k then v else Lookup(m, x)
  {
    if v.Some? then m[k := v.value] else m - {k}
  }

  /** The base with the changes on top. */
  function Overlay(m: Content, d: Changes): (r: Content)
    ensures forall k :: Lookup(r, k) == if k in d then d[k] else Lookup(m, k)
  {
    map k | k in m.Keys + d.Keys && (k in d ==> d[k].Some?) :: if k in d then d[k].value else m[k]
  }

  lemma SameContent(m: Content, m': Content)
    requires forall k :: Lookup(m, k) == Lookup(m', k)
    ensures m == m'
  {
    forall k | k in m ensures k in m' && m'[k] == m[k] { assert Lookup(m, k) == Lookup(m', k); }
    forall k | k in m' ensures k in m { assert Lookup(m, k) == Lookup(m', k); }
  }

  lemma OverlayWith(m: Content, d: Changes, k: Bytes, v: Option<Bytes>)
    ensures Overlay(m, d[k := v]) == With(Overlay(m, d), k, v)
  {
    hide Overlay, With;
    SameContent(Overlay(m, d[k := v]), With(Overlay(m, d), k, v));
  }

  /** Writing a change through to the base does not change what is seen over it. */
  lemma OverlayThrough(m: Content, d: Changes, k: Bytes)
    requires k in d
    ensures Overlay(With(m, k, d[k]), d) == Overlay(m, d)
  {
    hide Overlay, With;
    SameContent(Overlay(With(m, k, d[k]), d), Overlay(m, d));
  }

  lemma OverlayDone(m: Content, d: Changes)
    requires forall k :: k in d ==> Lookup(m, k) == d[k]
    ensures Overlay(m, d) == m
  {
    hide Overlay;
    SameContent(Overlay(m, d), m);
  }

  /** The base: buckets of its own and a number of writes that will still succeed. */
  class Database {
    var buckets: map<BucketId, Content>
    var budget: nat

    constructor (buckets: map<BucketId, Content>, budget: nat)
      ensures this.buckets == buckets && this.budget == budget
    {
      this.buckets, this.budget := buckets, budget;
    }

    function Of(id: BucketId): (m: Content)
      reads this
    {
      if id in buckets then buckets[id] else map[]
    }

    method Write(id: BucketId, k: Bytes, v: Option<Bytes>) returns (ok: bool)
      modifies this
      ensures ok <==> old(budget) > 0
      ensures budget == if ok then old(budget) - 1 else 0
      ensures Of(id) == if ok then With(old(Of(id)), k, v) else old(Of(id))
      ensures forall i :: i != id ==> Of(i) == old(Of(i))
    {
      ok := budget > 0;
      if ok {
        buckets := buckets[id := With(Of(id), k, v)];
        budget := budget - 1;
      }
    }
  }

  class LayerBucket {
    const id: BucketId
    const lower: Database
    /** The changes kept in memory, or nothing once they have been flushed. */
    var data: Option<Changes>

    ghost function View(): (m: Content)
      reads this, lower
    {
      if data.Some? then Overlay(lower.Of(id), data.value) else lower.Of(id)
    }

    /** The number of writes that flushing takes: one for every key changed in memory. */
    ghost function Pending(): (n: nat)
      reads this
    {
      if data.Some? then |data.value.Keys| else 0
    }

    constructor (id: BucketId, lower: Database)
      ensures this.id == id && this.lower == lower && data == Some(map[]) && View() == lower.Of(id)
    {
      this.id, this.lower, data := id, lower, Some(map[]);
      new;
      OverlayDone(lower.Of(id), map[]);
    }

    method Get(k: Bytes) returns (v: Option<Bytes>)
      ensures v == Lookup(View(), k)
    {
      hide Overlay;
      if data.Some? && k in data.value { return data.value[k]; }
      v := Lookup(lower.Of(id), k);
    }

    method Has(k: Bytes) returns (b: bool)
      ensures b <==> k in View()
    {
      hide Overlay;
      ghost var v := Lookup(View(), k);
      if data.Some? && k in data.value { return data.value[k].Some?; }
      b := Lookup(lower.Of(id), k).Some?;
    }

    /** Sets a key, or deletes it: in memory before the flush, in the base after it. */
    method Change(k: Bytes, v: Option<Bytes>) returns (ok: bool)
      modifies this`data, lower
      ensures View() == if ok then With(old(View()), k, v) else old(View())
      ensures old(data).Some? ==>
                ok && data.Some? && lower.budget == old(lower.budget) && forall i :: lower.Of(i) == old(lower.Of(i))
      ensures lower.budget <= old(lower.budget) && (!ok ==> lower.budget == 0)
      ensures old(data).None? ==>
                data.None? && (ok <==> old(lower.budget) > 0) && forall i :: i != id ==> lower.Of(i) == old(lower.Of(i))
    {
      hide Overlay, With;
      if data.Some? {
        OverlayWith(lower.Of(id), data.value, k, v);
        data := Some(data.value[k := v]);
        return true;
      }
      ok := lower.Write(id, k, v);
    }

    /** Writes the changes to the base, in any order, or drops them. A flush that fails on the way
        keeps all changes in memory, so nothing seen through the bucket changes. */
    method Flush(write: bool) returns (ok: bool)
      modifies this`data, lower
      ensures forall i :: i != id ==> lower.Of(i) == old(lower.Of(i))
      ensures ok <==> !write || old(lower.budget) >= old(Pending())
      ensures lower.budget == if !write then old(lower.budget) else if ok then old(lower.budget) - old(Pending()) else 0
      ensures ok ==> data.None?
      ensures ok && write ==> lower.Of(id) == old(View()) && View() == old(View())
      ensures !write ==> ok && lower.Of(id) == old(lower.Of(id)) && View() == old(lower.Of(id))
      ensures !ok ==> data == old(data) && View() == old(View())
    {
      hide Overlay, With;
      if write && data.Some? {
        var d := data.value;
        var todo := d.Keys;
        while todo != {}
          invariant data == old(data) == Some(d) && todo <= d.Keys
          invariant View() == old(View()) && lower.budget + |d.Keys| == old(lower.budget) + |todo|
          invariant forall k :: k in d && k !in todo ==> Lookup(lower.Of(id), k) == d[k]
          invariant forall i :: i != id ==> lower.Of(i) == old(lower.Of(i))
          decreases |todo|
        {
          var k :| k in todo;
          OverlayThrough(lower.Of(id), d, k);
          ok := lower.Write(id, k, d[k]);
          if !ok { return; }
          todo := todo - {k};
        }
        OverlayDone(lower.Of(id), d);
      }
      data := None;
      ok := true;
    }
  }

  class LayeredDatabase {
    const lower: Database
    var buckets: map<BucketId, LayerBucket>
    var flushed: bool

    ghost predicate Valid()
      reads this, buckets.Values
    {
      forall i :: i in buckets ==> buckets[i].id == i && buckets[i].lower == lower
    }

    /** The content of a bucket as it is seen through the layer. */
    ghost function View(i: BucketId): (m: Content)
      requires Valid()
      reads this, buckets.Values, lower
    {
      if i in buckets then buckets[i].View() else lower.Of(i)
    }

    constructor (lower: Database)
      ensures Valid() && this.lower == lower && buckets == map[] && !flushed
      ensures forall i :: View(i) == lower.Of(i)
    {
      this.lower, buckets, flushed := lower, map[], false;
    }

    /** Changes of this bucket are kept in memory. */
    ghost predicate InMemory(i: BucketId)
      reads this, buckets.Values
    {
      if i in buckets then buckets[i].data.Some? else !flushed
    }

    /** The bucket to work on: a layered one, or the base itself once everything has been flushed.
        Asking for a bucket changes nothing that is seen. */
    method GetBucket(i: BucketId) returns (b: Option<LayerBucket>)
      requires Valid()
      modifies this`buckets
      ensures Valid() && flushed == old(flushed)
      ensures b.None? <==> i !in old(buckets) && flushed
      ensures b.Some? ==> i in buckets && buckets[i] == b.value && (b.value in old(buckets).Values || fresh(b.value))
      ensures b.None? ==> buckets == old(buckets)
      ensures forall j :: View(j) == old(View(j))
      ensures forall j :: j in old(buckets) ==> j in buckets && buckets[j] == old(buckets)[j]
      ensures forall j :: j in buckets && j !in old(buckets) ==> j == i && fresh(buckets[j]) && buckets[j].data.Some?
    {
      if i in buckets { return Some(buckets[i]); }
      if flushed { return None; }
      var bk := new LayerBucket(i, lower);
      buckets := buckets[i := bk];
      b := Some(bk);
    }

    /** Sets or deletes a key of a bucket: the view changes as a plain map would, and nothing else. */
    method Change(i: BucketId, k: Bytes, v: Option<Bytes>) returns (ok: bool)
      requires Valid()
      modifies this`buckets, buckets.Values, lower
      ensures Valid() && flushed == old(flushed)
      ensures View(i) == if ok then With(old(View(i)), k, v) else old(View(i))
      ensures forall j :: j != i ==> View(j) == old(View(j)) && lower.Of(j) == old(lower.Of(j))
      ensures ok <==> old(InMemory(i)) || old(lower.budget) > 0
      ensures lower.budget <= old(lower.budget) && (!ok ==> lower.budget == 0)
      ensures old(Unflushed()) ==> ok && Unflushed() && forall j :: lower.Of(j) == old(lower.Of(j))
      ensures forall j :: j in old(buckets) ==> j in buckets && buckets[j] == old(buckets)[j]
      ensures forall j :: j in buckets && j !in old(buckets) ==> fresh(buckets[j])
    {
      hide With;
      var b := GetBucket(i);
      if b.None? {
        ok := lower.Write(i, k, v);
      } else {
        ok := b.value.Change(k, v);
      }
    }

    method Get(i: BucketId, k: Bytes) returns (v: Option<Bytes>)
      requires Valid()
      modifies this`buckets
      ensures Valid() && flushed == old(flushed) && v == Lookup(old(View(i)), k)
      ensures forall j :: View(j) == old(View(j))
      ensures old(Unflushed()) ==> Unflushed()
      ensures forall j :: j in old(buckets) ==> j in buckets && buckets[j] == old(buckets)[j]
      ensures forall j :: j in buckets && j !in old(buckets) ==> fresh(buckets[j])
    {
      var b := GetBucket(i);
      if b.None? {
        v := Lookup(lower.Of(i), k);
      } else {
        v := b.value.Get(k);
      }
    }

    /** Nothing has been flushed yet. */
    ghost predicate Unflushed()
      reads this, buckets.Values
    {
      !flushed && forall i :: i in buckets ==> buckets[i].data.Some?
    }

    /** The number of writes that flushing these buckets takes, bucket by bucket. */
    ghost function Pending(ids: set<BucketId>): (p: map<BucketId, nat>)
      reads this, buckets.Values
    {
      map i | i in ids && i in buckets :: buckets[i].Pending()
    }

    /** If these buckets are flushed, n more writes will succeed after that; fewer than none if n < 0. */
    ghost predicate Spare(ids: set<BucketId>, n: int)
      reads this, buckets.Values, lower
    {
      ids <= buckets.Keys && lower.budget == n + Sum(Pending(ids))
    }

    lemma SpareOf(ids: set<BucketId>) returns (n: int)
      requires ids <= buckets.Keys
      ensures Spare(ids, n) && n == lower.budget - Sum(Pending(ids))
    {
      n := lower.budget - Sum(Pending(ids));
    }

    lemma SpareShort(ids: set<BucketId>, n: int, i: BucketId) returns (p: map<BucketId, nat>)
      requires Spare(ids, n) && i in ids
      ensures p.Keys == ids <= buckets.Keys && lower.budget == n + Sum(p)
      ensures forall j :: j in ids ==> p[j] == buckets[j].Pending()
      ensures n >= 0 ==> p[i] <= lower.budget
    {
      hide Sum, LayerBucket.Pending;
      p := Pending(ids);
      SumRemove(p, i);
    }

    /** Flushing one bucket spends what was set aside for it. */
    lemma SpareAfter(ids: set<BucketId>, n: int, i: BucketId, p: map<BucketId, nat>, budget: nat)
      requires i in ids && p.Keys == ids <= buckets.Keys && budget == n + Sum(p) && lower.budget + p[i] == budget
      requires forall j :: j in ids && j != i ==> buckets[j].Pending() == p[j]
      ensures Spare(ids - {i}, n)
    {
      hide Sum, LayerBucket.Pending;
      SumRemove(p, i);
      assert Pending(ids - {i}) == p - {i};
    }

    lemma SpareNone(n: int)
      requires Spare({}, n)
      ensures n == lower.budget
    {
    }

    /** Flushes one bucket. */
    method FlushOne(i: BucketId, write: bool, ghost ids: set<BucketId>, ghost n: int) returns (ok: bool)
      requires Valid() && i in buckets
      modifies buckets[i], lower
      ensures Valid()
      ensures forall j :: j != i ==> View(j) == old(View(j)) && lower.Of(j) == old(lower.Of(j))
      ensures forall j :: j in buckets && j != i ==> buckets[j].data == old(buckets[j].data)
      ensures ok ==> View(i) == lower.Of(i) && buckets[i].data.None?
      ensures write || !ok ==> View(i) == old(View(i))
      ensures !write ==> ok && lower.Of(i) == old(lower.Of(i))
      ensures lower.budget <= old(lower.budget) && (!ok ==> lower.budget == 0)
      ensures write && i in ids && old(Spare(ids, n)) ==> if ok then Spare(ids - {i}, n) else n < 0
    {
      hide Overlay, Sum, Database.Of, Spare, Pending;
      ghost var counted := i in ids && Spare(ids, n);
      ghost var p: map<BucketId, nat> := map[];
      if counted { p := SpareShort(ids, n, i); }
      ok := buckets[i].Flush(write);
      if write && ok && counted { SpareAfter(ids, n, i, p, old(lower.budget)); }
      forall x | x != i && x in buckets ensures View(x) == old(View(x)) && buckets[x].data == old(buckets[x].data) {
        assert buckets[x].id != buckets[i].id;
      }
    }

    /** Flushes every bucket, in any order. Writing makes the base what was seen through the layer;
        dropping leaves the base as it was. If writing fails on the way, nothing seen changes. */
    method Flush(write: bool) returns (ok: bool)
      requires Valid()
      modifies this`flushed, buckets.Values, lower
      ensures Valid() && buckets == old(buckets)
      ensures ok <==> !write || old(lower.budget) >= old(Sum(Pending(buckets.Keys)))
      ensures lower.budget <= old(lower.budget)
      ensures ok && write ==> lower.budget == old(lower.budget) - old(Sum(Pending(buckets.Keys)))
      ensures ok ==> flushed && forall j :: j in buckets ==> buckets[j].data.None?
      ensures ok && write ==> forall j :: lower.Of(j) == View(j) == old(View(j))
      ensures !write ==> ok && forall j :: lower.Of(j) == old(lower.Of(j)) == View(j)
      ensures !ok ==> lower.budget == 0 && flushed == old(flushed) && forall j :: View(j) == old(View(j))
    {
      hide Overlay, LayerBucket.View, Database.Of, Spare, Sum, Pending;
      var todo := buckets.Keys;
      ghost var n := SpareOf(todo);
      while todo != {}
        invariant todo <= buckets.Keys && buckets == old(buckets) && flushed == old(flushed) && Valid()
        invariant forall j :: j !in todo ==> View(j) == lower.Of(j)
        invariant forall j :: j in buckets && j !in todo ==> buckets[j].data.None?
        invariant write ==> forall j :: View(j) == old(View(j))
        invariant !write ==> forall j :: lower.Of(j) == old(lower.Of(j))
        invariant (write ==> Spare(todo, n)) && lower.budget <= old(lower.budget)
        decreases |todo|
      {
        var j :| j in todo;
        ok := FlushOne(j, write, todo, n);
        if !ok { return; }
        todo := todo - {j};
      }
      if write { SpareNone(n); }
      flushed := true;
      ok := true;
    }

    /** What is seen, what is in the base, and whether nothing has been flushed, as a value. */
    ghost function Now(): (s: Layers)
      requires Valid()
      reads this, buckets.Values, lower
    {
      Layers(map i | i in buckets.Keys + lower.buckets.Keys :: View(i), lower.buckets, Unflushed())
    }

    lemma NowIs()
      requires Valid()
      ensures forall i :: Plain(Now().view, i) == View(i) && Plain(Now().base, i) == lower.Of(i)
      ensures Now().unflushed <==> Unflushed()
    {
    }

    method DoRead(i: BucketId, k: Bytes) returns (a: Answer)
      requires Valid()
      modifies this`buckets
      ensures Valid() && LayersStep(old(Now()), Read(i, k), a, Now())
      ensures forall j :: j in buckets ==> buckets[j] in old(buckets).Values || fresh(buckets[j])
    {
      hide With, Overlay, Database.Of, LayerBucket.View, Now, View, Unflushed;
      NowIs();
      var v := Get(i, k);
      NowIs();
      a := Value(v);
    }

    method DoWrite(i: BucketId, k: Bytes, v: Option<Bytes>) returns (a: Answer)
      requires Valid()
      modifies this`buckets, buckets.Values, lower
      ensures Valid() && LayersStep(old(Now()), Write(i, k, v), a, Now())
      ensures lower.budget <= old(lower.budget) && (a == Done(false) ==> lower.budget == 0)
      ensures forall j :: j in buckets ==> buckets[j] in old(buckets).Values || fresh(buckets[j])
    {
      hide With, Overlay, Database.Of, LayerBucket.View, Now, View, Unflushed;
      NowIs();
      var ok := Change(i, k, v);
      NowIs();
      a := Done(ok);
    }

    method DoFlush(write: bool) returns (a: Answer)
      requires Valid()
      modifies this`flushed, buckets.Values, lower
      ensures Valid() && buckets == old(buckets) && LayersStep(old(Now()), Op.Flush(write), a, Now())
      ensures lower.budget <= old(lower.budget) && (a == Done(false) ==> lower.budget == 0)
    {
      hide With, Overlay, Database.Of, LayerBucket.View, Now, View, Unflushed, Sum;
      NowIs();
      var ok := Flush(write);
      NowIs();
      a := Done(ok);
    }

    /** One operation: it does to what is seen what it does to plain maps. */
    method Perform(op: Op) returns (a: Answer)
      requires Valid()
      modifies this, buckets.Values, lower
      ensures Valid() && LayersStep(old(Now()), op, a, Now())
      ensures lower.budget <= old(lower.budget) && (a == Done(false) ==> lower.budget == 0)
      ensures forall j :: j in buckets ==> buckets[j] in old(buckets).Values || fresh(buckets[j])
    {
      hide LayersStep, Now, View, Unflushed;
      match op
      case Read(i, k) =>
        a := DoRead(i, k);
        assert a.Value? by { StepAnswers(old(Now()), op, a, Now()); }
      case Write(i, k, v) => a := DoWrite(i, k, v);
      case Flush(write) => a := DoFlush(write);
    }

    /** Any sequence of reads, writes and flushes, also after a flush that failed on the way: reads are
        answered from what plain maps would hold, `trace` has those maps before the first operation and
        after each of them, and an operation fails only when the base takes no more writes. */
    method Run(ops: seq<Op>) returns (answers: seq<Answer>, ghost trace: seq<Layers>)
      requires Valid()
      modifies this, buckets.Values, lower
      ensures Valid()
      ensures |answers| == |ops| && |trace| == |ops| + 1 && trace[0] == old(Now()) && trace[|ops|] == Now()
      ensures forall n :: 0 <= n < |ops| ==> LayersStep(trace[n], ops[n], answers[n], trace[n + 1])
      ensures Done(false) in answers ==> lower.budget == 0
    {
      hide LayersStep, Now, View;
      answers, trace := [], [Now()];
      for n := 0 to |ops|
        invariant Valid() && |answers| == n && |trace| == n + 1 && trace[0] == old(Now()) && trace[n] == Now()
        invariant forall j :: j in buckets ==> buckets[j] in old(buckets).Values || fresh(buckets[j])
        invariant forall k :: 0 <= k < n ==> LayersStep(trace[k], ops[k], answers[k], trace[k + 1])
        invariant Done(false) in answers ==> lower.budget == 0
      {
        var a := Perform(ops[n]);
        answers, trace := answers + [a], trace + [Now()];
      }
    }
  }

  // ----- sums

  ghost function Sum(m: map<BucketId, nat>): (n: nat) {
    if m.Keys == {} then 0 else
    var k :| k in m.Keys;
    m[k] + Sum(m - {k})
  }

  lemma SumStep(m: map<BucketId, nat>) returns (k: BucketId)
    requires m.Keys != {}
    ensures k in m && Sum(m) == m[k] + Sum(m - {k})
  {
    k :| k in m.Keys && Sum(m) == m[k] + Sum(m - {k});
  }

  /** The order of summation does not matter. */
  lemma {:induction false} SumRemove(m: map<BucketId, nat>, k: BucketId)
    requires k in m
    ensures Sum(m) == m[k] + Sum(m - {k})
    decreases |m|
  {
    var k' := SumStep(m);
    hide Sum;
    if k' != k {
      SumRemove(m - {k'}, k);
      SumRemove(m - {k}, k');
      assert m - {k'} - {k} == m - {k} - {k'};
    }
  }

  lemma StepAnswers(s: Layers, op: Op, a: Answer, s': Layers)
    requires LayersStep(s, op, a, s')
    ensures op.Read? <==> a.Value?
  {
  }

  // ----- the plain maps

  datatype Op = Read(i: BucketId, k: Bytes) | Write(i: BucketId, k: Bytes, v: Option<Bytes>) | Flush(write: bool)

  datatype Answer = Value(v: Option<Bytes>) | Done(ok: bool)

  /** A plain map of maps for what is seen and one for the base. */
  datatype Layers = Layers(view: map<BucketId, Content>, base: map<BucketId, Content>, unflushed: bool)

  function Plain(m: map<BucketId, Content>, i: BucketId): (c: Content) {
    if i in m then m[i] else map[]
  }

  ghost predicate Same(m: map<BucketId, Content>, m': map<BucketId, Content>) {
    forall i :: Plain(m, i) == Plain(m', i)
  }

  /** The map m' is m with a key of one bucket set or deleted. */
  ghost predicate Updated(
      m: map<BucketId, Content>, i: BucketId, k: Bytes, v: Option<Bytes>, m': map<BucketId, Content>) {
    forall j :: Plain(m', j) == if j == i then With(Plain(m, i), k, v) else Plain(m, j)
  }

  /** What an operation does. A write touches no other bucket; before the first flush every write succeeds
      and the base is untouched. A flush that writes makes the base what is seen; if it fails, what is
      seen stays; a flush that does not write makes what is seen the base. */
  ghost predicate LayersStep(s: Layers, op: Op, a: Answer, s': Layers) {
    match op
    case Read(i, k) =>
      a == Value(Lookup(Plain(s.view, i), k)) && Same(s.view, s'.view) && Same(s.base, s'.base)
      && (s.unflushed ==> s'.unflushed)
    case Write(i, k, v) =>
      && a.Done? && (if a.ok then Updated(s.view, i, k, v, s'.view) else Same(s.view, s'.view))
      && (forall j :: j != i ==> Plain(s'.base, j) == Plain(s.base, j))
      && (s.unflushed ==> a.ok && s'.unflushed && Same(s.base, s'.base))
    case Flush(write) =>
      && a.Done? && (write || a.ok)
      && (if write then Same(s.view, s'.view) && (a.ok ==> Same(s.view, s'.base))
          else Same(s.base, s'.base) && Same(s.base, s'.view))
  }
}
