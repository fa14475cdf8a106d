/** Whole runs of an accumulator: adding, asking, checking, flushing and recovering in any order. Every
    answer is the one that a plain sequence of leaf hashes gives. */
module AccumulatorRun {
  import opened Base
  import opened AccumulatorWitness
  import opened AccumulatorNode
  import opened Accumulators

  datatype Op =
    | AddData(data: Bytes)
    | AddHash(hash: Bytes)
    | Ask(idx: int, accLength: int)
    | Check(ws: seq<Witness>, hash: Bytes, accLength: int)
    | Persist
    | Reload

  datatype Answer = Witnessed(w: Found<seq<Witness>>) | Judged(o: Outcome) | Done(ok: bool)

  /** The leaves of an accumulator and the leaves last saved, the data of leaves that is only in memory or
      also in the bucket, and the data that has been written to the bucket. */
  datatype PlainState = PlainState(leaves: seq<Bytes>, saved: Option<seq<Bytes>>, data: set<Bytes>, written: set<Bytes>)

  const NOTHING := PlainState([], None, {}, {})

  /** One step of the plain sequences; only a flush can fail. */
  function After(H: HashFn, s: PlainState, op: Op, failed: bool): (s': PlainState) {
    match op
    case AddData(d) => s.(leaves := s.leaves + [H(d)], data := s.data + {d})
    case AddHash(h) => s.(leaves := s.leaves + [h])
    case Ask(_, _) => s
    case Check(_, _, _) => s
    case Persist => if failed then s else s.(saved := Some(s.leaves), written := s.written + s.data)
    case Reload => s.(leaves := if s.saved.Some? then s.saved.value else [], data := {})
  }

  /** The answer to an operation in a state of the plain sequences. */
  ghost predicate IsRight(H: HashFn, s: PlainState, op: Op, answer: Answer) {
    match op
    case AddData(d) =>
      answer.Witnessed? && answer.w.Found? && Some(answer.w.value) == WitnessOf(H, s.leaves + [H(d)], |s.leaves|)
    case AddHash(h) =>
      answer.Witnessed? && answer.w.Found? && Some(answer.w.value) == WitnessOf(H, s.leaves + [h], |s.leaves|)
    case Ask(idx, n) =>
      && answer.Witnessed? && (answer.w.Found? <==> WitnessWithLength(H, s.leaves, idx, n).Some?)
      && (answer.w.Found? ==> Some(answer.w.value) == WitnessWithLength(H, s.leaves, idx, n))
    case Check(ws, h, n) => answer == Judged(VerifyWithLength(H, s.leaves, ws, h, n))
    case Persist => answer.Done?
    case Reload => answer == Done(true)
  }

  /** All that a run may hash, whether its flushes fail or not. */
  ghost function Hashable(H: HashFn, s: PlainState, ops: seq<Op>): (u: set<Bytes>)
    decreases |ops|
  {
    if ops == [] then Inputs(H, s.leaves) else
    Inputs(H, s.leaves) + (if ops[0].AddData? then {ops[0].data} else {})
      + Hashable(H, After(H, s, ops[0], false), ops[1..]) + Hashable(H, After(H, s, ops[0], true), ops[1..])
  }

  /** The leaf hashes given to a run are digests. */
  predicate WellSized(ops: seq<Op>) {
    forall i :: 0 <= i < |ops| && ops[i].AddHash? ==> |ops[i].hash| == HASH_SIZE
  }

  /** The accumulator is the one of the plain sequences, and u has all that it may hash from here on. */
  ghost predicate Follows(acc: Accumulator, s: PlainState, ops: seq<Op>, u: set<Bytes>)
    reads acc, acc.bucket
  {
    && acc.Valid() && acc.leaves == s.leaves && acc.data == s.data && acc.Saved(s.saved)
    && AllWritten(acc.H, acc.bucket.data, s.written)
    && acc.Known(u) && Hashable(acc.H, s, ops) <= u
  }

  /** All these bytes are in the bucket under their hashes. */
  ghost predicate AllWritten(H: HashFn, store: Store, xs: set<Bytes>) {
    forall x :: x in xs ==> Written(H, store, x)
  }

  /** Written bytes stay, as only the state is ever replaced. */
  lemma {:induction false} AllWrittenStay(H: HashFn, store: Store, store': Store, key: Bytes, xs: set<Bytes>)
    requires AllWritten(H, store, xs) && NotADigest(H, key)
    requires forall k :: k in store && k != key ==> k in store' && store'[k] == store[k]
    ensures AllWritten(H, store', xs)
  {
    hide NotADigest;
    forall x | x in xs ensures Written(H, store', x) { DigestIsNoKey(H, key, x); }
  }

  lemma {:induction false} HashableStep(H: HashFn, s: PlainState, ops: seq<Op>, failed: bool, u: set<Bytes>)
    requires ops != [] && Hashable(H, s, ops) <= u
    ensures var s' := After(H, s, ops[0], failed);
            && Hashable(H, s', ops[1..]) <= u && Inputs(H, s'.leaves) <= u
            && (ops[0].AddData? ==> ops[0].data in u)
  {
    hide Inputs;
  }

  /** One operation: the answer is right, and the accumulator goes on as the plain sequences do. */
  method Step(acc: Accumulator, ghost s: PlainState, op: Op, ghost rest: seq<Op>, ghost u: set<Bytes>)
    returns (answer: Answer)
    requires Follows(acc, s, [op] + rest, u) && (op.AddHash? ==> |op.hash| == HASH_SIZE)
    modifies acc, acc.bucket
    ensures IsRight(acc.H, s, op, answer)
    ensures Follows(acc, After(acc.H, s, op, answer == Done(false)), rest, u)
    ensures acc.bucket.budget <= old(acc.bucket.budget) && (answer == Done(false) ==> acc.bucket.budget == 0)
    ensures acc.bucket.budget + (if op == Persist then 2 * |s.leaves| + 1 else 0) >= old(acc.bucket.budget)
    ensures op == Persist && old(acc.bucket.budget) > 2 * |s.leaves| ==> answer == Done(true)
  {
    hide Holds, Accumulators.Held, Inputs, Addressed, NotADigest, Collides, WitnessOf, WitnessWithLength;
    hide VerifyWithLength;
    hide VerifyOutcome, Costs, StateOf, AllStored, AllDigests, Hashable, Extends, FixedSize;
    assert ([op] + rest)[0] == op && ([op] + rest)[1..] == rest;
    HashableStep(acc.H, s, [op] + rest, false, u);
    HashableStep(acc.H, s, [op] + rest, true, u);
    HoldsDigests(acc.H, acc.bucket.data, acc.roots, acc.leaves);
    match op
    case AddData(d) =>
      var w := acc.AddData(d);
      answer := Witnessed(Found(w));
    case AddHash(h) =>
      var w := acc.AddHash(h);
      answer := Witnessed(Found(w));
    case Ask(idx, n) =>
      var w := acc.WitnessForWithAccLength(idx, n);
      answer := Witnessed(w);
    case Check(ws, h, n) =>
      var o := acc.VerifyWithAccLength(ws, h, n);
      answer := Judged(o);
    case Persist =>
      var ok := acc.Flush(u);
      AllWrittenStay(acc.H, old(acc.bucket.data), acc.bucket.data, acc.key, s.written);
      if !ok { SavedExtends(acc.H, old(acc.bucket.data), acc.bucket.data, acc.key, s.saved, Plain); }
      answer := Done(ok);
    case Reload =>
      var ok := acc.Recover(if s.saved.Some? then s.saved.value else []);
      answer := Done(ok);
  }

  /** Every run on a bucket of its own, if what it may hash is free of collisions: all answers are those
      of the plain sequences, and in the end the accumulator holds exactly their leaves. Recovering
      gives the leaves of the last flush that did not fail; a flush fails only without budget. All data that
      was in memory at a flush that did not fail is in the bucket under its hash. */
  method Run(H: HashFn, key: Bytes, budget: nat, ops: seq<Op>)
    returns (acc: Accumulator, answers: seq<Answer>, ghost trace: seq<PlainState>)
    requires FixedSize(H) && NotADigest(H, key) && WellSized(ops)
    requires !Collides(H, Hashable(H, NOTHING, ops))
    ensures |answers| == |ops| && |trace| == |ops| + 1 && trace[0] == NOTHING
    ensures fresh(acc) && acc.H == H && acc.Valid() && acc.leaves == trace[|ops|].leaves
            && acc.Saved(trace[|ops|].saved)
    ensures forall x :: x in trace[|ops|].written ==> H(x) in acc.bucket.data && acc.bucket.data[H(x)] == Raw(x)
    ensures forall i :: 0 <= i < |ops| ==> IsRight(H, trace[i], ops[i], answers[i])
    ensures forall i :: 0 <= i < |ops| ==> trace[i + 1] == After(H, trace[i], ops[i], answers[i] == Done(false))
    ensures Done(false) in answers ==> acc.bucket.budget == 0
    ensures budget >= |ops| * (2 * |ops| + 1) ==> Done(false) !in answers
  {
    hide Holds, Accumulators.Held, Inputs, NotADigest, Collides, StateOf, AllStored, AllDigests, Hashable, IsRight;
    hide After;
    hide FixedSize;
    var bucket := new Bucket(budget);
    acc := new Accumulator(H, key, bucket);
    ghost var most := 2 * |ops| + 1;
    ghost var u := Hashable(H, NOTHING, ops);
    HashableNow(H, NOTHING, ops);
    answers, trace := [], [NOTHING];
    assert ops[0..] == ops;
    for i := 0 to |ops|
      invariant fresh(acc) && fresh(acc.bucket) && acc.H == H
      invariant |answers| == i && |trace| == i + 1 && trace[0] == NOTHING
      invariant Follows(acc, trace[i], ops[i..], u)
      invariant forall j :: 0 <= j < i ==> IsRight(H, trace[j], ops[j], answers[j])
      invariant forall j :: 0 <= j < i ==> trace[j + 1] == After(H, trace[j], ops[j], answers[j] == Done(false))
      invariant Done(false) in answers ==> acc.bucket.budget == 0
      invariant Within(trace[i], i)
      invariant acc.bucket.budget + i * most >= budget
      invariant budget >= |ops| * most ==> Done(false) !in answers
    {
      assert ops[i..] == [ops[i]] + ops[i + 1..];
      Afford(|ops|, i, most);
      AfterWithin(H, trace[i], ops[i], i);
      var answer := Step(acc, trace[i], ops[i], ops[i + 1..], u);
      answers, trace := answers + [answer], trace + [After(H, trace[i], ops[i], answer == Done(false))];
    }
  }

  /** What every operation may spend, as long as operations are left. */
  lemma Afford(n: nat, i: nat, most: nat)
    requires i < n
    ensures (i + 1) * most == i * most + most && (i + 1) * most <= n * most
  {
  }

  /** The plain sequences after a number of operations have at most one leaf for each. */
  predicate Within(s: PlainState, n: nat) {
    |s.leaves| <= n && (s.saved.Some? ==> |s.saved.value| <= n)
  }

  lemma AfterWithin(H: HashFn, s: PlainState, op: Op, n: nat)
    requires Within(s, n)
    ensures forall failed :: Within(After(H, s, op, failed), n + 1)
  {
  }

  lemma HashableNow(H: HashFn, s: PlainState, ops: seq<Op>)
    ensures Inputs(H, s.leaves) <= Hashable(H, s, ops)
  {
    hide Inputs;
  }
}
