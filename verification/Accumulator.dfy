/** The Merkle tree accumulator of common/mta: a binary counter of perfect trees. Its abstract value
    is the sequence of all leaf hashes added so far; every answer is a function of that sequence. */
module Accumulators {
  import opened Base
  import opened PowersOfTwo
  import opened AccumulatorBits
  import opened AccumulatorWitness
  import opened AccumulatorNode

  // ----- the invariant

  /** Root slot i of an accumulator of the leaves a: filled exactly when bit i of the length is set,
      and then with the perfect tree over its aligned block. */
  predicate SlotHolds(H: HashFn, store: Store, root: Option<Node>, a: seq<Bytes>, i: nat) {
    (root.Some? <==> Bit(|a|, i))
    && (root.Some? ==>
          SlotStart(|a|, i) + Pow2(i) <= |a| && Represents(H, store, root.value, a, SlotStart(|a|, i), i))
  }

  ghost predicate Holds(H: HashFn, store: Store, roots: seq<Option<Node>>, a: seq<Bytes>) {
    FixedSize(H) && AllDigests(a) && |roots| == BitLen(|a|)
    && forall i :: 0 <= i < |roots| ==> SlotHolds(H, store, roots[i], a, i)
  }

  /** The invariant in the middle of an insertion: the node n carries the last 2^h of the leaves a + [x],
      the slots below h have been emptied and the others are untouched. */
  ghost predicate Carries(H: HashFn, store: Store, roots: seq<Option<Node>>, a: seq<Bytes>, x: Bytes, h: nat, n: Node) {
    FixedSize(H) && AllDigests(a) && |x| == HASH_SIZE && |roots| == BitLen(|a|)
    && LowOnes(|a|, h) && Floor(|a|, h) + Pow2(h) == |a| + 1
    && Represents(H, store, n, a + [x], Floor(|a|, h), h)
    && (forall i :: 0 <= i < h && i < |roots| ==> roots[i] == None)
    && forall i :: h <= i < |roots| ==> SlotHolds(H, store, roots[i], a, i)
  }

  lemma {:induction false} SlotMoves(
      H: HashFn, store: Store, root: Option<Node>, a: seq<Bytes>, x: Bytes, h: nat, i: nat)
    requires LowOnes(|a|, h) && !Bit(|a|, h) && i > h && SlotHolds(H, store, root, a, i)
    ensures SlotHolds(H, store, root, a + [x], i)
  {
    hide Represents, Floor, Bit, LowOnes;
    var a' := a + [x];
    Increment(|a|, h, i);
    if root.Some? { RepresentsPrefix(H, store, root.value, a, a', SlotStart(|a|, i), i); }
  }

  /** Putting the carried node into an empty slot completes the insertion. */
  lemma {:induction false} CarryPlaced(
      H: HashFn, store: Store, roots: seq<Option<Node>>, a: seq<Bytes>, x: Bytes, h: nat, n: Node)
    requires Carries(H, store, roots, a, x, h, n) && !Bit(|a|, h)
    ensures h <= |roots|
    ensures var roots' := if h == |roots| then roots + [Some(n)] else roots[h := Some(n)];
            Holds(H, store, roots', a + [x])
    ensures Floor(|a|, h) + Pow2(h) <= |a| + 1
    ensures WitnessOf(H, a + [x], |a|) == Some(Witnesses(H, a + [x], |a|, h))
  {
    hide Represents, Floor, Bit, LowOnes, FixedSize, AllDigests, WitnessOf, Witnesses, SlotHolds, BitLen;
    var a' := a + [x];
    CarryWitness(H, a, x, h);
    IncrementLength(|a|, h);
    DigestsAppend(a, x);
    var roots' := if h == |roots| then roots + [Some(n)] else roots[h := Some(n)];
    forall i | 0 <= i < |roots'| ensures SlotHolds(H, store, roots'[i], a', i) {
      if i < h {
        SlotCleared(H, store, a, x, h, i);
      } else if i == h {
        SlotPlaced(H, store, a, x, h, n);
      } else {
        SlotMoves(H, store, roots[i], a, x, h, i);
      }
    }
  }

  lemma {:induction false} SlotCleared(H: HashFn, store: Store, a: seq<Bytes>, x: Bytes, h: nat, i: nat)
    requires LowOnes(|a|, h) && !Bit(|a|, h) && i < h
    ensures SlotHolds(H, store, None, a + [x], i)
  {
    hide Represents, Floor, Bit, LowOnes;
    Increment(|a|, h, i);
  }

  lemma {:induction false} SlotPlaced(H: HashFn, store: Store, a: seq<Bytes>, x: Bytes, h: nat, n: Node)
    requires LowOnes(|a|, h) && !Bit(|a|, h)
    requires Floor(|a|, h) + Pow2(h) == |a| + 1 && Represents(H, store, n, a + [x], Floor(|a|, h), h)
    ensures SlotHolds(H, store, Some(n), a + [x], h)
  {
    hide Represents, Floor, Bit, LowOnes;
    Increment(|a|, h, h);
    FloorStep(|a|, h);
  }

  lemma HoldsNothing(H: HashFn, store: Store)
    requires FixedSize(H)
    ensures Holds(H, store, [], [])
  {
  }

  lemma DigestsAppend(a: seq<Bytes>, x: Bytes)
    requires AllDigests(a) && |x| == HASH_SIZE
    ensures AllDigests(a + [x])
  {
  }

  /** The carry stops at the slot of the new leaf. */
  lemma {:induction false} CarryWitness(H: HashFn, a: seq<Bytes>, x: Bytes, h: nat)
    requires LowOnes(|a|, h) && !Bit(|a|, h)
    ensures Floor(|a|, h) + Pow2(h) <= |a| + 1
    ensures WitnessOf(H, a + [x], |a|) == Some(Witnesses(H, a + [x], |a|, h))
  {
    hide Floor, Bit, LowOnes, Slot, Witnesses;
    LowOnesFloor(|a|, h);
    Increment(|a|, h, h);
    FloorStep(|a|, h);
    FloorBounds(|a|, h);
    SlotUnique(|a| + 1, |a|, h);
  }

  /** Merging the carried node with the one in its slot carries on to the next slot. */
  lemma {:induction false} CarryMerged(
      H: HashFn, store: Store, roots: seq<Option<Node>>, a: seq<Bytes>, x: Bytes, h: nat, n: Node)
    requires Carries(H, store, roots, a, x, h, n) && h < |roots| && roots[h].Some?
    ensures var n' := BranchNode(Dirty, [], [], Touch(H, roots[h].value), n);
            Carries(H, store, roots[h := None], a, x, h + 1, n')
    ensures Floor(|a|, h + 1) + Pow2(h + 1) == |a| + 1
    ensures Witnesses(H, a + [x], |a|, h + 1)
         == Witnesses(H, a + [x], |a|, h) + [Witness(Left, HashOf(H, roots[h].value))]
  {
    hide PerfectRoot, Stored, Floor, Bit, Touch, HashOf, Witnesses, FixedSize, AllDigests, Represents, LowOnes;
    var a', root, lo := a + [x], roots[h].value, SlotStart(|a|, h);
    assert SlotHolds(H, store, roots[h], a, h);
    LowOnesStep(|a|, h);
    FloorStep(|a|, h);
    RepresentsPrefix(H, store, root, a, a', lo, h);
    TouchRepresents(H, store, root, a', lo, h);
    RepresentsHash(H, store, root, a', lo, h);
    BranchRepresents(H, store, Touch(H, root), n, a', lo, h + 1);
    WitnessesStep(H, a', |a|, h + 1);
    SiblingIsLeft(H, a', |a|, h);
  }

  lemma SiblingIsLeft(H: HashFn, a: seq<Bytes>, idx: nat, h: nat)
    requires Bit(idx, h) && 0 <= SiblingStart(idx, h) && SiblingStart(idx, h) + Pow2(h) <= |a|
    ensures SiblingStart(idx, h) == Floor(idx, h + 1)
    ensures WitnessAt(H, a, idx, h) == Witness(Left, PerfectRoot(H, a, Floor(idx, h + 1), h))
  {
    hide PerfectRoot;
    FloorStep(idx, h);
  }

  lemma {:induction false} BranchRepresents(H: HashFn, store: Store, l: Node, r: Node, a: seq<Bytes>, lo: nat, d: nat)
    requires d > 0 && lo + Pow2(d) <= |a|
    requires Represents(H, store, l, a, lo, d - 1) && Represents(H, store, r, a, lo + Pow2(d - 1), d - 1)
    ensures Represents(H, store, BranchNode(Dirty, [], [], l, r), a, lo, d)
  {
    hide PerfectRoot, Stored;
  }

  // ----- persistent state

  function RootHashes(H: HashFn, a: seq<Bytes>, n: nat): (hs: seq<Option<Bytes>>)
    ensures |hs| == n
  {
    seq(n, i requires 0 <= i < n => if Bit(|a|, i) then Some(SlotRoot(H, a, i)) else None)
  }

  /** Every branch of every root tree of the leaves a is in the bucket under its hash. */
  ghost predicate AllStored(H: HashFn, store: Store, a: seq<Bytes>) {
    forall i :: 0 <= i < BitLen(|a|) && Bit(|a|, i) ==> SlotStored(H, store, a, i)
  }

  predicate SlotStored(H: HashFn, store: Store, a: seq<Bytes>, i: nat) {
    SlotStart(|a|, i) + Pow2(i) <= |a| && Stored(H, store, a, SlotStart(|a|, i), i)
  }

  lemma {:induction false} SlotStoredExtends(H: HashFn, store: Store, store': Store, a: seq<Bytes>, i: nat)
    requires SlotStored(H, store, a, i) && Extends(store, store')
    ensures SlotStored(H, store', a, i)
  {
    hide Extends, Stored;
    StoredExtends(H, store, store', a, SlotStart(|a|, i), i);
  }

  lemma {:induction false} SlotHoldsExtends(
      H: HashFn, store: Store, store': Store, root: Option<Node>, a: seq<Bytes>, i: nat)
    requires SlotHolds(H, store, root, a, i) && Extends(store, store')
    ensures SlotHolds(H, store', root, a, i)
  {
    hide Extends, Represents, Bit, Floor;
    if root.Some? { RepresentsExtends(H, store, store', root.value, a, SlotStart(|a|, i), i); }
  }

  /** What a saved root hash turns into when it is loaded. */
  function Load(h: Option<Bytes>): (n: Option<Node>) {
    if h.Some? && |h.value| == HASH_SIZE then Some(HashNode(h.value)) else None
  }

  lemma {:induction false} LoadHolds(H: HashFn, store: Store, a: seq<Bytes>, i: nat)
    requires FixedSize(H) && AllDigests(a) && i < BitLen(|a|) && AllStored(H, store, a)
    ensures SlotHolds(H, store, Load(RootHashes(H, a, BitLen(|a|))[i]), a, i)
  {
    hide FixedSize, AllDigests, Stored, Floor, Bit, PerfectRoot;
    if Bit(|a|, i) {
      assert SlotStored(H, store, a, i);
      PerfectRootSize(H, a, SlotStart(|a|, i), i);
    }
  }

  /** Loading every saved root hash gives root slots that hold the leaves again. */
  lemma {:induction false} LoadAllHolds(H: HashFn, store: Store, a: seq<Bytes>, roots: seq<Option<Node>>)
    requires FixedSize(H) && AllDigests(a) && AllStored(H, store, a)
    requires var hs := RootHashes(H, a, BitLen(|a|));
             |roots| == |hs| && forall i :: 0 <= i < |hs| ==> roots[i] == Load(hs[i])
    ensures Holds(H, store, roots, a)
  {
    hide SlotHolds, AllStored, RootHashes, Load, BitLen;
    forall i | 0 <= i < |roots| ensures SlotHolds(H, store, roots[i], a, i) { LoadHolds(H, store, a, i); }
  }

  /** What the state entry of an accumulator looks like: with or without an offset. */
  datatype Format = Plain | WithOffset(offset: int, limitRoots: int)

  function StateOf(H: HashFn, a: seq<Bytes>, f: Format): (e: Entry) {
    var hashes := RootHashes(H, a, BitLen(|a|));
    match f
    case Plain => State(hashes, |a|)
    case WithOffset(offset, limitRoots) => ExtState(|a| + offset, hashes, offset, limitRoots)
  }

  /** The key holds the state of the leaves that were saved, all of whose branches are in the bucket;
      without saved leaves there is no such entry. */
  ghost predicate SavedAs(H: HashFn, store: Store, key: Bytes, saved: Option<seq<Bytes>>, f: Format) {
    match saved
    case None => key !in store
    case Some(a) => AllDigests(a) && AllStored(H, store, a) && key in store && store[key] == StateOf(H, a, f)
  }

  lemma {:induction false} SavedExtends(
      H: HashFn, store: Store, store': Store, key: Bytes, saved: Option<seq<Bytes>>, f: Format)
    requires SavedAs(H, store, key, saved, f) && Extends(store, store') && (key in store' ==> key in store)
    ensures SavedAs(H, store', key, saved, f)
  {
    hide SlotStored, AllDigests, BitLen, Bit, StateOf;
    if saved.Some? { AllStoredBelow(H, store, store', saved.value, BitLen(|saved.value|)); }
  }

  /** All that hashing the root trees of the leaves a gives to the hash function. */
  ghost function Inputs(H: HashFn, a: seq<Bytes>): (s: set<Bytes>) {
    set i: nat, x: Bytes | i < BitLen(|a|) && Bit(|a|, i) && x in SlotInputs(H, a, i) :: x
  }

  function SlotInputs(H: HashFn, a: seq<Bytes>, i: nat): (s: set<Bytes>)
    requires Bit(|a|, i)
  {
    SlotStartBounds(|a|, i);
    PerfectInputs(H, a, SlotStart(|a|, i), i)
  }

  /** The data that the root slots hold in memory. */
  ghost function Held(roots: seq<Option<Node>>): (s: set<Bytes>) {
    set i: nat, x: Bytes | i < |roots| && x in SlotData(roots[i]) :: x
  }

  function SlotData(root: Option<Node>): (s: set<Bytes>) {
    if root.Some? then Data(root.value) else {}
  }

  lemma {:induction false} HeldReplaced(roots: seq<Option<Node>>, h: nat, root: Option<Node>)
    requires h < |roots|
    ensures SlotData(root) == SlotData(roots[h]) ==> Held(roots[h := root]) == Held(roots)
    ensures SlotData(roots[h]) == {} ==> Held(roots[h := root]) == Held(roots) + SlotData(root)
    ensures Held(roots[h := root]) + SlotData(roots[h]) == Held(roots) + SlotData(root)
  {
    hide SlotData;
    var roots' := roots[h := root];
    HeldSlot(roots, h);
    HeldSlot(roots', h);
    forall x | x in Held(roots) ensures x in Held(roots') || x in SlotData(roots[h]) {
      var i: nat :| i < |roots| && x in SlotData(roots[i]);
      if i != h { HeldSlot(roots', i); }
    }
    forall x | x in Held(roots') ensures x in Held(roots) || x in SlotData(root) {
      var i: nat :| i < |roots'| && x in SlotData(roots'[i]);
      if i != h { HeldSlot(roots, i); }
    }
  }

  lemma HeldSlot(roots: seq<Option<Node>>, i: nat)
    requires i < |roots|
    ensures SlotData(roots[i]) <= Held(roots)
  {
    hide SlotData;
  }

  lemma {:induction false} HeldAppended(roots: seq<Option<Node>>, root: Option<Node>)
    ensures Held(roots + [root]) == Held(roots) + SlotData(root)
  {
    hide SlotData;
    var roots' := roots + [root];
    HeldSlot(roots', |roots|);
    forall x | x in Held(roots) ensures x in Held(roots') {
      var i: nat :| i < |roots| && x in SlotData(roots[i]);
      HeldSlot(roots', i);
    }
    forall x | x in Held(roots') ensures x in Held(roots) || x in SlotData(root) {
      var i: nat :| i < |roots'| && x in SlotData(roots'[i]);
      if i < |roots| { HeldSlot(roots, i); }
    }
  }

  lemma {:induction false} HeldNone(roots: seq<Option<Node>>)
    requires forall i :: 0 <= i < |roots| && roots[i].Some? ==> roots[i].value.HashNode?
    ensures Held(roots) == {}
  {
  }

  /** Every filled slot has a hash. */
  ghost predicate SlotsHashed(H: HashFn, roots: seq<Option<Node>>) {
    forall i :: 0 <= i < |roots| && roots[i].Some? ==> HashOf(H, roots[i].value) != []
  }

  lemma {:induction false} HoldsHashed(H: HashFn, store: Store, roots: seq<Option<Node>>, a: seq<Bytes>)
    requires Holds(H, store, roots, a)
    ensures SlotsHashed(H, roots)
  {
    hide Represents, Bit, Floor, HashOf, PerfectRoot, FixedSize, AllDigests, BitLen;
    forall i | 0 <= i < |roots| && roots[i].Some? ensures HashOf(H, roots[i].value) != [] {
      assert SlotHolds(H, store, roots[i], a, i);
      RepresentsHash(H, store, roots[i].value, a, SlotStart(|a|, i), i);
      PerfectRootSize(H, a, SlotStart(|a|, i), i);
    }
  }

  /** An insertion adds the data of the new node to what is held and loses none. */
  lemma {:induction false} InsertData(H: HashFn, roots: seq<Option<Node>>, h: nat, n: Node, w: seq<Witness>)
    requires SlotsHashed(H, roots)
    ensures Held(Insert(H, roots, h, n, w).0) == Held(roots) + Data(n)
    decreases |roots| - h
  {
    hide Touch, HashOf, Data, Held;
    if h >= |roots| {
      HeldAppended(roots, Some(n));
    } else if roots[h].None? {
      HeldReplaced(roots, h, Some(n));
    } else {
      var root := roots[h].value;
      TouchData(H, root);
      BranchData(Touch(H, root), n);
      HeldReplaced(roots, h, None);
      InsertData(H, roots[h := None], h + 1, BranchNode(Dirty, [], [], Touch(H, root), n),
                 w + [Witness(Left, HashOf(H, root))]);
    }
  }

  lemma BranchData(l: Node, r: Node)
    ensures Data(BranchNode(Dirty, [], [], l, r)) == Data(l) + Data(r)
  {
  }

  /** All that flushing may write is data that has been added and inputs of the root trees. */
  lemma {:induction false} WritesWithin(
      H: HashFn, store: Store, roots: seq<Option<Node>>, a: seq<Bytes>, u: set<Bytes>)
    requires Holds(H, store, roots, a) && Held(roots) <= u && Inputs(H, a) <= u
    ensures WritesKnown(H, roots, 0, u)
  {
    hide Represents, Bit, Floor, FixedSize, AllDigests, Writes, Data, PerfectInputs, BitLen;
    forall i | 0 <= i < |roots| && roots[i].Some? ensures Writes(H, roots[i].value) <= u {
      assert SlotHolds(H, store, roots[i], a, i);
      HeldSlot(roots, i);
      RepresentsWrites(H, store, roots[i].value, a, SlotStart(|a|, i), i);
      forall x | x in SlotInputs(H, a, i) ensures x in u { assert x in Inputs(H, a); }
    }
  }

  /** The number of writes that flushing the first n root slots takes. */
  function Costs(roots: seq<Option<Node>>, n: nat): (c: nat)
    requires n <= |roots|
  {
    if n == 0 then 0 else Costs(roots, n - 1) + if roots[n - 1].Some? then Cost(roots[n - 1].value) else 0
  }

  lemma {:induction false} CostsMonotone(roots: seq<Option<Node>>, i: nat, n: nat)
    requires i <= n <= |roots|
    ensures Costs(roots, i) <= Costs(roots, n)
    decreases n
  {
    hide Cost;
    if i < n { CostsMonotone(roots, i, n - 1); }
  }

  /** Twice the number of leaves is always enough. */
  lemma {:induction false} CostsBound(H: HashFn, store: Store, roots: seq<Option<Node>>, a: seq<Bytes>, n: nat)
    requires Holds(H, store, roots, a) && n <= |roots|
    ensures Floor(|a|, n) <= |a| && Costs(roots, n) <= 2 * (|a| - Floor(|a|, n))
  {
    hide Represents, Bit, Floor, FixedSize, AllDigests, Cost, BitLen;
    FloorBounds(|a|, n);
    if n > 0 {
      CostsBound(H, store, roots, a, n - 1);
      FloorStep(|a|, n - 1);
      assert SlotHolds(H, store, roots[n - 1], a, n - 1);
      if roots[n - 1].Some? { CostBound(H, store, roots[n - 1].value, a, SlotStart(|a|, n - 1), n - 1); }
    }
  }

  lemma {:induction false} CostsOfAll(H: HashFn, store: Store, roots: seq<Option<Node>>, a: seq<Bytes>)
    requires Holds(H, store, roots, a)
    ensures Costs(roots, |roots|) <= 2 * |a|
  {
    hide Holds, Costs, Floor, BitLen;
    HoldsLength(H, store, roots, a);
    CostsBound(H, store, roots, a, |roots|);
    FloorTop(|a|);
  }

  /** The bytes that flushing the slots from a given one on may write are known. */
  ghost predicate WritesKnown(H: HashFn, roots: seq<Option<Node>>, from: nat, u: set<Bytes>) {
    forall i :: from <= i < |roots| && roots[i].Some? ==> Writes(H, roots[i].value) <= u
  }

  lemma {:induction false} AllStoredBelow(H: HashFn, store: Store, store': Store, a: seq<Bytes>, i: nat)
    requires (forall j :: 0 <= j < i && Bit(|a|, j) ==> SlotStored(H, store, a, j)) && Extends(store, store')
    ensures forall j :: 0 <= j < i && Bit(|a|, j) ==> SlotStored(H, store', a, j)
  {
    hide SlotStored, Extends;
    forall j | 0 <= j < i && Bit(|a|, j) ensures SlotStored(H, store', a, j) {
      SlotStoredExtends(H, store, store', a, j);
    }
  }

  lemma {:induction false} HoldsExtends(H: HashFn, store: Store, store': Store, roots: seq<Option<Node>>, a: seq<Bytes>)
    requires Holds(H, store, roots, a) && Extends(store, store')
    ensures Holds(H, store', roots, a)
  {
    hide SlotHolds, Extends, FixedSize, AllDigests, BitLen;
    forall i | 0 <= i < |roots| ensures SlotHolds(H, store', roots[i], a, i) {
      SlotHoldsExtends(H, store, store', roots[i], a, i);
    }
  }

  /** When nothing is left to be written, all data held is in the bucket under its hash. */
  lemma {:induction false} HeldWritten(H: HashFn, store: Store, roots: seq<Option<Node>>, a: seq<Bytes>)
    requires Holds(H, store, roots, a) && forall i :: 0 <= i < |roots| && roots[i].Some? ==> Clean(roots[i].value)
    ensures forall x :: x in Held(roots) ==> Written(H, store, x)
  {
    hide Represents, Bit, Floor, FixedSize, AllDigests, BitLen, Data, Written, Clean;
    forall x | x in Held(roots) ensures Written(H, store, x) {
      var i: nat :| i < |roots| && x in SlotData(roots[i]);
      assert SlotHolds(H, store, roots[i], a, i);
      CleanWritten(H, store, roots[i].value, a, SlotStart(|a|, i), i);
    }
  }

  /** The state is not the data of a leaf. */
  lemma WrittenBeside(H: HashFn, store: Store, key: Bytes, e: Entry, data: set<Bytes>)
    requires NotADigest(H, key) && forall x :: x in data ==> Written(H, store, x)
    ensures forall x :: x in data ==> Written(H, store[key := e], x)
  {
    hide NotADigest;
    forall x | x in data ensures Written(H, store[key := e], x) { DigestIsNoKey(H, key, x); }
  }

  /** Flushing one root slot. */
  lemma {:induction false} FlushSlot(
      H: HashFn, store: Store, roots: seq<Option<Node>>, a: seq<Bytes>, i: nat, budget: nat, key: Bytes, u: set<Bytes>)
    requires Holds(H, store, roots, a) && i < |roots| && roots[i].Some? && Writes(H, roots[i].value) <= u
    requires Addressed(H, store, key, u) && NotADigest(H, key) && !Collides(H, u)
    ensures Bit(|a|, i)
    ensures var f := Flush(H, roots[i].value, store, budget);
            && Holds(H, f.store, roots[i := Some(f.node)], a)
            && Extends(store, f.store) && Addressed(H, f.store, key, u) && (key in f.store ==> key in store)
            && (f.ok ==> SlotStored(H, f.store, a, i) && HashOf(H, f.node) == SlotRoot(H, a, i) && Clean(f.node))
  {
    hide Represents, Bit, Floor, FixedSize, AllDigests, Writes, Addressed, NotADigest, Collides, Extends, Flush;
    hide HashOf, Stored, PerfectRoot, Holds;
    SlotHeld(H, store, roots, a, i);
    var lo := SlotStart(|a|, i);
    var f := Flush(H, roots[i].value, store, budget);
    FlushRepresents(H, roots[i].value, store, budget, a, lo, i, key, u);
    HoldsExtends(H, store, f.store, roots, a);
    HoldsReplaced(H, f.store, roots, a, i, f.node);
  }

  lemma SlotHeld(H: HashFn, store: Store, roots: seq<Option<Node>>, a: seq<Bytes>, i: nat)
    requires Holds(H, store, roots, a) && i < |roots|
    ensures SlotHolds(H, store, roots[i], a, i) && |roots| == BitLen(|a|)
  {
  }

  /** The state entry is not a node entry: writing it changes no stored block. */
  lemma {:induction false} StateEntry(H: HashFn, store: Store, key: Bytes, e: Entry, a: seq<Bytes>, lo: nat, d: nat)
    requires lo + Pow2(d) <= |a| && Stored(H, store, a, lo, d) && NotADigest(H, key)
    ensures Stored(H, store[key := e], a, lo, d)
    decreases d
  {
    hide NotADigest;
    if d > 0 {
      DigestIsNoKey(H, key, PerfectRoot(H, a, lo, d - 1) + PerfectRoot(H, a, lo + Pow2(d - 1), d - 1));
      StateEntry(H, store, key, e, a, lo, d - 1);
      StateEntry(H, store, key, e, a, lo + Pow2(d - 1), d - 1);
    }
  }

  lemma DigestIsNoKey(H: HashFn, key: Bytes, x: Bytes)
    requires NotADigest(H, key)
    ensures H(x) != key
  {
  }

  lemma {:induction false} StateRepresents(
      H: HashFn, store: Store, key: Bytes, e: Entry, n: Node, a: seq<Bytes>, lo: nat, d: nat)
    requires lo + Pow2(d) <= |a| && Represents(H, store, n, a, lo, d) && NotADigest(H, key)
    ensures Represents(H, store[key := e], n, a, lo, d)
    decreases n
  {
    hide NotADigest, PerfectRoot, Stored;
    if n.BranchNode? {
      if n.state == Flushed { StateEntry(H, store, key, e, a, lo, d); }
      StateRepresents(H, store, key, e, n.left, a, lo, d - 1);
      StateRepresents(H, store, key, e, n.right, a, lo + Pow2(d - 1), d - 1);
    } else if n.HashNode? {
      StateEntry(H, store, key, e, a, lo, d);
    } else {
      DigestIsNoKey(H, key, n.data);
    }
  }

  lemma {:induction false} StateHolds(
      H: HashFn, store: Store, key: Bytes, e: Entry, roots: seq<Option<Node>>, a: seq<Bytes>)
    requires Holds(H, store, roots, a) && AllStored(H, store, a) && NotADigest(H, key)
    ensures Holds(H, store[key := e], roots, a) && AllStored(H, store[key := e], a)
  {
    hide Represents, Stored, NotADigest, FixedSize, AllDigests, Bit, Floor;
    var store' := store[key := e];
    forall i | 0 <= i < |roots| ensures SlotHolds(H, store', roots[i], a, i) {
      assert SlotHolds(H, store, roots[i], a, i);
      if roots[i].Some? { StateRepresents(H, store, key, e, roots[i].value, a, SlotStart(|a|, i), i); }
    }
    forall i | 0 <= i < BitLen(|a|) && Bit(|a|, i) ensures SlotStored(H, store', a, i) {
      assert SlotStored(H, store, a, i);
      StateEntry(H, store, key, e, a, SlotStart(|a|, i), i);
    }
  }

  class Bucket {
    var data: Store
    /** The number of writes that will still succeed. */
    var budget: nat

    constructor (budget: nat)
      ensures data == map[] && this.budget == budget
    {
      data := map[];
      this.budget := budget;
    }
  }

  /** Copies bytes into a buffer in place; what does not fit is cut off. */
  method Copy(buffer: array<Byte>, at: nat, x: Bytes)
    requires at <= buffer.Length
    modifies buffer
    ensures buffer[..] == Copied(old(buffer[..]), at, x)
  {
    var n := if |x| <= buffer.Length - at then |x| else buffer.Length - at;
    forall i | 0 <= i < n { buffer[at + i] := x[i]; }
  }

  class Accumulator {
    const H: HashFn
    const key: Bytes
    const bucket: Bucket
    var roots: seq<Option<Node>>
    var length: int
    ghost var leaves: seq<Bytes>
    /** The data held in memory. */
    ghost var data: set<Bytes>

    ghost predicate Valid()
      reads this, bucket
    {
      length == |leaves| && Holds(H, bucket.data, roots, leaves) && data == Held(roots)
    }

    /** The bucket holds the state of these leaves for this accumulator, or no state. */
    ghost predicate Saved(saved: Option<seq<Bytes>>)
      reads bucket
    {
      SavedAs(H, bucket.data, key, saved, Plain)
    }

    /** What flushing may rely on: u is free of collisions and has all that was ever stored, the data held,
        and all that the root trees hash. */
    ghost predicate Known(u: set<Bytes>)
      reads this, bucket
    {
      && Addressed(H, bucket.data, key, u) && NotADigest(H, key) && !Collides(H, u)
      && data <= u && Inputs(H, leaves) <= u
    }

    constructor (H: HashFn, key: Bytes, bucket: Bucket)
      requires FixedSize(H)
      ensures Valid() && leaves == [] && data == {}
      ensures this.H == H && this.key == key && this.bucket == bucket
    {
      this.H, this.key, this.bucket := H, key, bucket;
      roots, length, leaves, data := [], 0, [], {};
    }

    /** Inserts a node at slot h, merging it with filled slots on the way up. */
    method AddNodeAt(h: nat, n: Node, w: seq<Witness>) returns (w': seq<Witness>)
      modifies this`roots, this`length
      ensures (roots, w') == Insert(H, old(roots), h, n, w) && length == old(length) + 1
      decreases |roots| - h
    {
      if h >= |roots| {
        roots, length := roots + [Some(n)], length + 1;
        return w;
      }
      var root := roots[h];
      if root.None? || HashOf(H, root.value) == [] {
        roots, length := roots[h := Some(n)], length + 1;
        return w;
      }
      roots := roots[h := None];
      var merged := BranchNode(Dirty, [], [], Touch(H, root.value), n);
      w' := AddNodeAt(h + 1, merged, w + [Witness(Left, HashOf(H, root.value))]);
    }

    /** Adds a leaf hash. The witness returned is the one of the new leaf. */
    method AddHash(h: Bytes) returns (w: seq<Witness>)
      requires Valid() && |h| == HASH_SIZE
      modifies this
      ensures Valid() && leaves == old(leaves) + [h] && data == old(data)
      ensures Some(w) == WitnessOf(H, leaves, |leaves| - 1)
      ensures VerifyOutcome(H, leaves, w, h) == Accepted
    {
      hide Holds, Insert, WitnessOf, VerifyOutcome, Held, SlotsHashed;
      InsertHolds(H, bucket.data, roots, leaves, h, HashNode(h));
      HoldsHashed(H, bucket.data, roots, leaves);
      InsertData(H, roots, 0, HashNode(h), []);
      w := AddNodeAt(0, HashNode(h), []);
      leaves := leaves + [h];
    }

    /** Adds a leaf with its data; its hash is the hash of the data. */
    method AddData(d: Bytes) returns (w: seq<Witness>)
      requires Valid()
      modifies this
      ensures Valid() && leaves == old(leaves) + [H(d)] && data == old(data) + {d}
      ensures Some(w) == WitnessOf(H, leaves, |leaves| - 1)
      ensures VerifyOutcome(H, leaves, w, H(d)) == Accepted
    {
      hide Holds, Insert, WitnessOf, VerifyOutcome, Held, SlotsHashed;
      HoldsDigest(H, bucket.data, roots, leaves, d);
      InsertHolds(H, bucket.data, roots, leaves, H(d), DataNode(Dirty, [], d));
      HoldsHashed(H, bucket.data, roots, leaves);
      InsertData(H, roots, 0, DataNode(Dirty, [], d), []);
      w := AddNodeAt(0, DataNode(Dirty, [], d), []);
      leaves, data := leaves + [H(d)], data + {d};
    }

    /** The search that WitnessFor and GetNode share: the slot of a leaf and its position there. */
    method Locate(idx: int) returns (slot: int, i: int)
      requires Valid()
      ensures slot == if idx >= length || length == 0 then -1 else Slot(length, if idx < 0 then 0 else idx)
      ensures slot >= 0 ==> i == if idx < 0 then idx else idx - SlotStart(length, slot)
    {
      hide Slot, Floor, Bit, Represents, FixedSize, AllDigests;
      i := idx;
      if idx >= length { return -1, i; }
      var offset := |roots|;
      FloorTop(length);
      if length > 0 { TopBit(length); }
      while offset > 0
        invariant 0 <= offset <= |roots|
        invariant idx < 0 ==> offset == |roots| && i == idx
        invariant idx >= 0 ==> i == idx - Floor(length, offset) && i >= 0
      {
        offset := offset - 1;
        assert SlotHolds(H, bucket.data, roots[offset], leaves, offset);
        DepthStep(idx, length, offset);
        if roots[offset].None? { continue; }
        var inbound := Pow2(offset);
        if i < inbound {
          if idx < 0 { FirstLeafSlot(length); }
          return offset, i;
        }
        i := i - inbound;
      }
      FloorZero(length);
      slot := -1;
    }

    method WitnessFor(idx: int) returns (w: Found<seq<Witness>>)
      requires Valid()
      modifies this`roots
      ensures Valid()
      ensures w == match WitnessOf(H, leaves, idx) case None => NotFound case Some(ws) => Found(ws)
    {
      hide Holds, WitnessOf, AccumulatorNode.WitnessFor, Slot, Floor, Data, Held;
      NoLeaf(H, leaves, idx);
      var slot, i := Locate(idx);
      if slot < 0 { return NotFound; }
      SlotWitness(H, bucket.data, roots, leaves, idx, slot, i);
      WitnessForData(H, bucket.data, roots[slot].value, slot, i);
      var (n, r) := AccumulatorNode.WitnessFor(H, bucket.data, roots[slot].value, slot, i);
      HeldReplaced(roots, slot, Some(n));
      roots := roots[slot := Some(n)];
      w := Found(r.value);
    }

    /** The node of a leaf carries the hash of the leaf. */
    method GetNode(idx: int) returns (n: Found<Node>)
      requires Valid()
      ensures idx >= length || length == 0 ==> n == NotFound
      ensures idx < length && length > 0 ==> n.Found? && HashOf(H, n.value) == leaves[if idx < 0 then 0 else idx]
    {
      hide Holds, WitnessOf, AccumulatorNode.WitnessFor, AccumulatorNode.GetNode, Slot, Floor;
      var slot, i := Locate(idx);
      if slot < 0 { return NotFound; }
      SlotNode(H, bucket.data, roots, leaves, idx, slot, i);
      n := Found(AccumulatorNode.GetNode(bucket.data, roots[slot].value, slot, i).value);
    }

    /** The witness of a leaf cut to the slot it had at an earlier length. */
    method WitnessForWithAccLength(idx: int, accLength: int) returns (w: Found<seq<Witness>>)
      requires Valid()
      modifies this`roots
      ensures Valid()
      ensures w.Found? <==> WitnessWithLength(H, leaves, idx, accLength).Some?
      ensures w.Found? ==> WitnessWithLength(H, leaves, idx, accLength) == Some(w.value)
      ensures 0 <= idx < accLength <= length ==> w.Found? && Some(w.value) == WitnessOf(H, leaves[..accLength], idx)
    {
      hide Holds, WitnessOf, DepthOf;
      if 0 <= idx < accLength <= length {
        HistoricalWitness(H, leaves, idx, accLength);
        HistoricalWitness(H, leaves[..accLength], idx, accLength);
      }
      w := WitnessFor(idx);
      if w.NotFound? { return; }
      var depth := GetDepthByHeightAndAccLength(idx, accLength);
      if depth > |w.value| { return OutOfBounds; }
      w := Found(w.value[..depth]);
    }

    method Verify(ws: seq<Witness>, h: Bytes) returns (o: Outcome)
      requires Valid()
      ensures o == VerifyOutcome(H, leaves, ws, h)
    {
      hide Represents, Bit, Floor, FixedSize, AllDigests, PerfectRoot, HashOf, Copied, Held;
      var buffer := new Byte[BUFFER_SIZE](_ => 0);
      assert buffer[..] == seq(BUFFER_SIZE, _ => 0);
      var x := h;
      var height := 0;
      for i := 0 to |ws|
        invariant height == i && (buffer[..], x) == FoldBuffer(H, ws, h, i)
      {
        if ws[i].direction == Left {
          Copy(buffer, 0, ws[i].hash);
          Copy(buffer, HASH_SIZE, x);
        } else {
          Copy(buffer, 0, x);
          Copy(buffer, HASH_SIZE, ws[i].hash);
        }
        x := H(buffer[..]);
        height := height + 1;
      }
      if height >= |roots| { return NewerWitness; }
      assert SlotHolds(H, bucket.data, roots[height], leaves, height);
      if roots[height].None? { return NoRoot; }
      RepresentsHash(H, bucket.data, roots[height].value, leaves, SlotStart(length, height), height);
      if HashOf(H, roots[height].value) != x { return NotMatched; }
      o := Accepted;
    }

    method VerifyWithAccLength(ws: seq<Witness>, h: Bytes, accLength: int) returns (o: Outcome)
      requires Valid()
      modifies this`roots
      ensures Valid()
      ensures o == VerifyWithLength(H, leaves, ws, h, accLength)
    {
      hide Holds, WitnessOf, HeightOf, VerifyOutcome;
      if length == accLength {
        o := Verify(ws, h);
        return;
      }
      var height := GetHeightFromWitness(ws, accLength);
      if height >= length { return NewerNode; }
      if length > accLength {
        var nws := WitnessFor(height);
        if nws.NotFound? { return Unresolved; }
        if |ws| > |nws.value| { return Panicked; }
        var merged := nws.value;
        for i := 0 to |ws|
          invariant |merged| == |nws.value|
          invariant merged[..i] == ws[..i] && merged[i..] == nws.value[i..]
        {
          merged := merged[i := ws[i]];
        }
        assert merged == ws + nws.value[|ws|..];
        o := Verify(merged, h);
      } else {
        var depth := SlotAsIfFull(height);
        if depth > |ws| { return Panicked; }
        o := Verify(ws[..depth], h);
      }
    }

    /** Flushes one root slot. */
    method FlushRoot(i: nat, ghost u: set<Bytes>) returns (ok: bool)
      requires Valid() && i < |roots| && roots[i].Some? && Writes(H, roots[i].value) <= u
      requires Addressed(H, bucket.data, key, u) && NotADigest(H, key) && !Collides(H, u)
      modifies this`roots, bucket
      ensures Valid() && Addressed(H, bucket.data, key, u) && Extends(old(bucket.data), bucket.data)
      ensures key in bucket.data ==> key in old(bucket.data)
      ensures |roots| == |old(roots)| && roots[i].Some? && roots == old(roots)[i := roots[i]] && Bit(|leaves|, i)
      ensures ok <==> old(bucket.budget) >= Cost(old(roots)[i].value)
      ensures bucket.budget == if ok then old(bucket.budget) - Cost(old(roots)[i].value) else 0
      ensures ok ==> SlotStored(H, bucket.data, leaves, i) && HashOf(H, roots[i].value) == SlotRoot(H, leaves, i)
      ensures ok ==> Clean(roots[i].value)
    {
      hide Holds, SlotHolds, SlotStored, Addressed, NotADigest, Collides, Extends, Writes, AccumulatorNode.Flush;
      hide HashOf, Bit, SlotRoot, Cost, Data, Held, Clean;
      FlushSlot(H, bucket.data, roots, leaves, i, bucket.budget, key, u);
      FlushCost(H, roots[i].value, bucket.data, bucket.budget);
      FlushData(H, roots[i].value, bucket.data, bucket.budget);
      var f := AccumulatorNode.Flush(H, roots[i].value, bucket.data, bucket.budget);
      HeldReplaced(roots, i, Some(f.node));
      roots := roots[i := Some(f.node)];
      bucket.data, bucket.budget := f.store, f.budget;
      ok := f.ok;
    }

    /** Flushes every root slot and collects the root hashes; stops at the first failed write. */
    method FlushRoots(ghost u: set<Bytes>) returns (ok: bool, hashes: seq<Option<Bytes>>)
      requires Valid() && Known(u)
      modifies this`roots, bucket
      ensures Valid() && Known(u) && Extends(old(bucket.data), bucket.data)
      ensures key in bucket.data ==> key in old(bucket.data)
      ensures ok <==> old(bucket.budget) >= Costs(old(roots), |old(roots)|)
      ensures bucket.budget == if ok then old(bucket.budget) - Costs(old(roots), |old(roots)|) else 0
      ensures ok ==> AllStored(H, bucket.data, leaves) && hashes == RootHashes(H, leaves, BitLen(length))
      ensures ok ==> forall x :: x in data ==> Written(H, bucket.data, x)
    {
      hide Holds, SlotHolds, SlotStored, Addressed, NotADigest, Collides, Extends, Writes, AccumulatorNode.Flush;
      hide HashOf, Bit, SlotRoot, Cost, Inputs, Held, Clean, Written;
      hashes := [];
      SelfExtends(bucket.data);
      HoldsLength(H, bucket.data, roots, leaves);
      WritesWithin(H, bucket.data, roots, leaves, u);
      var n := |roots|;
      for i := 0 to n
        invariant n == |roots| == |old(roots)| == BitLen(length) && |hashes| == i
        invariant Valid() && WritesKnown(H, roots, i, u)
        invariant Extends(old(bucket.data), bucket.data) && Addressed(H, bucket.data, key, u)
        invariant key in bucket.data ==> key in old(bucket.data)
        invariant forall j :: i <= j < n ==> roots[j] == old(roots)[j]
        invariant bucket.budget + Costs(old(roots), i) == old(bucket.budget)
        invariant forall j :: 0 <= j < i && Bit(length, j) ==> SlotStored(H, bucket.data, leaves, j)
        invariant forall j :: 0 <= j < i ==> hashes[j] == RootHashes(H, leaves, BitLen(length))[j]
        invariant forall j :: 0 <= j < i && roots[j].Some? ==> Clean(roots[j].value)
      {
        SlotFilledBit(H, bucket.data, roots, leaves, i);
        CostsMonotone(old(roots), i + 1, n);
        if roots[i].None? {
          hashes := hashes + [None];
          continue;
        }
        ghost var before := bucket.data;
        ok := FlushRoot(i, u);
        ExtendsTransitive(old(bucket.data), before, bucket.data);
        AllStoredBelow(H, before, bucket.data, leaves, i);
        if !ok { return; }
        hashes := hashes + [Some(HashOf(H, roots[i].value))];
      }
      HeldWritten(H, bucket.data, roots, leaves);
      ok := true;
    }

    /** Writes the whole accumulator to the bucket. It fails only when a write fails; then nothing that
        was in the bucket is lost, the state saved before is still there and the accumulator still
        answers as before. */
    method Flush(ghost u: set<Bytes>) returns (ok: bool)
      requires Valid() && Known(u)
      modifies this`roots, bucket
      ensures Valid() && Known(u)
      ensures ok <==> old(bucket.budget) > Costs(old(roots), |old(roots)|)
      ensures bucket.budget == if ok then old(bucket.budget) - Costs(old(roots), |old(roots)|) - 1 else 0
      ensures old(bucket.budget) > 2 * length ==> ok
      ensures bucket.budget + 2 * length + 1 >= old(bucket.budget)
      ensures forall k :: k in old(bucket.data) && k != key ==>
                k in bucket.data && bucket.data[k] == old(bucket.data)[k]
      ensures ok ==> Saved(Some(leaves)) && forall x :: x in data ==> Written(H, bucket.data, x)
      ensures !ok ==> Extends(old(bucket.data), bucket.data) && (key in bucket.data ==> key in old(bucket.data))
    {
      hide Holds, AllStored, NotADigest, Collides, RootHashes, WritesKnown, Costs, Held, Inputs, AllDigests, Written;
      CostsOfAll(H, bucket.data, roots, leaves);
      HoldsDigests(H, bucket.data, roots, leaves);
      var hashes;
      ok, hashes := FlushRoots(u);
      if !ok { return; }
      if bucket.budget == 0 { return false; }
      StateHolds(H, bucket.data, key, State(hashes, length), roots, leaves);
      WrittenBeside(H, bucket.data, key, State(hashes, length), data);
      bucket.data, bucket.budget := bucket.data[key := State(hashes, length)], bucket.budget - 1;
    }

    /** Reloads the root slots from saved root hashes. */
    method LoadRoots(hashes: seq<Option<Bytes>>)
      modifies this`roots
      ensures |roots| == |hashes| && forall i :: 0 <= i < |hashes| ==> roots[i] == Load(hashes[i])
    {
      roots := [];
      for i := 0 to |hashes|
        invariant |roots| == i && forall j :: 0 <= j < i ==> roots[j] == Load(hashes[j])
      {
        var hv := hashes[i];
        if hv.None? || |hv.value| != HASH_SIZE {
          roots := roots + [None];
        } else {
          roots := roots + [Some(HashNode(hv.value))];
        }
      }
    }

    /** Reads the accumulator back from the bucket. If the bucket holds the saved state of some leaves,
        this accumulator then is the accumulator of exactly those leaves. */
    method Recover(ghost saved: seq<Bytes>) returns (ok: bool)
      modifies this
      ensures ok ==> data == {}
      ensures key !in bucket.data ==> ok && leaves == [] && length == 0 && roots == [] && (FixedSize(H) ==> Valid())
      ensures key in bucket.data ==> (ok <==> bucket.data[key].State?)
      ensures !ok ==> unchanged(this)
      ensures FixedSize(H) && Saved(Some(saved)) ==> ok && Valid() && leaves == saved
    {
      hide AllStored, FixedSize, AllDigests, RootHashes, BitLen;
      if key !in bucket.data {
        roots, length, leaves, data := [], 0, [], {};
        if FixedSize(H) { HoldsNothing(H, bucket.data); }
        return true;
      }
      if !bucket.data[key].State? { return false; }
      LoadRoots(bucket.data[key].roots);
      length, leaves, data := bucket.data[key].length, saved, {};
      HeldNone(roots);
      if FixedSize(H) && Saved(Some(saved)) {
        LoadAllHolds(H, bucket.data, saved, roots);
      }
      ok := true;
    }

    /** The search of an older accumulator: it does not skip empty slots. */
    method SlotAsIfFull(height: int) returns (depth: nat)
      requires Valid()
      ensures depth == FullSlot(BitLen(length) - 1, height)
    {
      depth := 0;
      var i, x := |roots| - 1, height;
      while i > 0
        invariant depth == 0 && FullSlot(BitLen(length) - 1, height) == FullSlot(i, x)
      {
        var bitFlag := Pow2(i);
        if x < bitFlag { return i; }
        x := x - bitFlag;
        i := i - 1;
      }
    }
  }

  lemma HoldsLength(H: HashFn, store: Store, roots: seq<Option<Node>>, a: seq<Bytes>)
    requires Holds(H, store, roots, a)
    ensures |roots| == BitLen(|a|)
  {
  }

  lemma SlotFilledBit(H: HashFn, store: Store, roots: seq<Option<Node>>, a: seq<Bytes>, i: nat)
    requires Holds(H, store, roots, a) && i < |roots|
    ensures roots[i].Some? <==> Bit(|a|, i)
    ensures |roots| == BitLen(|a|)
  {
    hide Represents, Bit, BitLen, FixedSize, AllDigests;
    assert SlotHolds(H, store, roots[i], a, i);
  }

  /** Flushing an accumulator and recovering another one from the same bucket and key gives the same
      accumulator, as far as anyone can ask: the same leaves, and so the same roots, witnesses and
      node hashes. If a write fails, recovering gives what was saved before. */
  method FlushThenRecover(acc: Accumulator, ghost u: set<Bytes>, ghost saved: Option<seq<Bytes>>)
    returns (ok: bool, twin: Accumulator)
    requires acc.Valid() && acc.Known(u) && acc.Saved(saved)
    modifies acc`roots, acc.bucket
    ensures acc.Valid() && fresh(twin) && twin.H == acc.H && twin.Valid()
    ensures ok || acc.bucket.budget == 0
    ensures old(acc.bucket.budget) > 2 * acc.length ==> ok
    ensures twin.leaves == if ok then acc.leaves else if saved.Some? then saved.value else []
  {
    hide Holds, Addressed, NotADigest, Collides, AllStored, StateOf, BitLen, FixedSize, AllDigests, Costs, Held;
    hide Inputs;
    HoldsDigests(acc.H, acc.bucket.data, acc.roots, acc.leaves);
    twin := new Accumulator(acc.H, acc.key, acc.bucket);
    ok := acc.Flush(u);
    if !ok { SavedExtends(acc.H, old(acc.bucket.data), acc.bucket.data, acc.key, saved, Plain); }
    var recovered := twin.Recover(if ok then acc.leaves else if saved.Some? then saved.value else []);
  }

  lemma HoldsDigests(H: HashFn, store: Store, roots: seq<Option<Node>>, a: seq<Bytes>)
    requires Holds(H, store, roots, a)
    ensures FixedSize(H) && AllDigests(a)
  {
  }

  lemma FirstLeafSlot(n: nat)
    requires n > 0
    ensures Slot(n, 0) == BitLen(n) - 1
  {
    hide Slot, Floor, Bit;
    FloorTop(n);
    TopBit(n);
    SlotUnique(n, 0, BitLen(n) - 1);
  }

  lemma NoLeaf(H: HashFn, a: seq<Bytes>, idx: int)
    ensures WitnessOf(H, a, idx).None? <==> idx >= |a| || |a| == 0
  {
  }

  // ----- asking

  method GetDepthByHeightAndAccLength(height: int, accLength: int) returns (depth: nat)
    ensures depth == DepthOf(height, accLength)
  {
    hide Slot, Floor, Bit;
    depth := 0;
    var v := accLength;
    while 0 < v
      invariant accLength > 0 ==> v >= 0 && depth + BitLen(v) == BitLen(accLength)
      invariant accLength <= 0 ==> v == accLength && depth == 0
      decreases v
    {
      v := v / 2;
      depth := depth + 1;
    }
    if accLength > 0 { FloorTop(accLength); TopBit(accLength); }
    var h := height;
    while depth > 0
      invariant accLength > 0 ==> depth <= BitLen(accLength) && h == height - Floor(accLength, depth)
      invariant accLength > 0 && depth < BitLen(accLength) ==> height >= Floor(accLength, depth) && height >= 0
      invariant accLength <= 0 ==> depth == 0
    {
      depth := depth - 1;
      DepthStep(height, accLength, depth);
      if Bit(accLength, depth) {
        if h < Pow2(depth) { return; }
        h := h - Pow2(depth);
      }
    }
    if 0 < accLength && height < accLength { FloorZero(accLength); }
  }

  lemma {:induction false} DepthStep(height: int, n: nat, d: nat)
    ensures Floor(n, d) == Floor(n, d + 1) + if Bit(n, d) then Pow2(d) else 0
    ensures n > 0 && Bit(n, d) && 0 <= height && Floor(n, d + 1) <= height < Floor(n, d + 1) + Pow2(d) ==>
              height < n && Slot(n, height) == d
    ensures n > 0 && Bit(n, d) ==> Floor(n, d + 1) + Pow2(d) <= n
  {
    hide Slot, Floor, Bit;
    FloorStep(n, d);
    FloorBounds(n, d);
    if n > 0 && Bit(n, d) && 0 <= height && Floor(n, d + 1) <= height < Floor(n, d + 1) + Pow2(d) {
      SlotUnique(n, height, d);
    }
  }

  /** The bits set in the code are all different, so that setting a bit is adding it; flags beyond 64 bits are
      zero, as they are here. */
  method GetHeightFromWitness(ws: seq<Witness>, accLength: int) returns (height: int)
    ensures height == HeightOf(ws, accLength)
  {
    hide Wrap, Bit;
    WrapNat(0);
    var idx: int, offset: int := 0, 0;
    ghost var x, y := 0, 0;
    for i := 0 to |ws|
      invariant idx == Wrap(x) && offset == Wrap(y) && x + y == Skipped(ws, accLength, i)
    {
      var bitFlag := Wrap(Pow2(i));
      WrapSum(x, Pow2(i));
      WrapSum(y, Pow2(i));
      if ws[i].direction == Right {
        idx := Wrap(idx + bitFlag);
        x := x + Pow2(i);
      }
      if Bit(accLength, i) {
        offset := Wrap(offset + bitFlag);
        y := y + Pow2(i);
      }
    }
    WrapSum(x, y);
    WrapDifference(accLength - 1, x + y);
    height := Wrap(accLength - 1 - Wrap(idx + offset));
  }

  /** The code divides towards zero: a negative index has the directions of its absolute value. */
  method HashesToWitness(hvs: seq<Bytes>, idx: int) returns (ws: seq<Witness>)
    ensures ws == FromHashes(hvs, if idx < 0 then -idx else idx)
  {
    hide FromHashes, Bit;
    ghost var n := if idx < 0 then -idx else idx;
    ws := [];
    var k := idx;
    for i := 0 to |hvs|
      invariant |ws| == i && forall j :: 0 <= j < i ==> ws[j] == Witness(if Bit(n, j) then Left else Right, hvs[j])
      invariant if idx < 0 then k + Shr(n, i) == 0 else k == Shr(n, i)
    {
      ShiftedBit(n, i);
      ws := ws + [Witness(if k % 2 == 0 then Right else Left, hvs[i])];
      k := if k < 0 then -(-k / 2) else k / 2;
    }
    forall j | 0 <= j < |hvs| ensures ws[j] == FromHashes(hvs, n)[j] { FromHashesAt(hvs, n, j); }
  }

  /** A negative position leads to the first leaf, as position 0 does. */
  lemma {:induction false} NegativePosition(H: HashFn, store: Store, n: Node, d: int, idx: int)
    requires idx < 0
    ensures WitnessFor(H, store, n, d, idx) == WitnessFor(H, store, n, d, 0)
    ensures GetNode(store, n, d, idx) == GetNode(store, n, d, 0)
    decreases d, if n.HashNode? then 1 else 0
  {
    hide Touch, HashOf;
    if n.BranchNode? && d >= 1 {
      NegativePosition(H, store, n.left, d - 1, idx);
    } else if n.HashNode? && d >= 1 && Resolve(store, n.hash).Ok? {
      NegativePosition(H, store, Resolve(store, n.hash).value, d, idx);
    }
  }

  datatype Found<T> = Found(value: T) | NotFound | OutOfBounds

  /** The slot s and the position i in it belong to leaf idx of n leaves. */
  predicate Located(n: nat, idx: int, s: nat, i: int) {
    idx < n && n > 0
    && s == Slot(n, if idx < 0 then 0 else idx)
    && i == if idx < 0 then idx else idx - SlotStart(n, s)
  }

  lemma {:induction false} SlotFilled(
      H: HashFn, store: Store, roots: seq<Option<Node>>, a: seq<Bytes>, idx: int, s: nat, i: int)
    requires Holds(H, store, roots, a) && Located(|a|, idx, s, i)
    ensures s < |roots| && roots[s].Some? && FixedSize(H) && AllDigests(a)
    ensures var k, lo := if idx < 0 then 0 else idx, SlotStart(|a|, s);
            && lo <= k < lo + Pow2(s) <= |a| && Div2(s, lo) && Represents(H, store, roots[s].value, a, lo, s)
            && lo == Floor(k, s) && (idx < 0 ==> lo == 0)
  {
    hide Represents, Bit, Floor, FixedSize, AllDigests, Slot, Div2;
    var k := if idx < 0 then 0 else idx;
    SlotSpec(|a|, k);
    SlotStartBounds(|a|, s);
    assert SlotHolds(H, store, roots[s], a, s);
  }

  lemma LocatedIs(n: nat, idx: int, s: nat, i: int)
    requires Located(n, idx, s, i)
    ensures idx < n && n > 0 && s == Slot(n, if idx < 0 then 0 else idx)
    ensures i == if idx < 0 then idx else idx - SlotStart(n, s)
  {
    hide Slot, SlotStart;
  }

  lemma WitnessOfIs(H: HashFn, a: seq<Bytes>, idx: int)
    requires idx < |a| && a != []
    ensures var k := if idx < 0 then 0 else idx;
            Floor(k, Slot(|a|, k)) + Pow2(Slot(|a|, k)) <= |a|
            && WitnessOf(H, a, idx) == Some(Witnesses(H, a, k, Slot(|a|, k)))
  {
    hide Floor, Slot, Witnesses, Bit;
    SlotSpec(|a|, if idx < 0 then 0 else idx);
  }

  /** The witness below the root of a located leaf is the witness of the leaf. */
  lemma {:induction false} SlotWitness(
      H: HashFn, store: Store, roots: seq<Option<Node>>, a: seq<Bytes>, idx: int, s: nat, i: int)
    requires Holds(H, store, roots, a) && Located(|a|, idx, s, i)
    ensures s < |roots| && roots[s].Some?
    ensures WitnessFor(H, store, roots[s].value, s, i).1.Ok?
    ensures WitnessOf(H, a, idx) == Some(WitnessFor(H, store, roots[s].value, s, i).1.value)
    ensures Holds(H, store, roots[s := Some(WitnessFor(H, store, roots[s].value, s, i).0)], a)
  {
    hide *;
    var k, lo := if idx < 0 then 0 else idx, SlotStart(|a|, s);
    LocatedIs(|a|, idx, s, i);
    SlotFilled(H, store, roots, a, idx, s, i);
    WitnessOfIs(H, a, idx);
    WitnessForRepresents(H, store, roots[s].value, a, lo, s, k);
    if idx < 0 { NegativePosition(H, store, roots[s].value, s, idx); }
    HoldsReplaced(H, store, roots, a, s, WitnessFor(H, store, roots[s].value, s, i).0);
  }

  lemma {:induction false} HoldsReplaced(
      H: HashFn, store: Store, roots: seq<Option<Node>>, a: seq<Bytes>, s: nat, n: Node)
    requires Holds(H, store, roots, a) && s < |roots| && roots[s].Some?
    requires SlotStart(|a|, s) + Pow2(s) <= |a| && Represents(H, store, n, a, SlotStart(|a|, s), s)
    ensures Holds(H, store, roots[s := Some(n)], a)
  {
    hide Represents, Bit, Floor, FixedSize, AllDigests;
    var roots' := roots[s := Some(n)];
    forall i | 0 <= i < |roots'| ensures SlotHolds(H, store, roots'[i], a, i) {
      assert SlotHolds(H, store, roots[i], a, i);
    }
  }

  lemma {:induction false} SlotNode(
      H: HashFn, store: Store, roots: seq<Option<Node>>, a: seq<Bytes>, idx: int, s: nat, i: int)
    requires Holds(H, store, roots, a) && Located(|a|, idx, s, i)
    ensures s < |roots| && roots[s].Some?
    ensures var g := GetNode(store, roots[s].value, s, i);
            g.Ok? && HashOf(H, g.value) == a[if idx < 0 then 0 else idx]
  {
    hide Represents, Bit, Floor, FixedSize, AllDigests, HashOf, GetNode, Slot, Holds, Div2;
    var k, lo := if idx < 0 then 0 else idx, SlotStart(|a|, s);
    SlotFilled(H, store, roots, a, idx, s, i);
    GetNodeRepresents(H, store, roots[s].value, a, lo, s, k);
    if idx < 0 { NegativePosition(H, store, roots[s].value, s, idx); }
  }

  /** The carry of a binary counter over root slots: the new slots and the extended witness. */
  function Insert(
      H: HashFn, roots: seq<Option<Node>>, h: nat, n: Node, w: seq<Witness>): (r: (seq<Option<Node>>, seq<Witness>))
    decreases |roots| - h
  {
    if h >= |roots| then (roots + [Some(n)], w)
    else if roots[h].None? || HashOf(H, roots[h].value) == [] then (roots[h := Some(n)], w)
    else
      var root := roots[h].value;
      var merged := BranchNode(Dirty, [], [], Touch(H, root), n);
      Insert(H, roots[h := None], h + 1, merged, w + [Witness(Left, HashOf(H, root))])
  }

  lemma {:induction false} InsertFrom(
      H: HashFn, store: Store, roots: seq<Option<Node>>, a: seq<Bytes>, x: Bytes, h: nat, n: Node, w: seq<Witness>)
    requires Carries(H, store, roots, a, x, h, n)
    requires Floor(|a|, h) + Pow2(h) <= |a| + 1 && w == Witnesses(H, a + [x], |a|, h)
    ensures var r := Insert(H, roots, h, n, w);
            Holds(H, store, r.0, a + [x]) && WitnessOf(H, a + [x], |a|) == Some(r.1)
    decreases |roots| - h
  {
    hide Holds, Carries, Bit, Floor, Witnesses, HashOf, Touch, WitnessOf, BitLen, Pow2;
    CarrySlot(H, store, roots, a, x, h, n);
    if h < |roots| && roots[h].Some? {
      CarryMerged(H, store, roots, a, x, h, n);
      var root := roots[h].value;
      InsertFrom(H, store, roots[h := None], a, x, h + 1, BranchNode(Dirty, [], [], Touch(H, root), n),
                 w + [Witness(Left, HashOf(H, root))]);
    } else {
      CarryPlaced(H, store, roots, a, x, h, n);
    }
  }

  /** Inserting a leaf keeps the invariant for one more leaf, and the witness collected on the way is
      the witness of the new leaf, which the accumulator accepts. */
  lemma {:induction false} InsertHolds(
      H: HashFn, store: Store, roots: seq<Option<Node>>, a: seq<Bytes>, x: Bytes, n: Node)
    requires Holds(H, store, roots, a) && |x| == HASH_SIZE
    requires n == HashNode(x) || (n.DataNode? && n.state == Dirty && H(n.data) == x)
    ensures var r := Insert(H, roots, 0, n, []);
            && Holds(H, store, r.0, a + [x])
            && WitnessOf(H, a + [x], |a|) == Some(r.1)
            && VerifyOutcome(H, a + [x], r.1, x) == Accepted
  {
    hide Holds, Carries, Insert, WitnessOf, VerifyOutcome, FixedSize, AllDigests;
    CarryStart(H, store, roots, a, x, n);
    InsertFrom(H, store, roots, a, x, 0, n, []);
    HoldsDigests(H, store, Insert(H, roots, 0, n, []).0, a + [x]);
    OwnWitness(H, a + [x], |a|);
  }

  lemma HoldsDigest(H: HashFn, store: Store, roots: seq<Option<Node>>, a: seq<Bytes>, d: Bytes)
    requires Holds(H, store, roots, a)
    ensures |H(d)| == HASH_SIZE
  {
  }

  lemma {:induction false} CarryStart(
      H: HashFn, store: Store, roots: seq<Option<Node>>, a: seq<Bytes>, x: Bytes, n: Node)
    requires Holds(H, store, roots, a) && |x| == HASH_SIZE
    requires n == HashNode(x) || (n.DataNode? && n.state == Dirty && H(n.data) == x)
    ensures Carries(H, store, roots, a, x, 0, n)
    ensures Floor(|a|, 0) + Pow2(0) <= |a + [x]| && [] == Witnesses(H, a + [x], |a|, 0)
  {
    hide SlotHolds;
  }

  /** The slot of a carried node is filled exactly when the insertion has to go on. */
  lemma {:induction false} CarrySlot(
      H: HashFn, store: Store, roots: seq<Option<Node>>, a: seq<Bytes>, x: Bytes, h: nat, n: Node)
    requires Carries(H, store, roots, a, x, h, n)
    ensures |roots| == BitLen(|a|) && Floor(|a|, h) + Pow2(h) <= |a| + 1
    ensures h >= |roots| ==> !Bit(|a|, h)
    ensures h < |roots| ==> (roots[h].Some? <==> Bit(|a|, h))
    ensures h < |roots| && roots[h].Some? ==> HashOf(H, roots[h].value) != []
  {
    hide Represents, Bit, Floor, LowOnes, HashOf, PerfectRoot, FixedSize, AllDigests;
    FloorTop(|a|);
    if h < |roots| {
      assert SlotHolds(H, store, roots[h], a, h);
      if roots[h].Some? {
        RepresentsHash(H, store, roots[h].value, a, SlotStart(|a|, h), h);
        PerfectRootSize(H, a, SlotStart(|a|, h), h);
      }
    }
  }

  // ----- the accumulator with an offset

  datatype ExtOutcome = LowerOffset | HigherOffset | Checked(outcome: Outcome)

  datatype ExtFound = BadOffset(lower: bool) | At(at: int, found: Found<seq<Witness>>)

  /** The length that a height `at` stands for, cut to the present length. */
  function LengthAt(length: int, offset: int, at: int): (n: int) {
    if at - offset > length then length else at - offset
  }

  /** Whatever witness is given for a height up to `at` is accepted at the height returned with it. */
  lemma {:induction false} WitnessAtAccepted(H: HashFn, a: seq<Bytes>, offset: int, height: int, at: int)
    requires FixedSize(H) && AllDigests(a) && |a| <= INT64_MAX
    requires offset < height <= at && height <= |a| + offset
    ensures var n := LengthAt(|a|, offset, at);
            && WitnessWithLength(H, a, height - 1 - offset, n).Some?
            && VerifyWithLength(H, a, WitnessWithLength(H, a, height - 1 - offset, n).value, a[height - 1 - offset],
                                LengthAt(|a|, offset, n + offset)) == Accepted
  {
    hide WitnessWithLength, VerifyWithLength, WitnessOf, FixedSize, AllDigests;
    var n, idx := LengthAt(|a|, offset, at), height - 1 - offset;
    HistoricalWitness(H, a, idx, n);
    HistoricalWitness(H, a[..n], idx, n);
    OlderWitnessAccepted(H, a, idx, n);
  }

  class ExtAccumulator {
    const acc: Accumulator
    const offset: int
    var limitRoots: int

    ghost predicate Valid()
      reads this, acc, acc.bucket
    {
      acc.Valid()
    }

    constructor (H: HashFn, key: Bytes, bucket: Bucket, offset: int)
      requires FixedSize(H)
      ensures Valid() && acc.leaves == [] && this.offset == offset && fresh(acc)
      ensures acc.H == H && acc.key == key && acc.bucket == bucket
    {
      acc := new Accumulator(H, key, bucket);
      this.offset := offset;
      limitRoots := 0;
    }

    function Height(): (h: int)
      reads acc
    {
      acc.length + offset
    }

    method WitnessForAt(height: int, at: int, off: int) returns (r: ExtFound)
      requires Valid()
      modifies acc`roots
      ensures Valid()
      ensures r == BadOffset(true) <==> offset > off
      ensures r == BadOffset(false) <==> offset < off
      ensures r.At? <==> offset == off
      ensures r.At? ==> r.at == LengthAt(acc.length, offset, at) + offset
      ensures r.At? ==>
                (r.found.Found? <==> WitnessWithLength(acc.H, acc.leaves, height - 1 - offset, r.at - offset).Some?)
      ensures r.At? && r.found.Found? ==>
                WitnessWithLength(acc.H, acc.leaves, height - 1 - offset, r.at - offset) == Some(r.found.value)
      ensures r.At? && offset < height <= at && height <= Height() ==>
                && r.found.Found?
                && Some(r.found.value) == WitnessOf(acc.H, acc.leaves[..r.at - offset], height - 1 - offset)
    {
      hide Holds, WitnessWithLength, WitnessOf;
      if offset > off { return BadOffset(true); }
      if offset < off { return BadOffset(false); }
      var idx, accLength, at' := height - 1 - offset, at - offset, at;
      if accLength > acc.length {
        accLength := acc.length;
        at' := acc.length + offset;
      }
      var w := acc.WitnessForWithAccLength(idx, accLength);
      r := At(at', w);
    }

    method VerifyAt(w: seq<Witness>, h: Bytes, at: int, off: int) returns (r: ExtOutcome)
      requires Valid()
      modifies acc`roots
      ensures Valid()
      ensures r == LowerOffset <==> offset > off
      ensures r == HigherOffset <==> offset < off
      ensures offset == off ==>
                r == Checked(VerifyWithLength(acc.H, acc.leaves, w, h, LengthAt(acc.length, offset, at)))
    {
      hide Holds, VerifyWithLength;
      if offset > off { return LowerOffset; }
      if offset < off { return HigherOffset; }
      var accLength := at - offset;
      if accLength > acc.length { accLength := acc.length; }
      var o := acc.VerifyWithAccLength(w, h, accLength);
      r := Checked(o);
    }

    /** The bucket holds the state of these leaves with the offset of this accumulator, or no state. */
    ghost predicate Saved(saved: Option<seq<Bytes>>, limitRoots: int)
      reads acc.bucket
    {
      SavedAs(acc.H, acc.bucket.data, acc.key, saved, WithOffset(offset, limitRoots))
    }

    /** Writes the accumulator to the bucket together with its offset. It fails only when a write fails;
        then nothing that was in the bucket is lost. */
    method Flush(ghost u: set<Bytes>) returns (ok: bool)
      requires Valid() && acc.Known(u)
      modifies acc`roots, acc.bucket
      ensures Valid() && acc.Known(u)
      ensures ok <==> old(acc.bucket.budget) > Costs(old(acc.roots), |old(acc.roots)|)
      ensures acc.bucket.budget ==
                if ok then old(acc.bucket.budget) - Costs(old(acc.roots), |old(acc.roots)|) - 1 else 0
      ensures old(acc.bucket.budget) > 2 * acc.length ==> ok
      ensures acc.bucket.budget + 2 * acc.length + 1 >= old(acc.bucket.budget)
      ensures forall k :: k in old(acc.bucket.data) && k != acc.key ==>
                k in acc.bucket.data && acc.bucket.data[k] == old(acc.bucket.data)[k]
      ensures ok ==>
                Saved(Some(acc.leaves), limitRoots) && forall x :: x in acc.data ==> Written(acc.H, acc.bucket.data, x)
      ensures !ok ==>
                && Extends(old(acc.bucket.data), acc.bucket.data)
                && (acc.key in acc.bucket.data ==> acc.key in old(acc.bucket.data))
    {
      hide Holds, AllStored, NotADigest, Collides, RootHashes, WritesKnown, Costs, Held, Inputs, AllDigests, Written;
      CostsOfAll(acc.H, acc.bucket.data, acc.roots, acc.leaves);
      HoldsDigests(acc.H, acc.bucket.data, acc.roots, acc.leaves);
      var hashes;
      ok, hashes := acc.FlushRoots(u);
      if !ok { return; }
      if acc.bucket.budget == 0 { return false; }
      var e := ExtState(Height(), hashes, offset, limitRoots);
      StateHolds(acc.H, acc.bucket.data, acc.key, e, acc.roots, acc.leaves);
      WrittenBeside(acc.H, acc.bucket.data, acc.key, e, acc.data);
      acc.bucket.data, acc.bucket.budget := acc.bucket.data[acc.key := e], acc.bucket.budget - 1;
    }

    /** Reads the accumulator back. The leaves are those that were saved, whatever offset they were saved
        with; success also needs the same offset, which is only compared after everything else has been
        replaced. */
    method Recover(ghost saved: seq<Bytes>, ghost f: Format) returns (ok: bool)
      modifies acc
      ensures acc.key !in acc.bucket.data || acc.bucket.data[acc.key].ExtState? ==> acc.data == {}
      ensures acc.key !in acc.bucket.data ==>
                ok && acc.leaves == [] && acc.length == 0 && acc.roots == [] && (FixedSize(acc.H) ==> Valid())
      ensures acc.key in acc.bucket.data && !acc.bucket.data[acc.key].ExtState? ==> !ok && unchanged(acc)
      ensures acc.key in acc.bucket.data && acc.bucket.data[acc.key].ExtState? ==>
                (ok <==> acc.bucket.data[acc.key].offset == offset)
      ensures FixedSize(acc.H) && f.WithOffset? && SavedAs(acc.H, acc.bucket.data, acc.key, Some(saved), f) ==>
                Valid() && acc.leaves == saved && (ok <==> f.offset == offset)
    {
      hide AllStored, FixedSize, AllDigests, RootHashes, BitLen;
      if acc.key !in acc.bucket.data {
        acc.roots, acc.length, acc.leaves, acc.data := [], 0, [], {};
        if FixedSize(acc.H) { HoldsNothing(acc.H, acc.bucket.data); }
        return true;
      }
      var e := acc.bucket.data[acc.key];
      if !e.ExtState? { return false; }
      acc.LoadRoots(e.roots);
      acc.length, acc.leaves, acc.data := e.height - e.offset, saved, {};
      HeldNone(acc.roots);
      if FixedSize(acc.H) && f.WithOffset? && SavedAs(acc.H, acc.bucket.data, acc.key, Some(saved), f) {
        LoadAllHolds(acc.H, acc.bucket.data, saved, acc.roots);
      }
      ok := offset == e.offset;
    }

    /** A witness asked for at some height verifies at that height. */
    method WitnessThenVerify(height: int, at: int, h: Bytes) returns (r: ExtOutcome)
      requires Valid() && acc.length <= INT64_MAX
      requires offset < height <= at && height <= Height() && h == acc.leaves[height - 1 - offset]
      modifies acc`roots
      ensures Valid() && r == Checked(Accepted)
    {
      hide Holds, VerifyWithLength, WitnessWithLength, WitnessOf, FixedSize, AllDigests;
      HoldsDigests(acc.H, acc.bucket.data, acc.roots, acc.leaves);
      WitnessAtAccepted(acc.H, acc.leaves, offset, height, at);
      var w := WitnessForAt(height, at, offset);
      r := VerifyAt(w.found.value, h, w.at, offset);
    }
  }

  /** The same for accumulators with an offset: recovering gives what was flushed, or what was saved
      before if a write failed. */
  method ExtFlushThenRecover(
      ext: ExtAccumulator, ghost u: set<Bytes>, ghost saved: Option<seq<Bytes>>, ghost limitRoots: int)
    returns (ok: bool, twin: ExtAccumulator)
    requires ext.Valid() && ext.acc.Known(u) && ext.Saved(saved, limitRoots)
    modifies ext.acc`roots, ext.acc.bucket
    ensures ext.Valid() && fresh(twin) && twin.Valid() && twin.offset == ext.offset && twin.acc.H == ext.acc.H
    ensures ok || ext.acc.bucket.budget == 0
    ensures old(ext.acc.bucket.budget) > 2 * ext.acc.length ==> ok
    ensures twin.acc.leaves == if ok then ext.acc.leaves else if saved.Some? then saved.value else []
  {
    hide Holds, Addressed, NotADigest, Collides, AllStored, StateOf, BitLen, FixedSize, AllDigests, Costs, Held;
    hide Inputs;
    var acc := ext.acc;
    HoldsDigests(acc.H, acc.bucket.data, acc.roots, acc.leaves);
    twin := new ExtAccumulator(acc.H, acc.key, acc.bucket, ext.offset);
    ok := ext.Flush(u);
    if !ok {
      SavedExtends(acc.H, old(acc.bucket.data), acc.bucket.data, acc.key, saved, WithOffset(ext.offset, limitRoots));
    }
    var recovered := twin.Recover(if ok then acc.leaves else if saved.Some? then saved.value else [],
                                  WithOffset(ext.offset, if ok then ext.limitRoots else limitRoots));
  }
}
