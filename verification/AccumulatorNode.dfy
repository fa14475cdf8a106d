/** The nodes of the accumulator: hashes computed once and cached, subtrees that are only known by
    their hash and loaded from a bucket, and flushing to the bucket. A node is a value; the operation
    that changes a node in place returns the changed node. */
module AccumulatorNode {
  import opened Base
  import opened PowersOfTwo
  import opened AccumulatorBits
  import opened AccumulatorWitness

  datatype NodeState = Dirty | Hashed | Flushed

  datatype Node =
    | HashNode(hash: Bytes)
    | BranchNode(state: NodeState, hash: Bytes, serialized: Bytes, left: Node, right: Node)
    | DataNode(state: NodeState, hash: Bytes, data: Bytes)

  /** A bucket entry: the bytes of a node, or the state of an accumulator, whose textual encoding is
      not modelled. */
  datatype Entry =
    | Raw(bytes: Bytes)
    | State(roots: seq<Option<Bytes>>, length: int)
    | ExtState(height: int, roots: seq<Option<Bytes>>, offset: int, limitRoots: int)

  type Store = map<Bytes, Entry>

  datatype NodeError = InvalidDepth | InvalidData

  // ----- hashing

  function HashOf(H: HashFn, n: Node): (h: Bytes) {
    match n
    case HashNode(h) => h
    case DataNode(state, h, data) => if state == Dirty then H(data) else h
    case BranchNode(state, h, _, l, r) => if state == Dirty then H(HashOf(H, l) + HashOf(H, r)) else h
  }

  /** The node after its hash has been asked for. */
  function Touch(H: HashFn, n: Node): (n': Node) {
    match n
    case HashNode(_) => n
    case DataNode(state, _, data) => if state == Dirty then DataNode(Hashed, H(data), data) else n
    case BranchNode(state, _, _, l, r) =>
      if state == Dirty then
        var bytes := HashOf(H, l) + HashOf(H, r);
        BranchNode(Hashed, H(bytes), bytes, Touch(H, l), Touch(H, r))
      else n
  }

  // ----- loading

  function Resolve(store: Store, h: Bytes): (n: Result<Node, NodeError>) {
    if h in store && store[h].Raw? && |store[h].bytes| == 2 * HASH_SIZE then
      var bytes := store[h].bytes;
      Ok(BranchNode(Flushed, h, bytes, HashNode(bytes[..HASH_SIZE]), HashNode(bytes[HASH_SIZE..])))
    else Err(InvalidData)
  }

  /** The witness of position idx below a node; the node comes back with what was loaded or hashed. */
  function WitnessFor(
      H: HashFn, store: Store, n: Node, depth: int, idx: int): (r: (Node, Result<seq<Witness>, NodeError>))
    decreases depth, if n.HashNode? then 1 else 0
  {
    match n
    case HashNode(h) =>
      if depth < 1 then (n, Ok([])) else
      var b := Resolve(store, h);
      if b.Err? then (n, Err(b.error)) else WitnessFor(H, store, b.value, depth, idx)
    case DataNode(_, _, _) => (n, if depth > 0 then Err(InvalidDepth) else Ok([]))
    case BranchNode(_, _, _, l, r) =>
      if depth < 1 then (n, Err(InvalidDepth)) else
      if idx < Pow2(depth - 1) then
        var (l', w) := WitnessFor(H, store, l, depth - 1, idx);
        if w.Err? then (n.(left := l'), w)
        else (n.(left := l', right := Touch(H, r)), Ok(w.value + [Witness(Right, HashOf(H, r))]))
      else
        var (r', w) := WitnessFor(H, store, r, depth - 1, idx - Pow2(depth - 1));
        if w.Err? then (n.(right := r'), w)
        else (n.(left := Touch(H, l), right := r'), Ok(w.value + [Witness(Left, HashOf(H, l))]))
  }

  /** The node at position idx below a node. */
  function GetNode(store: Store, n: Node, depth: int, idx: int): (r: Result<Node, NodeError>)
    decreases depth, if n.HashNode? then 1 else 0
  {
    match n
    case HashNode(h) =>
      if depth < 1 then Ok(n) else
      var b := Resolve(store, h);
      if b.Err? then Err(b.error) else GetNode(store, b.value, depth, idx)
    case DataNode(_, _, _) => if depth > 0 then Err(InvalidDepth) else Ok(n)
    case BranchNode(_, _, _, l, r) =>
      if depth < 1 then Err(InvalidDepth)
      else if idx < Pow2(depth - 1) then GetNode(store, l, depth - 1, idx)
      else GetNode(store, r, depth - 1, idx - Pow2(depth - 1))
  }

  // ----- flushing

  /** A bucket that accepts `budget` more writes and fails after that. */
  datatype Flushing = Flushing(node: Node, store: Store, budget: nat, ok: bool)

  function MarkFlushed(n: Node): (n': Node) {
    match n
    case HashNode(_) => n
    case DataNode(_, h, data) => DataNode(Flushed, h, data)
    case BranchNode(_, h, serialized, l, r) => BranchNode(Flushed, h, serialized, l, r)
  }

  function Flush(H: HashFn, n: Node, store: Store, budget: nat): (f: Flushing) {
    match n
    case HashNode(_) => Flushing(n, store, budget, true)
    case DataNode(state, _, data) =>
      if state == Flushed then Flushing(n, store, budget, true)
      else if budget == 0 then Flushing(Touch(H, n), store, budget, false)
      else Flushing(MarkFlushed(Touch(H, n)), store[HashOf(H, n) := Raw(data)], budget - 1, true)
    case BranchNode(state, _, _, l, r) =>
      if state == Flushed then Flushing(n, store, budget, true) else
      var fl := Flush(H, l, store, budget);
      if !fl.ok then fl.(node := n.(left := fl.node)) else
      var fr := Flush(H, r, fl.store, fl.budget);
      if !fr.ok then fr.(node := n.(left := fl.node, right := fr.node)) else
      var n' := Touch(H, n.(left := fl.node, right := fr.node));
      if fr.budget == 0 then fr.(node := n', ok := false)
      else Flushing(MarkFlushed(n'), fr.store[n'.hash := Raw(n'.serialized)], fr.budget - 1, true)
  }

  /** The number of writes that flushing a node takes. */
  function Cost(n: Node): (c: nat) {
    match n
    case HashNode(_) => 0
    case DataNode(state, _, _) => if state == Flushed then 0 else 1
    case BranchNode(state, _, _, l, r) => if state == Flushed then 0 else Cost(l) + Cost(r) + 1
  }

  /** Flushing succeeds exactly when that many writes do. */
  lemma {:induction false} FlushCost(H: HashFn, n: Node, store: Store, budget: nat)
    ensures var f := Flush(H, n, store, budget);
            && (f.ok <==> budget >= Cost(n))
            && f.budget == if f.ok then budget - Cost(n) else 0
  {
    hide Touch, HashOf;
    if n.BranchNode? && n.state != Flushed {
      FlushCost(H, n.left, store, budget);
      var fl := Flush(H, n.left, store, budget);
      if fl.ok { FlushCost(H, n.right, fl.store, fl.budget); }
    }
  }

  // ----- nodes that stand for a block of leaves

  /** Every branch of the perfect tree over a[lo..lo + 2^d] is in the bucket under its hash. */
  predicate Stored(H: HashFn, store: Store, a: seq<Bytes>, lo: nat, d: nat)
    requires lo + Pow2(d) <= |a|
    decreases d
  {
    d > 0 ==>
      var m := lo + Pow2(d - 1);
      var h := PerfectRoot(H, a, lo, d);
      h in store && store[h] == Raw(PerfectRoot(H, a, lo, d - 1) + PerfectRoot(H, a, m, d - 1))
      && Stored(H, store, a, lo, d - 1) && Stored(H, store, a, m, d - 1)
  }

  /** Nothing of the node is left to be written. */
  predicate Clean(n: Node) {
    n.HashNode? || n.state == Flushed
  }

  /** The bytes are in the bucket under their hash. */
  predicate Written(H: HashFn, store: Store, x: Bytes) {
    H(x) in store && store[H(x)] == Raw(x)
  }

  /** The node stands for the perfect tree over a[lo..lo + 2^d]: what is cached is right, and what is
      not in memory or marked as flushed is in the bucket, the data of leaves too. */
  predicate Represents(H: HashFn, store: Store, n: Node, a: seq<Bytes>, lo: nat, d: nat)
    requires lo + Pow2(d) <= |a|
    decreases d, n
  {
    match n
    case HashNode(h) => h == PerfectRoot(H, a, lo, d) && Stored(H, store, a, lo, d)
    case DataNode(state, h, data) =>
      d == 0 && H(data) == a[lo] && (state != Dirty ==> h == a[lo]) && (state == Flushed ==> Written(H, store, data))
    case BranchNode(state, h, serialized, l, r) =>
      d > 0
      && Represents(H, store, l, a, lo, d - 1) && Represents(H, store, r, a, lo + Pow2(d - 1), d - 1)
      && (state != Dirty ==>
            h == PerfectRoot(H, a, lo, d)
            && serialized == PerfectRoot(H, a, lo, d - 1) + PerfectRoot(H, a, lo + Pow2(d - 1), d - 1))
      && (state == Flushed ==> Stored(H, store, a, lo, d) && Clean(l) && Clean(r))
  }

  lemma {:induction false} RepresentsHash(H: HashFn, store: Store, n: Node, a: seq<Bytes>, lo: nat, d: nat)
    requires lo + Pow2(d) <= |a| && Represents(H, store, n, a, lo, d)
    ensures HashOf(H, n) == PerfectRoot(H, a, lo, d)
    decreases n
  {
    hide Stored;
    if n.BranchNode? {
      RepresentsHash(H, store, n.left, a, lo, d - 1);
      RepresentsHash(H, store, n.right, a, lo + Pow2(d - 1), d - 1);
    }
  }

  lemma {:induction false} TouchRepresents(H: HashFn, store: Store, n: Node, a: seq<Bytes>, lo: nat, d: nat)
    requires lo + Pow2(d) <= |a| && Represents(H, store, n, a, lo, d)
    ensures Represents(H, store, Touch(H, n), a, lo, d)
    decreases n
  {
    hide Stored;
    if n.BranchNode? && n.state == Dirty {
      RepresentsHash(H, store, n.left, a, lo, d - 1);
      RepresentsHash(H, store, n.right, a, lo + Pow2(d - 1), d - 1);
      TouchRepresents(H, store, n.left, a, lo, d - 1);
      TouchRepresents(H, store, n.right, a, lo + Pow2(d - 1), d - 1);
    }
  }

  /** A stored block can be loaded: the result stands for the same block. */
  lemma {:induction false} ResolveRepresents(H: HashFn, store: Store, a: seq<Bytes>, lo: nat, d: nat)
    requires lo + Pow2(d) <= |a| && d > 0 && Stored(H, store, a, lo, d) && FixedSize(H) && AllDigests(a)
    ensures var r := Resolve(store, PerfectRoot(H, a, lo, d));
            r.Ok? && r.value.BranchNode? && Represents(H, store, r.value, a, lo, d)
  {
    hide FixedSize, AllDigests, PerfectRoot, Stored;
    StoredStep(H, store, a, lo, d);
    var p, q := PerfectRoot(H, a, lo, d - 1), PerfectRoot(H, a, lo + Pow2(d - 1), d - 1);
    PerfectRootSize(H, a, lo, d - 1);
    PerfectRootSize(H, a, lo + Pow2(d - 1), d - 1);
    assert (p + q)[..HASH_SIZE] == p && (p + q)[HASH_SIZE..] == q;
  }

  lemma StoredStep(H: HashFn, store: Store, a: seq<Bytes>, lo: nat, d: nat)
    requires d > 0 && lo + Pow2(d) <= |a| && Stored(H, store, a, lo, d)
    ensures lo + Pow2(d - 1) + Pow2(d - 1) <= |a|
    ensures var h := PerfectRoot(H, a, lo, d);
            h in store && store[h] == Raw(PerfectRoot(H, a, lo, d - 1) + PerfectRoot(H, a, lo + Pow2(d - 1), d - 1))
    ensures Stored(H, store, a, lo, d - 1) && Stored(H, store, a, lo + Pow2(d - 1), d - 1)
  {
    hide PerfectRoot;
  }

  /** Below a node, positions count from the start of its block. */
  lemma {:induction false} HalfOf(idx: nat, lo: nat, d: nat)
    requires d > 0 && Div2(d, lo) && lo <= idx < lo + Pow2(d)
    ensures Floor(idx, d) == lo && Div2(d - 1, lo) && Div2(d - 1, lo + Pow2(d - 1))
    ensures if idx < lo + Pow2(d - 1) then !Bit(idx, d - 1) && SiblingStart(idx, d - 1) == lo + Pow2(d - 1)
            else Bit(idx, d - 1) && SiblingStart(idx, d - 1) == lo
  {
    FloorUnique(idx, d, lo);
    Div2Weaken(d - 1, d, lo);
    Div2Pow2(d - 1, d - 1);
    Div2Add(d - 1, lo, Pow2(d - 1));
    FloorStep(idx, d - 1);
    if idx < lo + Pow2(d - 1) {
      FloorUnique(idx, d - 1, lo);
    } else {
      FloorUnique(idx, d - 1, lo + Pow2(d - 1));
    }
  }

  /** Asking a node for a witness gives the witness of the leaf, whether the nodes are in memory or
      in the bucket, and the node still stands for its block. */
  lemma {:induction false} WitnessForRepresents(
      H: HashFn, store: Store, n: Node, a: seq<Bytes>, lo: nat, d: nat, idx: nat)
    requires FixedSize(H) && AllDigests(a)
    requires lo + Pow2(d) <= |a| && Represents(H, store, n, a, lo, d)
    requires Div2(d, lo) && lo <= idx < lo + Pow2(d)
    ensures Floor(idx, d) == lo
    ensures WitnessFor(H, store, n, d, idx - lo).1 == Ok(Witnesses(H, a, idx, d))
    ensures Represents(H, store, WitnessFor(H, store, n, d, idx - lo).0, a, lo, d)
    decreases d, if n.HashNode? then 1 else 0
  {
    hide FixedSize, AllDigests, Stored, PerfectRoot, Floor, Bit, Witnesses, WitnessAt, SiblingStart, Div2, Touch;
    hide HashOf, Represents, Clean;
    FloorUnique(idx, d, lo);
    if d == 0 {
      RepresentsLeaf(H, store, n, a, lo);
      NoWitnesses(H, a, idx);
    } else if n.HashNode? {
      StoredAlready(H, store, n, a, lo, d);
      ResolveRepresents(H, store, a, lo, d);
      WitnessForRepresents(H, store, Resolve(store, n.hash).value, a, lo, d, idx);
    } else {
      RepresentsNoLeaf(H, store, n, a, lo, d);
      RepresentsChildren(H, store, n, a, lo, d);
      var m := lo + Pow2(d - 1);
      HalfOf(idx, lo, d);
      WitnessesSide(H, a, idx, lo, d);
      RepresentsHash(H, store, n.left, a, lo, d - 1);
      RepresentsHash(H, store, n.right, a, m, d - 1);
      TouchRepresents(H, store, n.left, a, lo, d - 1);
      TouchRepresents(H, store, n.right, a, m, d - 1);
      CleanStays(H, store, n.left, d - 1, idx - lo);
      CleanStays(H, store, n.right, d - 1, idx - m);
      if idx < m {
        WitnessForRepresents(H, store, n.left, a, lo, d - 1, idx);
      } else {
        WitnessForRepresents(H, store, n.right, a, m, d - 1, idx);
      }
      SidesReplaced(H, store, n, WitnessFor(H, store, n, d, idx - lo).0, a, lo, d);
    }
  }

  lemma RepresentsLeaf(H: HashFn, store: Store, n: Node, a: seq<Bytes>, lo: nat)
    requires lo + Pow2(0) <= |a| && Represents(H, store, n, a, lo, 0)
    ensures !n.BranchNode?
  {
  }

  lemma RepresentsNoLeaf(H: HashFn, store: Store, n: Node, a: seq<Bytes>, lo: nat, d: nat)
    requires lo + Pow2(d) <= |a| && Represents(H, store, n, a, lo, d) && d > 0
    ensures !n.DataNode?
  {
    hide PerfectRoot, Stored;
  }

  /** Children may be replaced by others that stand for the same blocks, if nothing new is left to be
      written. */
  lemma {:induction false} SidesReplaced(
      H: HashFn, store: Store, n: Node, n': Node, a: seq<Bytes>, lo: nat, d: nat)
    requires lo + Pow2(d) <= |a| && d > 0 && n.BranchNode? && Represents(H, store, n, a, lo, d)
    requires n'.BranchNode? && n' == n.(left := n'.left, right := n'.right)
    requires Represents(H, store, n'.left, a, lo, d - 1) && Represents(H, store, n'.right, a, lo + Pow2(d - 1), d - 1)
    requires (Clean(n.left) ==> Clean(n'.left)) && (Clean(n.right) ==> Clean(n'.right))
    ensures Represents(H, store, n', a, lo, d)
  {
    hide Stored, PerfectRoot, Clean;
  }

  /** Asking for a hash or a witness leaves nothing new to be written. */
  lemma CleanStays(H: HashFn, store: Store, n: Node, depth: int, idx: int)
    ensures Clean(n) ==> Clean(Touch(H, n)) && Clean(WitnessFor(H, store, n, depth, idx).0)
  {
    hide HashOf;
  }

  lemma NoWitnesses(H: HashFn, a: seq<Bytes>, idx: nat)
    requires Floor(idx, 0) + Pow2(0) <= |a|
    ensures Witnesses(H, a, idx, 0) == []
  {
  }

  lemma {:induction false} WitnessesSide(H: HashFn, a: seq<Bytes>, idx: nat, lo: nat, d: nat)
    requires d > 0 && Div2(d, lo) && lo <= idx < lo + Pow2(d) <= |a|
    ensures Floor(idx, d) == lo && Floor(idx, d - 1) + Pow2(d - 1) <= |a|
    ensures Witnesses(H, a, idx, d) == Witnesses(H, a, idx, d - 1)
         + [if idx < lo + Pow2(d - 1) then Witness(Right, PerfectRoot(H, a, lo + Pow2(d - 1), d - 1))
            else Witness(Left, PerfectRoot(H, a, lo, d - 1))]
  {
    hide Witnesses, Floor, Bit, SiblingStart, Div2, PerfectRoot;
    HalfOf(idx, lo, d);
    WitnessesStep(H, a, idx, d);
  }

  lemma {:induction false} GetNodeRepresents(H: HashFn, store: Store, n: Node, a: seq<Bytes>, lo: nat, d: nat, idx: nat)
    requires FixedSize(H) && AllDigests(a)
    requires lo + Pow2(d) <= |a| && Represents(H, store, n, a, lo, d)
    requires lo <= idx < lo + Pow2(d)
    ensures GetNode(store, n, d, idx - lo).Ok? && HashOf(H, GetNode(store, n, d, idx - lo).value) == a[idx]
    decreases d, if n.HashNode? then 1 else 0
  {
    hide FixedSize, AllDigests, Stored, PerfectRoot, HashOf;
    if d == 0 {
      RepresentsHash(H, store, n, a, lo, 0);
      LeafRoot(H, a, lo);
    } else if n.HashNode? {
      ResolveRepresents(H, store, a, lo, d);
      GetNodeRepresents(H, store, Resolve(store, n.hash).value, a, lo, d, idx);
    } else if idx < lo + Pow2(d - 1) {
      GetNodeRepresents(H, store, n.left, a, lo, d - 1, idx);
    } else {
      GetNodeRepresents(H, store, n.right, a, lo + Pow2(d - 1), d - 1, idx);
    }
  }

  lemma LeafRoot(H: HashFn, a: seq<Bytes>, lo: nat)
    requires lo < |a|
    ensures PerfectRoot(H, a, lo, 0) == a[lo]
  {
  }

  // ----- growth

  /** Nothing in the bucket is lost or changed. */
  ghost predicate Extends(store: Store, store': Store) {
    forall k :: k in store ==> k in store' && store'[k] == store[k]
  }

  lemma {:induction false} StoredExtends(H: HashFn, store: Store, store': Store, a: seq<Bytes>, lo: nat, d: nat)
    requires lo + Pow2(d) <= |a| && Stored(H, store, a, lo, d) && Extends(store, store')
    ensures Stored(H, store', a, lo, d)
    decreases d
  {
    hide PerfectRoot;
    if d > 0 {
      StoredExtends(H, store, store', a, lo, d - 1);
      StoredExtends(H, store, store', a, lo + Pow2(d - 1), d - 1);
    }
  }

  lemma {:induction false} RepresentsExtends(
      H: HashFn, store: Store, store': Store, n: Node, a: seq<Bytes>, lo: nat, d: nat)
    requires lo + Pow2(d) <= |a| && Represents(H, store, n, a, lo, d) && Extends(store, store')
    ensures Represents(H, store', n, a, lo, d)
    decreases n
  {
    hide PerfectRoot, Stored, Extends;
    if n.BranchNode? {
      if n.state == Flushed { StoredExtends(H, store, store', a, lo, d); }
      RepresentsExtends(H, store, store', n.left, a, lo, d - 1);
      RepresentsExtends(H, store, store', n.right, a, lo + Pow2(d - 1), d - 1);
    } else if n.HashNode? {
      StoredExtends(H, store, store', a, lo, d);
    } else if n.state == Flushed {
      WrittenExtends(H, store, store', n.data);
    }
  }

  lemma WrittenExtends(H: HashFn, store: Store, store': Store, x: Bytes)
    requires Written(H, store, x) && Extends(store, store')
    ensures Written(H, store', x)
  {
  }

  lemma {:induction false} StoredPrefix(H: HashFn, store: Store, a: seq<Bytes>, a': seq<Bytes>, lo: nat, d: nat)
    requires lo + Pow2(d) <= |a| <= |a'| && a == a'[..|a|] && Stored(H, store, a, lo, d)
    ensures Stored(H, store, a', lo, d)
    decreases d
  {
    hide PerfectRoot;
    if d > 0 {
      PerfectRootPrefix(H, a, a', lo, d);
      PerfectRootPrefix(H, a, a', lo, d - 1);
      PerfectRootPrefix(H, a, a', lo + Pow2(d - 1), d - 1);
      StoredPrefix(H, store, a, a', lo, d - 1);
      StoredPrefix(H, store, a, a', lo + Pow2(d - 1), d - 1);
    }
  }

  lemma {:induction false} RepresentsPrefix(
      H: HashFn, store: Store, n: Node, a: seq<Bytes>, a': seq<Bytes>, lo: nat, d: nat)
    requires lo + Pow2(d) <= |a| <= |a'| && a == a'[..|a|] && Represents(H, store, n, a, lo, d)
    ensures Represents(H, store, n, a', lo, d)
    decreases n
  {
    hide PerfectRoot, Stored;
    PerfectRootPrefix(H, a, a', lo, d);
    if n.BranchNode? {
      if n.state == Flushed { StoredPrefix(H, store, a, a', lo, d); }
      PerfectRootPrefix(H, a, a', lo, d - 1);
      PerfectRootPrefix(H, a, a', lo + Pow2(d - 1), d - 1);
      RepresentsPrefix(H, store, n.left, a, a', lo, d - 1);
      RepresentsPrefix(H, store, n.right, a, a', lo + Pow2(d - 1), d - 1);
    } else if n.HashNode? {
      StoredPrefix(H, store, a, a', lo, d);
    }
  }

  /** A perfect tree has fewer than twice as many nodes as leaves. */
  lemma {:induction false} CostBound(H: HashFn, store: Store, n: Node, a: seq<Bytes>, lo: nat, d: nat)
    requires lo + Pow2(d) <= |a| && Represents(H, store, n, a, lo, d)
    ensures Cost(n) < 2 * Pow2(d)
    decreases n
  {
    hide PerfectRoot, Stored;
    if n.BranchNode? {
      CostBound(H, store, n.left, a, lo, d - 1);
      CostBound(H, store, n.right, a, lo + Pow2(d - 1), d - 1);
    }
  }

  // ----- the data held in memory

  function Data(n: Node): (s: set<Bytes>) {
    match n
    case HashNode(_) => {}
    case DataNode(_, _, data) => {data}
    case BranchNode(_, _, _, l, r) => Data(l) + Data(r)
  }

  lemma {:induction false} TouchData(H: HashFn, n: Node)
    ensures Data(Touch(H, n)) == Data(n)
  {
    hide HashOf;
    if n.BranchNode? {
      TouchData(H, n.left);
      TouchData(H, n.right);
    }
  }

  /** Loading adds no data to what a node holds. */
  lemma {:induction false} WitnessForData(H: HashFn, store: Store, n: Node, depth: int, idx: int)
    ensures Data(WitnessFor(H, store, n, depth, idx).0) == Data(n)
    decreases depth, if n.HashNode? then 1 else 0
  {
    hide Touch, HashOf;
    match n
    case HashNode(h) =>
      if depth >= 1 && Resolve(store, h).Ok? { WitnessForData(H, store, Resolve(store, h).value, depth, idx); }
    case DataNode(_, _, _) =>
    case BranchNode(_, _, _, l, r) =>
      if depth >= 1 {
        TouchData(H, l);
        TouchData(H, r);
        if idx < Pow2(depth - 1) {
          WitnessForData(H, store, l, depth - 1, idx);
        } else {
          WitnessForData(H, store, r, depth - 1, idx - Pow2(depth - 1));
        }
      }
  }

  lemma {:induction false} FlushData(H: HashFn, n: Node, store: Store, budget: nat)
    ensures Data(Flush(H, n, store, budget).node) == Data(n)
  {
    hide HashOf, Touch;
    TouchData(H, n);
    if n.BranchNode? && n.state != Flushed {
      var fl := Flush(H, n.left, store, budget);
      FlushData(H, n.left, store, budget);
      if fl.ok {
        var fr := Flush(H, n.right, fl.store, fl.budget);
        FlushData(H, n.right, fl.store, fl.budget);
        TouchData(H, n.(left := fl.node, right := fr.node));
        MarkData(Touch(H, n.(left := fl.node, right := fr.node)));
      }
    } else {
      MarkData(Touch(H, n));
    }
  }

  lemma MarkData(n: Node)
    ensures Data(MarkFlushed(n)) == Data(n)
  {
  }

  /** When nothing is left to be written, all data that a node holds is in the bucket. */
  lemma {:induction false} CleanWritten(H: HashFn, store: Store, n: Node, a: seq<Bytes>, lo: nat, d: nat)
    requires lo + Pow2(d) <= |a| && Represents(H, store, n, a, lo, d) && Clean(n)
    ensures forall x :: x in Data(n) ==> Written(H, store, x)
    decreases n
  {
    hide PerfectRoot, Stored, Written;
    if n.BranchNode? {
      CleanWritten(H, store, n.left, a, lo, d - 1);
      CleanWritten(H, store, n.right, a, lo + Pow2(d - 1), d - 1);
    }
  }

  // ----- what flushing keeps

  /** The bytes that flushing a node may write. */
  function Writes(H: HashFn, n: Node): (s: set<Bytes>) {
    match n
    case HashNode(_) => {}
    case DataNode(_, _, data) => {data}
    case BranchNode(_, _, _, l, r) => {HashOf(H, l) + HashOf(H, r)} + Writes(H, l) + Writes(H, r)
  }

  /** What a node that stands for a block may write is the data it holds and what the block hashes. */
  lemma {:induction false} RepresentsWrites(H: HashFn, store: Store, n: Node, a: seq<Bytes>, lo: nat, d: nat)
    requires lo + Pow2(d) <= |a| && Represents(H, store, n, a, lo, d)
    ensures Writes(H, n) <= Data(n) + PerfectInputs(H, a, lo, d)
    decreases n
  {
    hide PerfectRoot, Stored, HashOf;
    if n.BranchNode? {
      RepresentsHash(H, store, n.left, a, lo, d - 1);
      RepresentsHash(H, store, n.right, a, lo + Pow2(d - 1), d - 1);
      RepresentsWrites(H, store, n.left, a, lo, d - 1);
      RepresentsWrites(H, store, n.right, a, lo + Pow2(d - 1), d - 1);
    }
  }

  /** Every entry but the one of the state is stored under its own hash and is one of the bytes u. */
  ghost predicate Addressed(H: HashFn, store: Store, key: Bytes, u: set<Bytes>) {
    forall k :: k in store && k != key ==> store[k].Raw? && store[k].bytes in u && H(store[k].bytes) == k
  }

  /** The key of the state is not a digest. */
  ghost predicate NotADigest(H: HashFn, key: Bytes) {
    forall x: Bytes :: H(x) != key
  }

  /** Writing bytes under their hash keeps every entry, if the known bytes do not collide. */
  lemma {:induction false} SetExtends(H: HashFn, store: Store, key: Bytes, u: set<Bytes>, bytes: Bytes)
    requires Addressed(H, store, key, u) && NotADigest(H, key) && !Collides(H, u) && bytes in u
    ensures Extends(store, store[H(bytes) := Raw(bytes)]) && H(bytes) != key
    ensures Addressed(H, store[H(bytes) := Raw(bytes)], key, u)
  {
    var k := H(bytes);
    assert k != key;
    if k in store { NoCollision(H, u, store[k].bytes, bytes); }
  }

  lemma {:induction false} ExtendsTransitive(s: Store, s': Store, s'': Store)
    requires Extends(s, s') && Extends(s', s'')
    ensures Extends(s, s'')
  {
  }

  /** After flushing, the node stands for the same block, no entry is lost or changed and the entry of the
      state is not new; after a success the whole block is in the bucket. */
  ghost predicate Kept(H: HashFn, store: Store, f: Flushing, a: seq<Bytes>, lo: nat, d: nat, key: Bytes, u: set<Bytes>)
    requires lo + Pow2(d) <= |a|
  {
    && Represents(H, f.store, f.node, a, lo, d)
    && Extends(store, f.store) && Addressed(H, f.store, key, u) && (key in f.store ==> key in store)
    && (f.ok ==> Stored(H, f.store, a, lo, d) && HashOf(H, f.node) == PerfectRoot(H, a, lo, d) && Clean(f.node))
  }

  /** Flushing keeps what the node stands for and every entry of the bucket, even if it fails on the
      way; if it succeeds, the whole block of the node is in the bucket. */
  lemma {:induction false} FlushRepresents(
      H: HashFn, n: Node, store: Store, budget: nat, a: seq<Bytes>, lo: nat, d: nat, key: Bytes, u: set<Bytes>)
    requires lo + Pow2(d) <= |a| && Represents(H, store, n, a, lo, d)
    requires Addressed(H, store, key, u) && NotADigest(H, key) && !Collides(H, u) && Writes(H, n) <= u
    ensures Kept(H, store, Flush(H, n, store, budget), a, lo, d, key, u)
    decreases n
  {
    hide Addressed, NotADigest, Collides, Extends, PerfectRoot, Writes, HashOf, Touch, Represents, Stored;
    SelfExtends(store);
    if n.DataNode? {
      FlushLeaf(H, n, store, budget, a, lo, d, key, u);
    } else if n.HashNode? || n.state == Flushed {
      RepresentsHash(H, store, n, a, lo, d);
      StoredAlready(H, store, n, a, lo, d);
    } else {
      RepresentsChildren(H, store, n, a, lo, d);
      var m := lo + Pow2(d - 1);
      WritesOfChildren(H, n);
      var fl := Flush(H, n.left, store, budget);
      FlushRepresents(H, n.left, store, budget, a, lo, d - 1, key, u);
      RepresentsExtends(H, store, fl.store, n.right, a, m, d - 1);
      if !fl.ok {
        RepresentsBranch(H, store, fl.store, n, n.(left := fl.node), a, lo, d);
      } else {
        var fr := Flush(H, n.right, fl.store, fl.budget);
        FlushRepresents(H, n.right, fl.store, fl.budget, a, m, d - 1, key, u);
        ExtendsTransitive(store, fl.store, fr.store);
        RepresentsExtends(H, fl.store, fr.store, fl.node, a, lo, d - 1);
        if fr.ok {
          FlushBranch(H, n, store, budget, a, lo, m, d, key, u, fl, fr);
        } else {
          RepresentsBranch(H, store, fr.store, n, n.(left := fl.node, right := fr.node), a, lo, d);
        }
      }
    }
  }

  lemma RepresentsChildren(H: HashFn, store: Store, n: Node, a: seq<Bytes>, lo: nat, d: nat)
    requires lo + Pow2(d) <= |a| && n.BranchNode? && Represents(H, store, n, a, lo, d)
    ensures d > 0 && Pow2(d) == 2 * Pow2(d - 1)
    ensures Represents(H, store, n.left, a, lo, d - 1) && Represents(H, store, n.right, a, lo + Pow2(d - 1), d - 1)
  {
    hide PerfectRoot, Stored;
  }

  lemma StoredAlready(H: HashFn, store: Store, n: Node, a: seq<Bytes>, lo: nat, d: nat)
    requires lo + Pow2(d) <= |a| && Represents(H, store, n, a, lo, d)
    requires n.HashNode? || (n.BranchNode? && n.state == Flushed)
    ensures Stored(H, store, a, lo, d) && (n.HashNode? ==> n.hash == PerfectRoot(H, a, lo, d))
  {
    hide PerfectRoot, Stored;
  }

  lemma SelfExtends(store: Store)
    ensures Extends(store, store)
  {
  }

  lemma WritesOfChildren(H: HashFn, n: Node)
    requires n.BranchNode?
    ensures Writes(H, n.left) <= Writes(H, n) && Writes(H, n.right) <= Writes(H, n)
    ensures HashOf(H, n.left) + HashOf(H, n.right) in Writes(H, n)
  {
  }

  lemma {:induction false} FlushLeaf(
      H: HashFn, n: Node, store: Store, budget: nat, a: seq<Bytes>, lo: nat, d: nat, key: Bytes, u: set<Bytes>)
    requires lo + Pow2(d) <= |a| && Represents(H, store, n, a, lo, d) && n.DataNode?
    requires Addressed(H, store, key, u) && NotADigest(H, key) && !Collides(H, u) && Writes(H, n) <= u
    ensures Kept(H, store, Flush(H, n, store, budget), a, lo, d, key, u)
  {
    hide Addressed, NotADigest, Collides, Extends;
    SelfExtends(store);
    SetExtends(H, store, key, u, n.data);
  }

  /** The last step of flushing a branch whose children have been flushed. */
  lemma {:induction false} FlushBranch(
      H: HashFn, n: Node, store: Store, budget: nat, a: seq<Bytes>, lo: nat, m: nat, d: nat, key: Bytes, u: set<Bytes>,
      fl: Flushing, fr: Flushing)
    requires d > 0 && m == lo + Pow2(d - 1) && m + Pow2(d - 1) <= |a| && lo + Pow2(d) <= |a|
    requires n.BranchNode? && n.state != Flushed && NotADigest(H, key) && !Collides(H, u)
    requires fl == Flush(H, n.left, store, budget) && fr == Flush(H, n.right, fl.store, fl.budget) && fl.ok && fr.ok
    requires Kept(H, store, fl, a, lo, d - 1, key, u) && Kept(H, fl.store, fr, a, m, d - 1, key, u)
    requires HashOf(H, n.left) + HashOf(H, n.right) in u && Represents(H, store, n, a, lo, d)
    ensures Kept(H, store, Flush(H, n, store, budget), a, lo, d, key, u)
  {
    hide Addressed, NotADigest, Collides, Extends, PerfectRoot, Touch, HashOf, Represents, Stored;
    var p, q := PerfectRoot(H, a, lo, d - 1), PerfectRoot(H, a, m, d - 1);
    ExtendsTransitive(store, fl.store, fr.store);
    RepresentsExtends(H, fl.store, fr.store, fl.node, a, lo, d - 1);
    var n1 := n.(left := fl.node, right := fr.node);
    RepresentsBranch(H, store, fr.store, n, n1, a, lo, d);
    TouchRepresents(H, fr.store, n1, a, lo, d);
    TouchBranch(H, fr.store, n1, a, lo, d);
    RepresentsHash(H, fr.store, Touch(H, n1), a, lo, d);
    if fr.budget > 0 {
      var store' := fr.store[H(p + q) := Raw(p + q)];
      SetExtends(H, fr.store, key, u, p + q);
      ExtendsTransitive(store, fr.store, store');
      ExtendsTransitive(fl.store, fr.store, store');
      StoredExtends(H, fl.store, store', a, lo, d - 1);
      StoredExtends(H, fr.store, store', a, m, d - 1);
      StoredBranch(H, store', a, lo, d);
      RepresentsExtends(H, fr.store, store', Touch(H, n1), a, lo, d);
      RepresentsFlushed(H, store', Touch(H, n1), a, lo, d);
    }
  }

  lemma {:induction false} RepresentsBranch(
      H: HashFn, store: Store, store': Store, n: Node, n': Node, a: seq<Bytes>, lo: nat, d: nat)
    requires lo + Pow2(d) <= |a| && d > 0 && n.BranchNode? && n.state != Flushed && Represents(H, store, n, a, lo, d)
    requires n'.BranchNode? && n' == n.(left := n'.left, right := n'.right)
    requires Represents(H, store', n'.left, a, lo, d - 1) && Represents(H, store', n'.right, a, lo + Pow2(d - 1), d - 1)
    ensures Represents(H, store', n', a, lo, d)
    ensures HashOf(H, n.left) + HashOf(H, n.right) ==
              PerfectRoot(H, a, lo, d - 1) + PerfectRoot(H, a, lo + Pow2(d - 1), d - 1)
  {
    hide Stored, PerfectRoot, HashOf;
    RepresentsHash(H, store, n.left, a, lo, d - 1);
    RepresentsHash(H, store, n.right, a, lo + Pow2(d - 1), d - 1);
  }

  /** What a branch over a block hashes. */
  function BranchBytes(H: HashFn, a: seq<Bytes>, lo: nat, d: nat): (bytes: Bytes)
    requires d > 0 && lo + Pow2(d) <= |a| && lo + Pow2(d - 1) + Pow2(d - 1) <= |a|
  {
    PerfectRoot(H, a, lo, d - 1) + PerfectRoot(H, a, lo + Pow2(d - 1), d - 1)
  }

  lemma {:induction false} TouchBranch(H: HashFn, store: Store, n: Node, a: seq<Bytes>, lo: nat, d: nat)
    requires d > 0 && lo + Pow2(d) <= |a| && lo + Pow2(d - 1) + Pow2(d - 1) <= |a| && n.BranchNode?
    requires Represents(H, store, n, a, lo, d)
    ensures Touch(H, n).BranchNode? && Touch(H, n).state != Dirty
    ensures Clean(n.left) && Clean(n.right) ==> Clean(Touch(H, n).left) && Clean(Touch(H, n).right)
    ensures Touch(H, n).serialized == BranchBytes(H, a, lo, d)
    ensures Touch(H, n).hash == H(BranchBytes(H, a, lo, d)) == PerfectRoot(H, a, lo, d)
  {
    hide Stored;
    RepresentsHash(H, store, n.left, a, lo, d - 1);
    RepresentsHash(H, store, n.right, a, lo + Pow2(d - 1), d - 1);
  }

  lemma {:induction false} StoredBranch(H: HashFn, store: Store, a: seq<Bytes>, lo: nat, d: nat)
    requires lo + Pow2(d) <= |a| && d > 0
    requires Stored(H, store, a, lo, d - 1) && Stored(H, store, a, lo + Pow2(d - 1), d - 1)
    requires var bytes := PerfectRoot(H, a, lo, d - 1) + PerfectRoot(H, a, lo + Pow2(d - 1), d - 1);
             H(bytes) in store && store[H(bytes)] == Raw(bytes)
    ensures Stored(H, store, a, lo, d)
  {
  }

  lemma {:induction false} RepresentsFlushed(H: HashFn, store: Store, n: Node, a: seq<Bytes>, lo: nat, d: nat)
    requires lo + Pow2(d) <= |a| && n.BranchNode? && n.state != Dirty && Represents(H, store, n, a, lo, d)
    requires Stored(H, store, a, lo, d) && Clean(n.left) && Clean(n.right)
    ensures Represents(H, store, MarkFlushed(n), a, lo, d)
    ensures HashOf(H, MarkFlushed(n)) == PerfectRoot(H, a, lo, d)
  {
    hide Stored, PerfectRoot;
  }
}
