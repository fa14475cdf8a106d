/** The Merkle binary tree of common/mbt as values: lazy insertion, hashing and the shape check,
    and the reference they are proved against (the root hash of a list of leaves). */
module MerkleTree {
  import opened Base
  import opened PowersOfTwo

  /** A tree node. A Block has no children: it is a single leaf, or a whole subtree of which only
      the number of leaves and the hash are known. A node with level 0 is still empty. */
  datatype Tree =
    | Block(level: int, num: Int64, h: Bytes)
    | Branch(l: Tree, r: Tree, level: int, num: Int64, h: Bytes)

  const LEVEL_INIT := 0
  const LEVEL_LEAF := 1
  const LEVEL_BRANCH := 2

  const EMPTY: Tree := Block(LEVEL_INIT, 0, [])

  /** 1 + ceil(log2 n) for a positive number of leaves. */
  function LevelOf(n: int): (l: int)
    ensures n >= 1 ==> l >= 1
    ensures l == 0 <==> n == 0
  {
    if n >= 1 then LEVEL_LEAF + BitLen(n - 1) else if n == 0 then LEVEL_INIT else LEVEL_BRANCH + 1
  }

  lemma {:induction false} LevelBounds(n: int)
    requires n >= 1
    ensures n <= Pow2(LevelOf(n) - 1)
    ensures n >= 2 ==> LevelOf(n) >= 2 && Pow2(LevelOf(n) - 2) < n
  {
    BitLenBounds(n - 1);
  }

  lemma LevelBeyondTwo(n: int)
    ensures n >= 3 ==> LevelOf(n) == 3 + BitLen((n - 1) / 4)
  {
    if n >= 3 {
      assert BitLen(n - 1) == 1 + BitLen((n - 1) / 2) == 2 + BitLen((n - 1) / 2 / 2);
      assert (n - 1) / 2 / 2 == (n - 1) / 4;
    }
  }

  method NumberToLevel(num: int) returns (l: int)
    ensures l == LevelOf(num)
  {
    if num == 0 { return LEVEL_LEAF - 1; }
    if num == 1 { return LEVEL_LEAF; }
    if num == 2 { return LEVEL_BRANCH; }
    l := LEVEL_BRANCH + 1;
    var n := (num - 1) / 4;
    assert num >= 3 ==> LevelOf(num) == l + BitLen(n) by { LevelBeyondTwo(num); }
    while n > 0
      invariant num < 0 ==> n < 0 && l == LEVEL_BRANCH + 1
      invariant num >= 3 ==> n >= 0 && LevelOf(num) == l + BitLen(n)
      decreases n
    {
      n := n / 2;
      l := l + 1;
    }
  }

  /** One lazy insertion of a block of k leaves whose root hash is v. */
  function LazyAdd(t: Tree, k: Int64, v: Bytes): (t': Tree) {
    if t.level == LEVEL_INIT then
      t.(level := LevelOf(k), num := k, h := v)
    else if t.Branch? && t.l.num != t.r.num then
      t.(r := LazyAdd(t.r, k, v), num := Wrap(t.num + k))
    else
      Branch(t, Block(LevelOf(k), k, v), t.level + 1, Wrap(t.num + k), [])
  }

  /** Fills in the missing hashes. */
  function EnsureHash(H: HashFn, t: Tree): (t': Tree)
    ensures t'.num == t.num && t'.level == t.level
  {
    if t.Block? || t.level < LEVEL_BRANCH || t.h != [] then t else
    var l, r := EnsureHash(H, t.l), EnsureHash(H, t.r);
    t.(l := l, r := r, h := H(l.h + r.h))
  }

  /** A block of more than one leaf without a hash cannot be hashed: its children are unknown. */
  predicate Hashable(t: Tree) {
    t.level < LEVEL_BRANCH || t.h != [] || (t.Branch? && Hashable(t.l) && Hashable(t.r))
  }

  datatype ShapeError =
    | InvalidNumOfLeaf(expected: int, value: int)
    | InvalidLevel(left: int, right: int)

  /** The shape check: the first error in the order in which the nodes are visited. */
  function Verify(t: Tree): (e: Option<ShapeError>) {
    if t.level == LEVEL_LEAF then
      if t.num != 1 then Some(InvalidNumOfLeaf(1, t.num)) else None
    else if t.Block? then None
    else if t.l.level < t.r.level then Some(InvalidLevel(t.l.level, t.r.level))
    else
      var el := Verify(t.l);
      if el.Some? then el
      else if t.level > LEVEL_BRANCH && Shl(t.l.level - LEVEL_LEAF) != t.l.num then
        Some(InvalidNumOfLeaf(Shl(t.l.level - LEVEL_LEAF), t.l.num))
      else Verify(t.r)
  }

  /** 1 << k in 64 bits, where the shift counts of the code are never negative. */
  function Shl(k: int): (p: Int64) {
    if k < 0 then 0 else Wrap(Pow2(k))
  }

  lemma ShlFits(k: nat)
    requires Pow2(k) <= INT64_MAX
    ensures Shl(k) == Pow2(k)
  {
  }

  /** The shift of the shape check gives the number of leaves exactly when it is that power of two: for
      positive counts the shift never wraps to the same number. */
  lemma {:induction false} ShlOfLevel(n: Int64)
    requires n >= 1
    ensures Shl(LevelOf(n) - 1) == n <==> n == Pow2(LevelOf(n) - 1)
  {
    hide LevelOf, Pow2;
    var k := LevelOf(n) - 1;
    LevelBounds(n);
    LastPowers();
    Pow2Zero();
    LevelUnique(1, 1);
    if k >= 64 {
      Pow2Monotone(63, k - 1);
    } else if k <= 62 {
      Pow2Monotone(k, 62);
      assert Shl(k) == Pow2(k);
    } else {
      assert Shl(k) < 0;
    }
  }

  // ----- what lazy insertion of non-empty blocks always keeps

  /** Levels and counts as lazy insertion of non-empty blocks maintains them. */
  predicate WellCounted(t: Tree) {
    match t
    case Block(level, num, _) => num >= 1 && level == LevelOf(num)
    case Branch(l, r, level, num, h) =>
      WellCounted(l) && WellCounted(r) && level == l.level + 1 && num == l.num + r.num && h == []
  }

  lemma {:induction false} WellCountedLevels(t: Tree)
    requires WellCounted(t)
    ensures t.level >= 1 && t.num >= 1
    ensures t.Branch? ==> t.level >= 2 && t.num >= 2
  {
    if t.Branch? { WellCountedLevels(t.l); WellCountedLevels(t.r); }
  }

  /** The block that starts after `off` leaves of a tree whose own leaves start after `lo`. */
  predicate HasBlock(t: Tree, lo: int, off: int, b: Tree) {
    if t.Block? then off == lo && b == t
    else if off < lo + t.l.num then HasBlock(t.l, lo, off, b)
    else HasBlock(t.r, lo + t.l.num, off, b)
  }

  /** What insertion does to counts and levels. */
  lemma {:induction false} LazyAddCounts(t: Tree, k: Int64, v: Bytes)
    requires k >= 1 && (t == EMPTY || WellCounted(t)) && t.num + k <= INT64_MAX
    ensures WellCounted(LazyAdd(t, k, v))
    ensures LazyAdd(t, k, v).num == t.num + k
    ensures t != EMPTY && !(t.Branch? && t.l.num != t.r.num) ==> LazyAdd(t, k, v).level == t.level + 1
    ensures t.Branch? && t.l.num != t.r.num ==> LazyAdd(t, k, v).level == t.level
  {
    if t != EMPTY {
      WellCountedLevels(t);
      if t.Branch? && t.l.num != t.r.num {
        WellCountedLevels(t.l);
        WellCountedLevels(t.r);
        LazyAddCounts(t.r, k, v);
      }
    }
  }

  /** Insertion puts the new block after all leaves. */
  lemma {:induction false} LazyAddNewBlock(t: Tree, lo: int, k: Int64, v: Bytes)
    requires k >= 1 && (t == EMPTY || WellCounted(t))
    ensures HasBlock(LazyAdd(t, k, v), lo, lo + t.num, Block(LevelOf(k), k, v))
  {
    if t != EMPTY {
      WellCountedLevels(t);
      if t.Branch? && t.l.num != t.r.num {
        WellCountedLevels(t.r);
        LazyAddNewBlock(t.r, lo + t.l.num, k, v);
      }
    }
  }

  /** Insertion moves no block. */
  lemma {:induction false} LazyAddOldBlocks(t: Tree, lo: int, k: Int64, v: Bytes, off: int, b: Tree)
    requires WellCounted(t) && HasBlock(t, lo, off, b) && off < lo + t.num
    ensures HasBlock(LazyAdd(t, k, v), lo, off, b)
  {
    WellCountedLevels(t);
    if t.Branch? && t.l.num != t.r.num && off >= lo + t.l.num {
      LazyAddOldBlocks(t.r, lo + t.l.num, k, v, off, b);
    }
  }

  // ----- the accepted shape

  /** Every left child holds a power of two of leaves and no right child more than its sibling. */
  predicate LeftComplete(t: Tree) {
    t.Block? || (LeftComplete(t.l) && LeftComplete(t.r) && IsPow2(t.l.num) && t.r.num <= t.l.num)
  }

  lemma {:induction false} LevelMonotone(m: int, n: int)
    requires 1 <= m <= n
    ensures LevelOf(m) <= LevelOf(n)
  {
    BitLenMonotone(m - 1, n - 1);
  }

  lemma {:induction false} LevelUnique(n: int, l: int)
    requires n >= 1 && l >= 1 && n <= Pow2(l - 1) && (l >= 2 ==> Pow2(l - 2) < n)
    ensures LevelOf(n) == l
  {
    BitLenUnique(n - 1, l - 1);
  }

  /** In a left-complete tree the level of every node is the level of its number of leaves. */
  lemma {:induction false} LeftCompleteLevel(t: Tree)
    requires WellCounted(t) && LeftComplete(t)
    ensures t.level == LevelOf(t.num)
    ensures t.Branch? ==> t.level >= 2 && t.l.num == Pow2(t.level - 2) && t.l.level == t.level - 1
  {
    if t.Branch? {
      LeftCompleteLevel(t.l);
      LeftCompleteLevel(t.r);
      WellCountedLevels(t.r);
      LevelBounds(t.l.num);
      LevelUnique(t.num, t.l.level + 1);
    }
  }

  /** The two conditions of the shape check on a branch say that the left child is full and the right child
      not larger. */
  lemma {:induction false} ShapeOfBranch(l: Int64, r: Int64)
    requires l >= 1 && r >= 1
    ensures LevelOf(l) >= LevelOf(r) && (LevelOf(l) > 1 ==> Shl(LevelOf(l) - 1) == l) <==> IsPow2(l) && r <= l
  {
    hide LevelOf, Shl, BitLen, Pow2;
    LevelBounds(l);
    LevelBounds(r);
    ShlOfLevel(l);
    FullLevel(l);
    Pow2Zero();
    if LevelOf(l) >= LevelOf(r) { Pow2Monotone(LevelOf(r) - 1, LevelOf(l) - 1); }
    if r <= l { LevelMonotone(r, l); }
  }

  lemma FullLevel(n: int)
    requires n >= 1
    ensures IsPow2(n) <==> n == Pow2(LevelOf(n) - 1)
  {
  }

  lemma VerifyBranch(t: Tree)
    requires t.Branch? && t.level == t.l.level + 1 && t.l.level >= 1
    ensures Verify(t).None? <==>
              && t.l.level >= t.r.level && Verify(t.l).None? && Verify(t.r).None?
              && (t.l.level > 1 ==> Shl(t.l.level - 1) == t.l.num)
  {
    hide Shl;
  }

  /** What the shape check accepts: exactly the left-complete trees. */
  lemma {:induction false} VerifyIffLeftComplete(t: Tree)
    requires WellCounted(t)
    ensures Verify(t).None? <==> LeftComplete(t)
  {
    hide LevelOf, Shl, IsPow2, Verify;
    if t.Branch? {
      VerifyIffLeftComplete(t.l);
      VerifyIffLeftComplete(t.r);
      WellCountedLevels(t.l);
      WellCountedLevels(t.r);
      VerifyBranch(t);
      if LeftComplete(t.l) && LeftComplete(t.r) {
        LeftCompleteLevel(t.l);
        LeftCompleteLevel(t.r);
        ShapeOfBranch(t.l.num, t.r.num);
      }
    } else {
      VerifyBlock(t);
    }
  }

  lemma VerifyHigh(t: Tree)
    requires t.Block? && t.level > 1
    ensures Verify(t).None?
  {
  }

  lemma VerifyBlock(t: Tree)
    requires WellCounted(t) && t.Block?
    ensures Verify(t).None?
  {
    LevelBounds(t.num);
  }

  // ----- the reference: the root hash of a list of leaf hashes

  /** The largest power of two below n. */
  function SplitPoint(n: int): (k: int)
    requires n >= 2
    ensures 1 <= k < n <= 2 * k
  {
    BitLenBounds(n - 1);
    Pow2(BitLen(n - 1) - 1)
  }

  /** The root hash of the leaves a[lo..hi]. */
  function RootHash(H: HashFn, a: seq<Bytes>, lo: nat, hi: nat): (h: Bytes)
    requires lo < hi <= |a|
    decreases hi - lo
  {
    if hi == lo + 1 then a[lo] else
    var m := lo + SplitPoint(hi - lo);
    H(RootHash(H, a, lo, m) + RootHash(H, a, m, hi))
  }

  /** All the inputs that computing that root hash gives to the hash function. */
  function Preimages(H: HashFn, a: seq<Bytes>, lo: nat, hi: nat): (s: set<Bytes>)
    requires lo < hi <= |a|
    decreases hi - lo
  {
    if hi == lo + 1 then {} else
    var m := lo + SplitPoint(hi - lo);
    {RootHash(H, a, lo, m) + RootHash(H, a, m, hi)} + Preimages(H, a, lo, m) + Preimages(H, a, m, hi)
  }

  lemma {:induction false} RootHashSize(H: HashFn, a: seq<Bytes>, lo: nat, hi: nat)
    requires lo < hi <= |a| && AllDigests(a) && FixedSize(H)
    ensures |RootHash(H, a, lo, hi)| == HASH_SIZE
  {
  }

  /** A left-complete node splits its leaves where the reference does. */
  lemma {:induction false} SplitAtLeft(t: Tree)
    requires WellCounted(t) && LeftComplete(t) && t.Branch?
    ensures t.num >= 2 && t.l.num == SplitPoint(t.num) && t.l.num >= 1 && t.r.num >= 1
  {
    LeftCompleteLevel(t);
    WellCountedLevels(t);
    WellCountedLevels(t.l);
    WellCountedLevels(t.r);
  }

  // ----- trees that stand for a range of leaves

  /** The blocks of t carry the root hashes of their parts of the leaves a[lo..lo + t.num]. */
  predicate Denotes(H: HashFn, t: Tree, a: seq<Bytes>, lo: nat) {
    t.num >= 1 && lo + t.num <= |a| &&
    if t.Block? then t.h == RootHash(H, a, lo, lo + t.num)
    else t.l.num >= 0 && Denotes(H, t.l, a, lo) && Denotes(H, t.r, a, lo + t.l.num)
  }

  /** All blocks are perfect subtrees, so that more leaves can follow them. */
  predicate Full(t: Tree) {
    if t.Block? then IsPow2(t.num) else Full(t.l) && Full(t.r)
  }

  /** A block of s leaves can follow m leaves: m is a multiple of some power of two not below s. */
  predicate FitsAfter(m: nat, s: int) {
    s >= 1 && Div2(LevelOf(s) - 1, m)
  }

  lemma {:induction false} FitsAfterMultiple(j: nat, m: nat, s: int)
    requires Div2(j, m) && 1 <= s <= Pow2(j)
    ensures FitsAfter(m, s)
  {
    LevelBounds(s);
    if LevelOf(s) - 1 > j { Pow2Monotone(j, LevelOf(s) - 2); }
    Div2Weaken(LevelOf(s) - 1, j, m);
  }

  /** If a block fits after 2^k + r leaves, with r < 2^k, it fits after r and r stays within 2^k. */
  lemma {:induction false} RoomOnTheRight(j: nat, k: nat, r: nat, s: int)
    requires Div2(j, Pow2(k) + r) && 0 < r < Pow2(k) && s <= Pow2(j)
    ensures Div2(j, r) && r + s <= Pow2(k)
  {
    if j > k {
      Pow2Monotone(k + 1, j);
      Div2AtLeast(j, Pow2(k) + r);
    }
    Div2Pow2(j, k);
    Div2Add(j, Pow2(k), r);
    Div2Room(j, r, Pow2(k));
  }

  /** The key step: inserting a block that fits keeps the tree left-complete. */
  lemma {:induction false} LazyAddLeftComplete(t: Tree, s: Int64, v: Bytes)
    requires WellCounted(t) && LeftComplete(t) && Full(t) && t.num >= 0
    requires FitsAfter(t.num, s)
    ensures LeftComplete(LazyAdd(t, s, v))
    ensures IsPow2(s) ==> Full(LazyAdd(t, s, v))
  {
    hide Wrap, Div2;
    WellCountedLevels(t);
    LeftCompleteLevel(t);
    LevelBounds(s);
    var j := LevelOf(s) - 1;
    if t.Branch? && t.l.num != t.r.num {
      WellCountedLevels(t.r);
      RoomOnTheRight(j, t.level - 2, t.r.num, s);
      LazyAddLeftComplete(t.r, s, v);
      LazyAddCounts(t.r, s, v);
    } else {
      Div2AtLeast(j, t.num);
      if t.Branch? {
        assert t.num == Pow2(t.level - 1);
        Pow2IsPow2(t.level - 1);
      }
    }
  }

  /** Inserting the block of the next k leaves extends the range a tree stands for. */
  lemma {:induction false} LazyAddDenotes(H: HashFn, t: Tree, a: seq<Bytes>, lo: nat, k: Int64, v: Bytes)
    requires WellCounted(t) && Denotes(H, t, a, lo) && k >= 1 && lo + t.num + k <= |a| <= INT64_MAX
    requires v == RootHash(H, a, lo + t.num, lo + t.num + k)
    ensures Denotes(H, LazyAdd(t, k, v), a, lo)
  {
    hide RootHash;
    WellCountedLevels(t);
    if t.Branch? && t.l.num != t.r.num {
      LazyAddDenotes(H, t.r, a, lo + t.l.num, k, v);
    }
  }

  /** Every node carries the root hash of its leaves, and the shape is that of the reference. */
  predicate Commits(H: HashFn, t: Tree, a: seq<Bytes>, lo: nat) {
    t.num >= 1 && lo + t.num <= |a| && t.level == LevelOf(t.num)
    && t.h == RootHash(H, a, lo, lo + t.num)
    && (t.Branch? ==>
          t.num >= 2 && t.l.num == SplitPoint(t.num) && t.r.num == t.num - t.l.num
          && Commits(H, t.l, a, lo) && Commits(H, t.r, a, lo + t.l.num))
  }

  lemma {:induction false} CommitsBranch(H: HashFn, a: seq<Bytes>, lo: nat, t: Tree)
    requires t.Branch? && Commits(H, t.l, a, lo) && Commits(H, t.r, a, lo + t.l.num)
    requires t.num == t.l.num + t.r.num && t.l.num == SplitPoint(t.num)
    requires t.level == LevelOf(t.num) && t.h == H(t.l.h + t.r.h)
    ensures Commits(H, t, a, lo)
  {
    hide SplitPoint, LevelOf;
    var m := lo + t.l.num;
    assert RootHash(H, a, lo, lo + t.num) == H(RootHash(H, a, lo, m) + RootHash(H, a, m, lo + t.num));
  }

  /** Filling in the hashes of a left-complete tree gives the reference root hash at every node. */
  lemma {:induction false} EnsureHashCommits(H: HashFn, t: Tree, a: seq<Bytes>, lo: nat)
    requires WellCounted(t) && LeftComplete(t) && Denotes(H, t, a, lo)
    ensures Commits(H, EnsureHash(H, t), a, lo)
  {
    hide SplitPoint, LevelOf, IsPow2, RootHash;
    LeftCompleteLevel(t);
    if t.Branch? {
      SplitAtLeft(t);
      EnsureHashCommits(H, t.l, a, lo);
      EnsureHashCommits(H, t.r, a, lo + t.l.num);
      CommitsBranch(H, a, lo, EnsureHash(H, t));
    }
  }

  // ----- whole runs of insertions

  datatype ProofNode = ProofNode(num: Int64, value: Bytes)

  function AsBlock(p: ProofNode): (t: Tree) {
    Block(LevelOf(p.num), p.num, p.value)
  }

  /** The tree after lazily inserting the first n blocks into an empty node. */
  function Build(ps: seq<ProofNode>, n: nat): (t: Tree)
    requires n <= |ps|
  {
    if n == 0 then EMPTY else LazyAdd(Build(ps, n - 1), ps[n - 1].num, ps[n - 1].value)
  }

  lemma BuildNone(ps: seq<ProofNode>)
    ensures Build(ps, 0) == EMPTY
  {
  }

  /** The number of leaves before the n-th block. */
  function Before(ps: seq<ProofNode>, n: nat): (m: int)
    requires n <= |ps|
  {
    if n == 0 then 0 else Before(ps, n - 1) + ps[n - 1].num
  }

  predicate AllPositive(ps: seq<ProofNode>) {
    forall i :: 0 <= i < |ps| ==> ps[i].num >= 1
  }

  lemma {:induction false} BuildCounts(ps: seq<ProofNode>, n: nat)
    requires n <= |ps| && AllPositive(ps) && Before(ps, n) <= INT64_MAX
    ensures Build(ps, n).num == Before(ps, n)
    ensures n == 0 ==> Build(ps, n) == EMPTY
    ensures n > 0 ==> WellCounted(Build(ps, n))
  {
    if n > 0 {
      BuildCounts(ps, n - 1);
      LazyAddCounts(Build(ps, n - 1), ps[n - 1].num, ps[n - 1].value);
    }
  }

  lemma {:induction false} BeforeMonotone(ps: seq<ProofNode>, i: nat, n: nat)
    requires i <= n <= |ps| && AllPositive(ps)
    ensures 0 <= Before(ps, i) <= Before(ps, n)
    ensures i < n ==> Before(ps, i) + ps[i].num <= Before(ps, n)
    decreases n
  {
    if i < n {
      BeforeMonotone(ps, i, n - 1);
    } else if i > 0 {
      BeforeMonotone(ps, i - 1, n - 1);
    }
  }

  /** Every inserted block is in the tree, after exactly the leaves of the blocks before it. */
  lemma {:induction false} BuildHasBlocks(ps: seq<ProofNode>, n: nat, i: nat)
    requires i < n <= |ps| && AllPositive(ps) && Before(ps, n) <= INT64_MAX
    ensures HasBlock(Build(ps, n), 0, Before(ps, i), AsBlock(ps[i]))
  {
    BuildCounts(ps, n - 1);
    if i == n - 1 {
      LazyAddNewBlock(Build(ps, n - 1), 0, ps[i].num, ps[i].value);
    } else {
      BuildHasBlocks(ps, n - 1, i);
      BeforeMonotone(ps, i, n - 1);
      LazyAddOldBlocks(Build(ps, n - 1), 0, ps[n - 1].num, ps[n - 1].value, Before(ps, i), AsBlock(ps[i]));
    }
  }

  /** The i-th block starts after m leaves, fits there and carries the root hash of its leaves. */
  predicate Placed(H: HashFn, a: seq<Bytes>, m: int, p: ProofNode) {
    0 <= m && p.num >= 1 && m + p.num <= |a| && FitsAfter(m, p.num)
    && p.value == RootHash(H, a, m, m + p.num)
  }

  lemma PlacedInside(H: HashFn, a: seq<Bytes>, m: int, p: ProofNode)
    requires Placed(H, a, m, p)
    ensures 0 <= m < m + p.num <= |a|
  {
  }

  /** The blocks ps cover the leaves a[m..e] in order. */
  predicate Covers(H: HashFn, a: seq<Bytes>, m: int, ps: seq<ProofNode>, e: int) {
    m + Before(ps, |ps|) == e && forall i :: 0 <= i < |ps| ==> Placed(H, a, m + Before(ps, i), ps[i])
  }

  /** Only the last block may be a partial subtree. */
  predicate PartialLast(ps: seq<ProofNode>) {
    forall i :: 0 <= i < |ps| - 1 ==> IsPow2(ps[i].num)
  }

  lemma CoversPositive(H: HashFn, a: seq<Bytes>, m: int, ps: seq<ProofNode>, e: int)
    requires Covers(H, a, m, ps, e)
    ensures AllPositive(ps)
  {
    forall i | 0 <= i < |ps| ensures ps[i].num >= 1 { assert Placed(H, a, m + Before(ps, i), ps[i]); }
  }

  /** A left-complete tree of perfect blocks that stands for the leaves from the first one on. */
  predicate Standing(H: HashFn, a: seq<Bytes>, t: Tree) {
    WellCounted(t) && LeftComplete(t) && Denotes(H, t, a, 0)
  }

  lemma {:induction false} StandingStep(H: HashFn, a: seq<Bytes>, t: Tree, p: ProofNode)
    requires t == EMPTY || (Standing(H, a, t) && Full(t))
    requires Placed(H, a, t.num, p) && |a| <= INT64_MAX
    ensures Standing(H, a, LazyAdd(t, p.num, p.value))
    ensures IsPow2(p.num) ==> Full(LazyAdd(t, p.num, p.value))
  {
    hide RootHash, IsPow2, Div2, LevelOf;
    if t != EMPTY {
      LazyAddCounts(t, p.num, p.value);
      LazyAddDenotes(H, t, a, 0, p.num, p.value);
      LazyAddLeftComplete(t, p.num, p.value);
    }
  }

  /** A run of blocks that cover the leaves from the first one on gives their left-complete tree. */
  lemma {:induction false} BuildStanding(H: HashFn, a: seq<Bytes>, ps: seq<ProofNode>, e: int, n: nat)
    requires Covers(H, a, 0, ps, e) && PartialLast(ps) && 1 <= n <= |ps| && |a| <= INT64_MAX
    ensures Standing(H, a, Build(ps, n))
    ensures n < |ps| ==> Full(Build(ps, n))
  {
    hide Standing, Full, LazyAdd, Placed, IsPow2;
    CoversPositive(H, a, 0, ps, e);
    assert Placed(H, a, 0 + Before(ps, n - 1), ps[n - 1]);
    PlacedInside(H, a, Before(ps, n - 1), ps[n - 1]);
    BuildCounts(ps, n - 1);
    if n > 1 { BuildStanding(H, a, ps, e, n - 1); }
    StandingStep(H, a, Build(ps, n - 1), ps[n - 1]);
  }
}
