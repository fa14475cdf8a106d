/** Range proofs and paths of the Merkle binary tree: cutting them out of a tree, checking them, and
    the two main results, completeness and binding. */
module MerkleProof {
  import opened Base
  import opened PowersOfTwo
  import opened MerkleTree

  /** A proof that some consecutive contents are in a tree. */
  datatype RangeProof = RangeProof(left: seq<ProofNode>, contents: seq<Bytes>, right: seq<ProofNode>)

  datatype RootError = TotalMismatch(sum: int, node: int) | BadShape(error: ShapeError)

  datatype RootResult = RootResult(h: Bytes, left: Int64, total: Int64, err: Option<RootError>)

  datatype PathNode = PathNode(right: bool, value: Bytes)

  // ----- building and cutting

  function Leaves(H: HashFn, contents: seq<Bytes>): (a: seq<Bytes>)
    ensures |a| == |contents| && forall i :: 0 <= i < |a| ==> a[i] == H(contents[i])
  {
    seq(|contents|, i requires 0 <= i < |contents| => H(contents[i]))
  }

  function LeafNodes(H: HashFn, contents: seq<Bytes>): (ps: seq<ProofNode>)
    ensures |ps| == |contents| && forall i :: 0 <= i < |ps| ==> ps[i] == ProofNode(1, H(contents[i]))
  {
    seq(|contents|, i requires 0 <= i < |contents| => ProofNode(1, H(contents[i])))
  }

  /** The tree built from a list of contents. */
  function TreeOf(H: HashFn, contents: seq<Bytes>): (t: Tree) {
    EnsureHash(H, Build(LeafNodes(H, contents), |contents|))
  }

  function AsProofNode(t: Tree): (p: ProofNode) {
    ProofNode(t.num, t.h)
  }

  /** The subtrees to the left of leaf `num` (counted from 1), the topmost and leftmost first. */
  function LeftOf(t: Tree, num: int): (ps: seq<ProofNode>) {
    if t.level < LEVEL_BRANCH || t.Block? then []
    else if num > Shl(t.level - LEVEL_BRANCH) then
      [AsProofNode(t.l)] + LeftOf(t.r, num - Shl(t.level - LEVEL_BRANCH))
    else LeftOf(t.l, num)
  }

  /** The subtrees to the right of leaf `num`, the lowest and leftmost first. */
  function RightOf(t: Tree, num: int): (ps: seq<ProofNode>) {
    if t.level < LEVEL_BRANCH || t.Block? then []
    else if num > Shl(t.level - LEVEL_BRANCH) then RightOf(t.r, num - Shl(t.level - LEVEL_BRANCH))
    else RightOf(t.l, num) + [AsProofNode(t.r)]
  }

  function ProofOf(t: Tree, contents: seq<Bytes>, begin: int, end: int): (p: RangeProof)
    requires 1 <= begin <= end <= |contents|
  {
    if begin == 1 && end == |contents| then RangeProof([], contents, [])
    else if begin == 1 then RangeProof([], contents[..end], RightOf(t, end))
    else
      var right :=
        if begin == end then RightOf(t, begin) else if end == |contents| then [] else RightOf(t, end);
      RangeProof(LeftOf(t, begin), contents[begin - 1..end], right)
  }

  function PathOf(t: Tree, num: int): (ps: seq<PathNode>) {
    if t.level < LEVEL_BRANCH || t.Block? then []
    else if num > Shl(t.level - LEVEL_BRANCH) then
      PathOf(t.r, num - Shl(t.level - LEVEL_BRANCH)) + [PathNode(false, t.l.h)]
    else PathOf(t.l, num) + [PathNode(true, t.r.h)]
  }

  // ----- checking

  /** Everything the check inserts, in order. */
  function Pieces(H: HashFn, p: RangeProof): (ps: seq<ProofNode>) {
    p.left + LeafNodes(H, p.contents) + p.right
  }

  function Rebuilt(H: HashFn, p: RangeProof): (t: Tree) {
    Build(Pieces(H, p), |Pieces(H, p)|)
  }

  /** The number of leaves that a proof claims, without the limit of 64 bits. */
  function TrueTotal(p: RangeProof): (n: int) {
    Before(p.left, |p.left|) + |p.contents| + Before(p.right, |p.right|)
  }

  function RootOf(H: HashFn, p: RangeProof): (r: RootResult) {
    var t := EnsureHash(H, Rebuilt(H, p));
    var left := Wrap(Before(p.left, |p.left|));
    var total := Wrap(TrueTotal(p));
    var err :=
      if t.num != total then Some(TotalMismatch(total, t.num))
      else if Verify(t).Some? then Some(BadShape(Verify(t).value))
      else None;
    RootResult(t.h, left, total, err)
  }

  function PathStep(H: HashFn, h: Bytes, n: PathNode): (h': Bytes) {
    if n.right then H(h + n.value) else H(n.value + h)
  }

  /** The hash after the first n steps of a path that starts at a leaf hash. */
  function PathRoot(H: HashFn, leaf: Bytes, path: seq<PathNode>, n: nat): (h: Bytes)
    requires n <= |path|
  {
    if n == 0 then leaf else PathStep(H, PathRoot(H, leaf, path, n - 1), path[n - 1])
  }

  // ----- covering lemmas

  lemma {:induction false} BeforeConcat(ps: seq<ProofNode>, qs: seq<ProofNode>, i: nat)
    requires i <= |ps| + |qs|
    ensures Before(ps + qs, i) == if i <= |ps| then Before(ps, i) else Before(ps, |ps|) + Before(qs, i - |ps|)
  {
    if i > 0 { BeforeConcat(ps, qs, i - 1); }
  }

  lemma {:induction false} CoversConcat(
      H: HashFn, a: seq<Bytes>, m: int, ps: seq<ProofNode>, n: int, qs: seq<ProofNode>, e: int)
    requires Covers(H, a, m, ps, n) && Covers(H, a, n, qs, e)
    ensures Covers(H, a, m, ps + qs, e)
  {
    hide Placed, Before;
    var s := ps + qs;
    BeforeConcat(ps, qs, |s|);
    BeforeNone(qs);
    forall i | 0 <= i < |s| ensures Placed(H, a, m + Before(s, i), s[i]) {
      PlacedInConcat(H, a, m, ps, n, qs, e, i);
    }
  }

  lemma BeforeNone(ps: seq<ProofNode>)
    ensures Before(ps, 0) == 0
  {
  }

  lemma {:induction false} PlacedInConcat(
      H: HashFn, a: seq<Bytes>, m: int, ps: seq<ProofNode>, n: int, qs: seq<ProofNode>, e: int, i: nat)
    requires Covers(H, a, m, ps, n) && Covers(H, a, n, qs, e) && i < |ps + qs|
    ensures Placed(H, a, m + Before(ps + qs, i), (ps + qs)[i])
  {
    hide Placed, Before;
    BeforeConcat(ps, qs, i);
    BeforeNone(qs);
    if i < |ps| {
      assert Placed(H, a, m + Before(ps, i), ps[i]);
    } else {
      assert Placed(H, a, n + Before(qs, i - |ps|), qs[i - |ps|]);
    }
  }

  lemma CoversEnd(H: HashFn, a: seq<Bytes>, m: int, ps: seq<ProofNode>, e: int)
    requires Covers(H, a, m, ps, e)
    ensures Before(ps, |ps|) == e - m
  {
  }

  lemma {:induction false} CoversOne(H: HashFn, a: seq<Bytes>, m: int, p: ProofNode)
    requires Placed(H, a, m, p)
    ensures Covers(H, a, m, [p], m + p.num)
  {
    hide Placed;
    assert Before([p], 1) == Before([p], 0) + p.num;
  }

  lemma CoversNone(H: HashFn, a: seq<Bytes>, m: int)
    ensures Covers(H, a, m, [], m)
  {
  }

  lemma {:induction false} LeafNodesBefore(H: HashFn, contents: seq<Bytes>, n: nat)
    requires n <= |contents|
    ensures Before(LeafNodes(H, contents), n) == n
  {
    if n > 0 { LeafNodesBefore(H, contents, n - 1); }
  }

  /** Single contents always fit. */
  lemma {:induction false} CoversLeaves(H: HashFn, contents: seq<Bytes>, begin: nat, end: nat)
    requires begin <= end <= |contents|
    ensures Covers(H, Leaves(H, contents), begin, LeafNodes(H, contents[begin..end]), end)
  {
    hide Placed, Before, LeafNodes, Leaves;
    var part := contents[begin..end];
    var a, ps := Leaves(H, contents), LeafNodes(H, part);
    LeafNodesBefore(H, part, end - begin);
    forall i | 0 <= i < |ps| ensures Placed(H, a, begin + Before(ps, i), ps[i]) {
      LeafNodesBefore(H, part, i);
      assert part[i] == contents[begin + i];
      LeafPlaced(H, a, begin + i, ps[i]);
    }
  }

  lemma {:induction false} LeafPlaced(H: HashFn, a: seq<Bytes>, m: nat, p: ProofNode)
    requires m < |a| && p == ProofNode(1, a[m])
    ensures Placed(H, a, m, p)
  {
    LevelUnique(1, 1);
  }

  predicate AllPow2(ps: seq<ProofNode>) {
    forall i :: 0 <= i < |ps| ==> IsPow2(ps[i].num)
  }

  /** All blocks of a tree are single leaves. */
  predicate Unit(t: Tree) {
    if t.Block? then t.num == 1 else Unit(t.l) && Unit(t.r)
  }

  /** The arithmetic of a branch with all its hashes. */
  lemma {:induction false} CommitsLevels(H: HashFn, a: seq<Bytes>, lo: nat, t: Tree)
    requires Commits(H, t, a, lo) && t.Branch?
    ensures t.level >= LEVEL_BRANCH && t.l.num == Pow2(t.level - LEVEL_BRANCH) == Shl(t.level - LEVEL_BRANCH)
    ensures t.l.level == t.level - 1 && 1 <= t.r.level <= t.l.level && 1 <= t.r.num <= t.l.num
    ensures IsPow2(t.l.num) && (IsPow2(t.num) ==> t.r.num == t.l.num)
  {
    hide RootHash;
    var k := t.level - LEVEL_BRANCH;
    Pow2IsPow2(k);
    LevelMonotone(t.r.num, t.l.num);
    if IsPow2(t.num) { assert t.num == Pow2(t.level - 1); }
  }

  lemma CommitsPositive(H: HashFn, a: seq<Bytes>, lo: nat, t: Tree)
    requires Commits(H, t, a, lo)
    ensures t.level >= 1
  {
  }

  /** The children of a node that starts at a multiple of its size start at multiples of theirs. */
  lemma {:induction false} ChildrenAligned(k: nat, lr: int, lo: nat)
    requires Div2(k + 1, lo) && 1 <= lr <= k + 1
    ensures Div2(k, lo) && Div2(k, lo + Pow2(k)) && Div2(lr - 1, lo + Pow2(k))
  {
    Div2Weaken(k, k + 1, lo);
    Div2Pow2(k, k);
    Div2Add(k, lo, Pow2(k));
    Div2Weaken(lr - 1, k, lo + Pow2(k));
  }

  lemma {:induction false} PlacedChild(H: HashFn, a: seq<Bytes>, j: nat, m: nat, t: Tree)
    requires Commits(H, t, a, m) && Div2(j, m) && t.num <= Pow2(j)
    ensures Placed(H, a, m, AsProofNode(t))
  {
    hide RootHash, LevelOf;
    FitsAfterMultiple(j, m, t.num);
  }

  /** The left part of a proof covers what precedes the leaf, with perfect subtrees that fit. */
  lemma {:induction false} LeftCovers(H: HashFn, a: seq<Bytes>, lo: nat, t: Tree, num: int)
    requires Commits(H, t, a, lo) && Unit(t) && 1 <= num <= t.num && Div2(t.level - 1, lo)
    ensures Covers(H, a, lo, LeftOf(t, num), lo + num - 1) && AllPow2(LeftOf(t, num))
    decreases t
  {
    hide RootHash, LevelOf, SplitPoint, IsPow2, Div2, Covers, Placed;
    if t.Block? {
      CoversNone(H, a, lo);
    } else {
      CommitsLevels(H, a, lo, t);
      ChildrenAligned(t.level - 2, t.r.level, lo);
      if num > t.l.num {
        PlacedChild(H, a, t.level - 2, lo, t.l);
        CoversOne(H, a, lo, AsProofNode(t.l));
        LeftCovers(H, a, lo + t.l.num, t.r, num - t.l.num);
        CoversConcat(H, a, lo, [AsProofNode(t.l)], lo + t.l.num, LeftOf(t.r, num - t.l.num), lo + num - 1);
      } else {
        LeftCovers(H, a, lo, t.l, num);
      }
    }
  }

  /** The right part covers what follows the leaf; only its last subtree may be partial. */
  lemma {:induction false} RightCovers(H: HashFn, a: seq<Bytes>, lo: nat, t: Tree, num: int)
    requires Commits(H, t, a, lo) && Unit(t) && 1 <= num <= t.num && Div2(t.level - 1, lo)
    ensures Covers(H, a, lo + num, RightOf(t, num), lo + t.num)
    ensures PartialLast(RightOf(t, num)) && (IsPow2(t.num) ==> AllPow2(RightOf(t, num)))
    decreases t
  {
    hide RootHash, LevelOf, SplitPoint, IsPow2, Div2, Covers, Placed;
    if t.Block? {
      CoversNone(H, a, lo + num);
    } else {
      CommitsLevels(H, a, lo, t);
      ChildrenAligned(t.level - 2, t.r.level, lo);
      var m := lo + t.l.num;
      if num > t.l.num {
        RightCovers(H, a, m, t.r, num - t.l.num);
      } else {
        RightCovers(H, a, lo, t.l, num);
        PlacedChild(H, a, t.level - 2, m, t.r);
        CoversOne(H, a, m, AsProofNode(t.r));
        CoversConcat(H, a, lo + num, RightOf(t.l, num), m, [AsProofNode(t.r)], lo + t.num);
      }
    }
  }

  // ----- completeness

  lemma {:induction false} LazyAddUnit(t: Tree, v: Bytes)
    requires t == EMPTY || (WellCounted(t) && Unit(t))
    ensures Unit(LazyAdd(t, 1, v))
  {
    if t != EMPTY {
      WellCountedLevels(t);
      if t.Branch? {
        WellCountedLevels(t.r);
        LazyAddUnit(t.r, v);
      }
    }
  }

  lemma {:induction false} BuildUnit(H: HashFn, contents: seq<Bytes>, n: nat)
    requires n <= |contents| <= INT64_MAX
    ensures n > 0 ==> Unit(Build(LeafNodes(H, contents), n))
  {
    if n > 0 {
      BuildUnit(H, contents, n - 1);
      LeafNodesBefore(H, contents, n - 1);
      BuildCounts(LeafNodes(H, contents), n - 1);
      LazyAddUnit(Build(LeafNodes(H, contents), n - 1), H(contents[n - 1]));
    }
  }

  lemma {:induction false} EnsureHashUnit(H: HashFn, t: Tree)
    requires Unit(t)
    ensures Unit(EnsureHash(H, t))
  {
    if t.Branch? { EnsureHashUnit(H, t.l); EnsureHashUnit(H, t.r); }
  }

  lemma {:induction false} EnsureHashVerify(H: HashFn, t: Tree)
    ensures Verify(EnsureHash(H, t)) == Verify(t)
  {
    if t.Branch? { EnsureHashVerify(H, t.l); EnsureHashVerify(H, t.r); }
  }

  /** A tree built from contents carries the reference root hash at every node. */
  lemma {:induction false} TreeOfCommits(H: HashFn, contents: seq<Bytes>)
    requires 1 <= |contents| <= INT64_MAX
    ensures Commits(H, TreeOf(H, contents), Leaves(H, contents), 0) && Unit(TreeOf(H, contents))
    ensures TreeOf(H, contents).num == |contents|
    ensures TreeOf(H, contents).h == RootHash(H, Leaves(H, contents), 0, |contents|)
  {
    var n := |contents|;
    var ps := LeafNodes(H, contents);
    assert contents[0..n] == contents;
    CoversLeaves(H, contents, 0, n);
    Pow2IsPow2(0);
    BuildStanding(H, Leaves(H, contents), ps, n, n);
    LeafNodesBefore(H, contents, n);
    BuildCounts(ps, n);
    EnsureHashCommits(H, Build(ps, n), Leaves(H, contents), 0);
    BuildUnit(H, contents, n);
    EnsureHashUnit(H, Build(ps, n));
  }

  /** A proof whose pieces cover all leaves is accepted with the root hash of all leaves. */
  lemma {:induction false} CoveringAccepted(H: HashFn, contents: seq<Bytes>, p: RangeProof, begin: int)
    requires 1 <= begin <= |contents| <= INT64_MAX && p.contents != []
    requires Covers(H, Leaves(H, contents), 0, p.left, begin - 1) && AllPow2(p.left)
    requires Covers(H, Leaves(H, contents), begin - 1, LeafNodes(H, p.contents), begin - 1 + |p.contents|)
    requires Covers(H, Leaves(H, contents), begin - 1 + |p.contents|, p.right, |contents|) && PartialLast(p.right)
    ensures RootOf(H, p) == RootResult(TreeOf(H, contents).h, begin - 1, |contents|, None)
  {
    hide RootHash, LevelOf, Covers, EnsureHash, Verify, Build, IsPow2, TreeOf, Wrap, Before, Placed;
    var a := Leaves(H, contents);
    WrapNat(begin - 1);
    WrapNat(|contents|);
    var leaves := LeafNodes(H, p.contents);
    var end := begin - 1 + |p.contents|;
    CoversConcat(H, a, 0, p.left, begin - 1, leaves, end);
    CoversConcat(H, a, 0, p.left + leaves, end, p.right, |contents|);
    var ps := Pieces(H, p);
    Pow2IsPow2(0);
    assert PartialLast(ps);
    AcceptedRoot(H, contents, ps);
    EnsureHashVerify(H, Build(ps, |ps|));
    CoversEnd(H, a, 0, p.left, begin - 1);
    CoversEnd(H, a, end, p.right, |contents|);
  }

  lemma {:induction false} AcceptedRoot(H: HashFn, contents: seq<Bytes>, ps: seq<ProofNode>)
    requires 1 <= |contents| <= INT64_MAX && ps != [] && PartialLast(ps)
    requires Covers(H, Leaves(H, contents), 0, ps, |contents|)
    ensures EnsureHash(H, Build(ps, |ps|)).h == TreeOf(H, contents).h
    ensures Verify(Build(ps, |ps|)).None? && Build(ps, |ps|).num == |contents|
  {
    hide RootHash, LevelOf, Placed, IsPow2;
    var a := Leaves(H, contents);
    var t := Build(ps, |ps|);
    BuildStanding(H, a, ps, |contents|, |ps|);
    CoversPositive(H, a, 0, ps, |contents|);
    CoversEnd(H, a, 0, ps, |contents|);
    BuildCounts(ps, |ps|);
    EnsureHashCommits(H, t, a, 0);
    TreeOfCommits(H, contents);
    VerifyIffLeftComplete(t);
  }

  /** Completeness: the proof cut out of a tree for any range is accepted; the check returns the
      root hash of the tree, the number of contents before the range and the size of the tree. */
  lemma {:induction false} RangeProofComplete(H: HashFn, contents: seq<Bytes>, begin: int, end: int)
    requires 1 <= begin <= end <= |contents| <= INT64_MAX
    ensures RootOf(H, ProofOf(TreeOf(H, contents), contents, begin, end))
         == RootResult(TreeOf(H, contents).h, begin - 1, |contents|, None)
  {
    hide RootHash, LevelOf, Covers, TreeOf, LeftOf, RightOf, Leaves, LeafNodes, RootOf, Commits, IsPow2;
    var n, a, t := |contents|, Leaves(H, contents), TreeOf(H, contents);
    var p := ProofOf(t, contents, begin, end);
    TreeOfCommits(H, contents);
    CommitsPositive(H, a, 0, t);
    Div2Zero(t.level - 1);
    LeftCovers(H, a, 0, t, begin);
    RightCovers(H, a, 0, t, end);
    CoversLeaves(H, contents, begin - 1, end);
    CoversNone(H, a, 0);
    CoversNone(H, a, n);
    assert contents[0..n] == contents && contents[0..end] == contents[..end];
    assert p.contents == contents[begin - 1..end];
    CoveringAccepted(H, contents, p, begin);
  }

  /** No collapsed subtree of more than one leaf lacks its hash: what the check needs of a proof. */
  predicate Hashed(ps: seq<ProofNode>) {
    forall i :: 0 <= i < |ps| ==> ps[i].num == 0 || ps[i].num == 1 || ps[i].value != []
  }

  lemma {:induction false} LazyAddHashable(t: Tree, k: Int64, v: Bytes)
    requires Hashable(t) && (k == 0 || k == 1 || v != [])
    ensures Hashable(LazyAdd(t, k, v))
  {
    LevelUnique(1, 1);
    if t.Branch? && Hashable(t.r) { LazyAddHashable(t.r, k, v); }
  }

  lemma {:induction false} BuildHashable(ps: seq<ProofNode>, n: nat)
    requires n <= |ps| && Hashed(ps)
    ensures Hashable(Build(ps, n))
  {
    hide LazyAdd;
    if n > 0 {
      BuildHashable(ps, n - 1);
      LazyAddHashable(Build(ps, n - 1), ps[n - 1].num, ps[n - 1].value);
    }
  }

  lemma {:induction false} CoversHashed(H: HashFn, a: seq<Bytes>, m: int, ps: seq<ProofNode>, e: int)
    requires FixedSize(H) && AllDigests(a) && Covers(H, a, m, ps, e)
    ensures Hashed(ps)
  {
    hide RootHash, FitsAfter, FixedSize, AllDigests, Before;
    forall i | 0 <= i < |ps| ensures ps[i].value != [] {
      var k := m + Before(ps, i);
      assert Placed(H, a, k, ps[i]);
      RootHashSize(H, a, k, k + ps[i].num);
    }
  }

  /** The check of a proof cut out of a tree never meets a missing hash. */
  lemma {:induction false} RangeProofHashed(H: HashFn, contents: seq<Bytes>, begin: int, end: int)
    requires FixedSize(H) && 1 <= begin <= end <= |contents| <= INT64_MAX
    ensures var p := ProofOf(TreeOf(H, contents), contents, begin, end); Hashed(p.left) && Hashed(p.right)
  {
    hide RootHash, LevelOf, Covers, TreeOf, LeftOf, RightOf, Commits, IsPow2;
    var n, a, t := |contents|, Leaves(H, contents), TreeOf(H, contents);
    TreeOfCommits(H, contents);
    CommitsPositive(H, a, 0, t);
    Div2Zero(t.level - 1);
    LeftCovers(H, a, 0, t, begin);
    RightCovers(H, a, 0, t, end);
    CoversHashed(H, a, 0, LeftOf(t, begin), begin - 1);
    CoversHashed(H, a, end, RightOf(t, end), n);
  }

  // ----- paths

  lemma {:induction false} PathRootPrefix(H: HashFn, leaf: Bytes, path: seq<PathNode>, x: PathNode, n: nat)
    requires n <= |path|
    ensures PathRoot(H, leaf, path + [x], n) == PathRoot(H, leaf, path, n)
  {
    if n > 0 { PathRootPrefix(H, leaf, path, x, n - 1); }
  }

  lemma {:induction false} PathRootSnoc(H: HashFn, leaf: Bytes, path: seq<PathNode>, x: PathNode)
    ensures PathRoot(H, leaf, path + [x], |path| + 1) == PathStep(H, PathRoot(H, leaf, path, |path|), x)
  {
    PathRootPrefix(H, leaf, path, x, |path|);
  }

  lemma {:induction false} CommitsHash(H: HashFn, a: seq<Bytes>, lo: nat, t: Tree)
    requires Commits(H, t, a, lo) && t.Branch?
    ensures t.h == H(t.l.h + t.r.h)
  {
    hide SplitPoint, LevelOf;
    var m := lo + t.l.num;
    assert RootHash(H, a, lo, lo + t.num) == H(RootHash(H, a, lo, m) + RootHash(H, a, m, lo + t.num));
  }

  lemma {:induction false} PathRootOfTree(H: HashFn, a: seq<Bytes>, lo: nat, t: Tree, num: int)
    requires Commits(H, t, a, lo) && Unit(t) && 1 <= num <= t.num
    ensures PathRoot(H, a[lo + num - 1], PathOf(t, num), |PathOf(t, num)|) == t.h
    decreases t
  {
    hide RootHash, LevelOf, SplitPoint, IsPow2, PathRoot;
    var leaf := a[lo + num - 1];
    if t.Branch? {
      CommitsLevels(H, a, lo, t);
      CommitsHash(H, a, lo, t);
      if num > t.l.num {
        PathRootOfTree(H, a, lo + t.l.num, t.r, num - t.l.num);
        PathRootSnoc(H, leaf, PathOf(t.r, num - t.l.num), PathNode(false, t.l.h));
      } else {
        PathRootOfTree(H, a, lo, t.l, num);
        PathRootSnoc(H, leaf, PathOf(t.l, num), PathNode(true, t.r.h));
      }
    } else {
      PathRootLeaf(H, a, lo, t);
    }
  }

  lemma PathRootLeaf(H: HashFn, a: seq<Bytes>, lo: nat, t: Tree)
    requires Commits(H, t, a, lo) && t.Block? && t.num == 1
    ensures PathRoot(H, a[lo], [], 0) == t.h
  {
  }

  /** Following the path of any content from its hash gives the root hash of the tree. */
  lemma {:induction false} PathComplete(H: HashFn, contents: seq<Bytes>, num: int)
    requires 1 <= num <= |contents| <= INT64_MAX
    ensures var path := PathOf(TreeOf(H, contents), num);
            PathRoot(H, H(contents[num - 1]), path, |path|) == TreeOf(H, contents).h
  {
    hide *;
    TreeOfCommits(H, contents);
    PathRootOfTree(H, Leaves(H, contents), 0, TreeOf(H, contents), num);
  }

  // ----- binding

  /** All inputs that hashing a tree gives to the hash function. */
  function TreeInputs(H: HashFn, t: Tree): (s: set<Bytes>) {
    if t.Block? then {} else
    {EnsureHash(H, t.l).h + EnsureHash(H, t.r).h} + TreeInputs(H, t.l) + TreeInputs(H, t.r)
  }

  /** All inputs hashed while checking a proof. */
  function ProofInputs(H: HashFn, p: RangeProof): (s: set<Bytes>) {
    TreeInputs(H, Rebuilt(H, p)) + set i | 0 <= i < |p.contents| :: p.contents[i]
  }

  /** All inputs hashed while building the tree of some contents. */
  function BuildInputs(H: HashFn, contents: seq<Bytes>): (s: set<Bytes>)
    requires contents != []
  {
    Preimages(H, Leaves(H, contents), 0, |contents|) + set i | 0 <= i < |contents| :: contents[i]
  }

  lemma {:induction false} RootHashSplit(H: HashFn, a: seq<Bytes>, lo: nat, m: nat, e: nat)
    requires lo < m < e <= |a| && m == lo + SplitPoint(e - lo)
    ensures RootHash(H, a, lo, e) == H(RootHash(H, a, lo, m) + RootHash(H, a, m, e))
  {
    hide SplitPoint;
  }

  lemma {:induction false} EnsureHashBranch(H: HashFn, t: Tree)
    requires WellCounted(t) && t.Branch?
    ensures EnsureHash(H, t).h == H(EnsureHash(H, t.l).h + EnsureHash(H, t.r).h)
  {
    hide LevelOf;
    WellCountedLevels(t);
  }

  lemma WellCountedChildren(t: Tree)
    requires WellCounted(t) && t.Branch?
    ensures WellCounted(t.l) && WellCounted(t.r) && t.num == t.l.num + t.r.num
    ensures LeftComplete(t) ==> LeftComplete(t.l) && LeftComplete(t.r)
  {
  }

  lemma {:induction false} TreeInputsSplit(H: HashFn, t: Tree)
    requires t.Branch?
    ensures TreeInputs(H, t.l) <= TreeInputs(H, t) && TreeInputs(H, t.r) <= TreeInputs(H, t)
    ensures EnsureHash(H, t.l).h + EnsureHash(H, t.r).h in TreeInputs(H, t)
  {
    hide EnsureHash;
  }

  lemma {:induction false} PreimagesSplit(H: HashFn, a: seq<Bytes>, lo: nat, m: nat, e: nat)
    requires lo < m < e <= |a| && m == lo + SplitPoint(e - lo)
    ensures Preimages(H, a, lo, m) <= Preimages(H, a, lo, e) && Preimages(H, a, m, e) <= Preimages(H, a, lo, e)
    ensures RootHash(H, a, lo, m) + RootHash(H, a, m, e) in Preimages(H, a, lo, e)
  {
    hide RootHash, SplitPoint;
  }

  /** A branch with the right hash has children with the right hashes, up to collisions; or neither
      child has the size of a digest, and then both are blocks. */
  lemma {:induction false} BindBranch(H: HashFn, t: Tree, a: seq<Bytes>, lo: nat)
    requires FixedSize(H) && AllDigests(a)
    requires WellCounted(t) && LeftComplete(t) && t.Branch? && t.num >= 1 && lo + t.num <= |a|
    requires EnsureHash(H, t).h == RootHash(H, a, lo, lo + t.num)
    requires !Collides(H, TreeInputs(H, t) + Preimages(H, a, lo, lo + t.num))
    ensures 1 <= t.l.num && 1 <= t.r.num
    ensures (EnsureHash(H, t.l).h == RootHash(H, a, lo, lo + t.l.num)
             && EnsureHash(H, t.r).h == RootHash(H, a, lo + t.l.num, lo + t.num))
         || (t.l.Block? && t.r.Block? && |t.l.h| != HASH_SIZE && |t.r.h| != HASH_SIZE)
    ensures !Collides(H, TreeInputs(H, t.l) + Preimages(H, a, lo, lo + t.l.num))
    ensures !Collides(H, TreeInputs(H, t.r) + Preimages(H, a, lo + t.l.num, lo + t.num))
  {
    hide *;
    SplitAtLeft(t);
    WellCountedLevels(t);
    WellCountedChildren(t);
    var m, e := lo + t.l.num, lo + t.num;
    var x, y := EnsureHash(H, t.l).h + EnsureHash(H, t.r).h, RootHash(H, a, lo, m) + RootHash(H, a, m, e);
    var s := TreeInputs(H, t) + Preimages(H, a, lo, e);
    TreeInputsSplit(H, t);
    PreimagesSplit(H, a, lo, m, e);
    RootHashSplit(H, a, lo, m, e);
    EnsureHashBranch(H, t);
    NoCollision(H, s, x, y);
    RootHashSize(H, a, lo, m);
    RootHashSize(H, a, m, e);
    SplitEqual(EnsureHash(H, t.l).h, EnsureHash(H, t.r).h, RootHash(H, a, lo, m), RootHash(H, a, m, e));
    BranchDigest(H, t.l);
    BranchDigest(H, t.r);
    FewerInputs(H, TreeInputs(H, t.l) + Preimages(H, a, lo, m), s);
    FewerInputs(H, TreeInputs(H, t.r) + Preimages(H, a, m, e), s);
  }

  lemma SplitEqual(a: Bytes, b: Bytes, c: Bytes, d: Bytes)
    requires a + b == c + d && |c| == |d| == HASH_SIZE
    ensures (a == c && b == d) || (|a| != HASH_SIZE && |b| != HASH_SIZE)
  {
    if |a| == |c| {
      HalvesEqual(a, b, c, d);
    } else {
      assert |a + b| == |c + d|;
    }
  }

  lemma BranchDigest(H: HashFn, t: Tree)
    requires FixedSize(H) && WellCounted(t)
    ensures if t.Branch? then |EnsureHash(H, t).h| == HASH_SIZE else EnsureHash(H, t) == t
  {
    WellCountedLevels(t);
    if t.Branch? { EnsureHashBranch(H, t); }
  }

  /** A single leaf with a digest, anywhere in an accepted tree with the right root hash, is the leaf
      at that position, or the inputs hashed on both sides collide. */
  lemma {:induction false} BindTree(H: HashFn, t: Tree, a: seq<Bytes>, lo: nat, off: int, b: Tree)
    requires FixedSize(H) && AllDigests(a)
    requires WellCounted(t) && LeftComplete(t) && t.num >= 1 && lo + t.num <= |a|
    requires EnsureHash(H, t).h == RootHash(H, a, lo, lo + t.num)
    requires HasBlock(t, lo, off, b) && lo <= off < lo + t.num && b.num == 1 && |b.h| == HASH_SIZE
    requires !Collides(H, TreeInputs(H, t) + Preimages(H, a, lo, lo + t.num))
    ensures b.h == a[off]
    decreases t
  {
    hide *;
    if t.Branch? {
      BindChild(H, t, a, lo, off, b);
      var left := off < lo + t.l.num;
      BindTree(H, if left then t.l else t.r, a, if left then lo else lo + t.l.num, off, b);
    } else {
      BindLeaf(H, t, a, lo, off, b);
    }
  }

  lemma {:induction false} BindLeaf(H: HashFn, t: Tree, a: seq<Bytes>, lo: nat, off: int, b: Tree)
    requires t.Block? && t.num >= 1 && lo + t.num <= |a|
    requires EnsureHash(H, t).h == RootHash(H, a, lo, lo + t.num)
    requires HasBlock(t, lo, off, b) && b.num == 1
    ensures 0 <= off < |a| && b.h == a[off]
  {
  }

  lemma {:induction false} HasBlockChild(t: Tree, lo: nat, off: int, b: Tree)
    requires t.Branch? && HasBlock(t, lo, off, b)
    ensures if off < lo + t.l.num then HasBlock(t.l, lo, off, b) && (t.l.Block? ==> b == t.l)
            else HasBlock(t.r, lo + t.l.num, off, b) && (t.r.Block? ==> b == t.r)
  {
  }

  lemma {:induction false} BindChild(H: HashFn, t: Tree, a: seq<Bytes>, lo: nat, off: int, b: Tree)
    requires FixedSize(H) && AllDigests(a)
    requires WellCounted(t) && LeftComplete(t) && t.Branch? && t.num >= 1 && lo + t.num <= |a|
    requires EnsureHash(H, t).h == RootHash(H, a, lo, lo + t.num)
    requires HasBlock(t, lo, off, b) && lo <= off < lo + t.num && b.num == 1 && |b.h| == HASH_SIZE
    requires !Collides(H, TreeInputs(H, t) + Preimages(H, a, lo, lo + t.num))
    ensures var left := off < lo + t.l.num;
            var c, m := if left then t.l else t.r, if left then lo else lo + t.l.num;
            && WellCounted(c) && LeftComplete(c) && c.num >= 1 && m >= 0 && m + c.num <= |a|
            && EnsureHash(H, c).h == RootHash(H, a, m, m + c.num)
            && HasBlock(c, m, off, b) && m <= off < m + c.num
            && !Collides(H, TreeInputs(H, c) + Preimages(H, a, m, m + c.num))
  {
    hide *;
    BindBranch(H, t, a, lo);
    WellCountedChildren(t);
    HasBlockChild(t, lo, off, b);
  }

  /** The i-th content of a proof is a block of the rebuilt tree, after left + i leaves. */
  lemma {:induction false} ContentPosition(H: HashFn, p: RangeProof, i: nat)
    requires AllPositive(p.left) && AllPositive(p.right) && i < |p.contents| && TrueTotal(p) <= INT64_MAX
    ensures WellCounted(Rebuilt(H, p))
    ensures Rebuilt(H, p).num == RootOf(H, p).total
    ensures 0 <= RootOf(H, p).left && RootOf(H, p).left + |p.contents| <= RootOf(H, p).total
    ensures HasBlock(Rebuilt(H, p), 0, RootOf(H, p).left + i, Block(LEVEL_LEAF, 1, H(p.contents[i])))
  {
    hide *;
    var ps, k := Pieces(H, p), |p.left| + i;
    PiecesOf(H, p);
    PiecesBefore(H, p, i);
    RootOfCounts(H, p);
    BuildCounts(ps, |ps|);
    BuildHasBlocks(ps, |ps|, k);
    WrapNat(Before(p.left, |p.left|));
    WrapNat(TrueTotal(p));
    LeafBlock(H(p.contents[i]));
  }

  lemma LeafBlock(v: Bytes)
    ensures AsBlock(ProofNode(1, v)) == Block(LEVEL_LEAF, 1, v)
  {
    LevelUnique(1, 1);
  }

  lemma {:induction false} PiecesOf(H: HashFn, p: RangeProof)
    ensures |Pieces(H, p)| == |p.left| + |p.contents| + |p.right|
    ensures AllPositive(p.left) && AllPositive(p.right) ==> AllPositive(Pieces(H, p))
    ensures Rebuilt(H, p) == Build(Pieces(H, p), |Pieces(H, p)|)
    ensures Hashed(p.left) && Hashed(p.right) ==> Hashed(Pieces(H, p))
    ensures forall i :: 0 <= i < |p.left| ==> Pieces(H, p)[i] == p.left[i]
    ensures forall i :: 0 <= i < |p.right| ==> Pieces(H, p)[|p.left| + |p.contents| + i] == p.right[i]
    ensures forall i :: 0 <= i < |p.contents| ==> Pieces(H, p)[|p.left| + i] == ProofNode(1, H(p.contents[i]))
  {
    hide Build, LeafNodes, AllPositive, Hashed, Pieces;
    PiecesPlain(H, p);
    forall i | 0 <= i < |p.left| ensures Pieces(H, p)[i] == p.left[i] { PieceAt(H, p, i); }
    forall i | 0 <= i < |p.right| ensures Pieces(H, p)[|p.left| + |p.contents| + i] == p.right[i] {
      PieceAt(H, p, |p.left| + |p.contents| + i);
    }
    forall i | 0 <= i < |p.contents| ensures Pieces(H, p)[|p.left| + i] == ProofNode(1, H(p.contents[i])) {
      PieceAt(H, p, |p.left| + i);
    }
  }

  lemma PieceAt(H: HashFn, p: RangeProof, i: nat)
    requires i < |p.left| + |p.contents| + |p.right|
    ensures |Pieces(H, p)| == |p.left| + |p.contents| + |p.right|
    ensures Pieces(H, p)[i] == if i < |p.left| then p.left[i]
                               else if i < |p.left| + |p.contents| then ProofNode(1, H(p.contents[i - |p.left|]))
                               else p.right[i - |p.left| - |p.contents|]
  {
  }

  lemma PiecesPlain(H: HashFn, p: RangeProof)
    ensures |Pieces(H, p)| == |p.left| + |p.contents| + |p.right|
    ensures AllPositive(p.left) && AllPositive(p.right) ==> AllPositive(Pieces(H, p))
    ensures Hashed(p.left) && Hashed(p.right) ==> Hashed(Pieces(H, p))
  {
    hide LeafNodes;
    forall i: nat | i < |Pieces(H, p)|
      ensures AllPositive(p.left) && AllPositive(p.right) ==> Pieces(H, p)[i].num >= 1
      ensures Hashed(p.left) && Hashed(p.right) ==>
                Pieces(H, p)[i].num == 0 || Pieces(H, p)[i].num == 1 || Pieces(H, p)[i].value != []
    {
      PieceAt(H, p, i);
    }
  }

  lemma {:induction false} PiecesBefore(H: HashFn, p: RangeProof, i: nat)
    requires AllPositive(p.left) && AllPositive(p.right) && i <= |p.contents|
    ensures |p.left| + i <= |Pieces(H, p)|
    ensures Before(Pieces(H, p), |p.left| + i) == Before(p.left, |p.left|) + i
    ensures Before(Pieces(H, p), |Pieces(H, p)|) == Before(p.left, |p.left|) + |p.contents| + Before(p.right, |p.right|)
    ensures Before(p.left, |p.left|) >= 0 && Before(p.right, |p.right|) >= 0
  {
    hide Before, LeafNodes;
    var leaves := LeafNodes(H, p.contents);
    var pl := p.left + leaves;
    BeforeNone(leaves);
    BeforeNone(p.right);
    LeafNodesBefore(H, p.contents, i);
    LeafNodesBefore(H, p.contents, |p.contents|);
    BeforeConcat(pl, p.right, |p.left| + i);
    BeforeConcat(p.left, leaves, |p.left| + i);
    BeforeConcat(pl, p.right, |pl| + |p.right|);
    BeforeConcat(p.left, leaves, |pl|);
    BeforeMonotone(p.left, 0, |p.left|);
    BeforeMonotone(p.right, 0, |p.right|);
  }

  lemma RootOfCounts(H: HashFn, p: RangeProof)
    ensures RootOf(H, p).left == Wrap(Before(p.left, |p.left|)) && RootOf(H, p).total == Wrap(TrueTotal(p))
    ensures TrueTotal(p) == Before(p.left, |p.left|) + |p.contents| + Before(p.right, |p.right|)
  {
    hide Wrap, Before;
  }

  /** An accepted size is only the true one up to 2^64 leaves: just above, it has wrapped. */
  lemma NoWrap(H: HashFn, p: RangeProof)
    requires AllPositive(p.left) && AllPositive(p.right) && p.contents != []
    requires TrueTotal(p) <= TWO_TO_THE_64 && RootOf(H, p).total >= 1
    ensures TrueTotal(p) <= INT64_MAX && RootOf(H, p).total <= INT64_MAX
  {
    hide Before, RootOf, TrueTotal;
    RootOfCounts(H, p);
    BeforeMonotone(p.left, 0, |p.left|);
    BeforeMonotone(p.right, 0, |p.right|);
  }

  lemma {:induction false} InputsOfAll(H: HashFn, p: RangeProof, contents: seq<Bytes>, i: nat, j: nat)
    requires i < |p.contents| && j < |contents|
    ensures var s := ProofInputs(H, p) + BuildInputs(H, contents);
            && TreeInputs(H, Rebuilt(H, p)) + Preimages(H, Leaves(H, contents), 0, |contents|) <= s
            && p.contents[i] in s && contents[j] in s
  {
    hide TreeInputs, Preimages, Rebuilt, Leaves;
  }

  lemma AcceptedShape(H: HashFn, p: RangeProof)
    requires RootOf(H, p).err.None? && WellCounted(Rebuilt(H, p))
    ensures LeftComplete(Rebuilt(H, p)) && EnsureHash(H, Rebuilt(H, p)).h == RootOf(H, p).h
  {
    EnsureHashVerify(H, Rebuilt(H, p));
    VerifyIffLeftComplete(Rebuilt(H, p));
  }

  lemma DigestLeaves(H: HashFn, contents: seq<Bytes>)
    requires FixedSize(H)
    ensures AllDigests(Leaves(H, contents))
  {
  }

  lemma {:induction false} ContentBound(H: HashFn, p: RangeProof, contents: seq<Bytes>, i: nat)
    requires FixedSize(H) && AllPositive(p.left) && AllPositive(p.right) && contents != [] && i < |p.contents|
    requires TrueTotal(p) <= INT64_MAX && |contents| <= INT64_MAX
    requires RootOf(H, p).err.None? && RootOf(H, p).h == TreeOf(H, contents).h && RootOf(H, p).total == |contents|
    requires !Collides(H, ProofInputs(H, p) + BuildInputs(H, contents))
    ensures 0 <= RootOf(H, p).left && RootOf(H, p).left + |p.contents| <= |contents|
    ensures p.contents[i] == contents[RootOf(H, p).left + i]
  {
    hide *;
    var t, a, n, off := Rebuilt(H, p), Leaves(H, contents), |contents|, RootOf(H, p).left + i;
    ContentPosition(H, p, i);
    TreeOfCommits(H, contents);
    AcceptedShape(H, p);
    DigestLeaves(H, contents);
    DigestSize(H, p.contents[i]);
    var s := ProofInputs(H, p) + BuildInputs(H, contents);
    InputsOfAll(H, p, contents, i, off);
    FewerInputs(H, TreeInputs(H, t) + Preimages(H, a, 0, n), s);
    BindTree(H, t, a, 0, off, Block(LEVEL_LEAF, 1, H(p.contents[i])));
    var x, y := p.contents[i], contents[off];
    NoCollision(H, s, x, y);
  }

  /** Binding: an accepted proof with the root hash and the size of a built tree carries exactly the
      contents of that tree at its positions, unless two of the inputs hashed collide. Its counts have
      to be positive and may not add up to more than 2^64. */
  lemma {:induction false} RangeProofBinding(H: HashFn, p: RangeProof, contents: seq<Bytes>)
    requires FixedSize(H) && AllPositive(p.left) && AllPositive(p.right) && TrueTotal(p) <= TWO_TO_THE_64
    requires p.contents != [] && contents != []
    requires RootOf(H, p).err.None? && RootOf(H, p).h == TreeOf(H, contents).h && RootOf(H, p).total == |contents|
    ensures 0 <= RootOf(H, p).left && RootOf(H, p).left + |p.contents| <= |contents|
    ensures p.contents == contents[RootOf(H, p).left..RootOf(H, p).left + |p.contents|]
         || Collides(H, ProofInputs(H, p) + BuildInputs(H, contents))
  {
    hide *;
    NoWrap(H, p);
    ContentPosition(H, p, 0);
    if !Collides(H, ProofInputs(H, p) + BuildInputs(H, contents)) {
      var left := RootOf(H, p).left;
      forall i | 0 <= i < |p.contents| ensures p.contents[i] == contents[left + i] {
        ContentBound(H, p, contents, i);
      }
    }
  }
}
