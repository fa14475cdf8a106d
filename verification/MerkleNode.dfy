/** The Merkle binary tree as the heap objects of common/mbt: nodes whose fields are overwritten in
    place. Every method is proved against the value functions of MerkleTree and MerkleProof. */
module MerkleNode {
  import opened Base
  import opened MerkleTree
  import opened MerkleProof
  import opened MerkleCut

  class Node {
    var l: Node?
    var r: Node?
    var h: Bytes
    var level: int
    var num: Int64
    ghost var tree: Tree
    ghost var Repr: set<Node>

    ghost predicate Valid()
      reads this, Repr
    {
      this in Repr
      && (l == null <==> r == null)
      && (l == null ==> tree == Block(level, num, h))
      && (l != null && r != null ==>
            l in Repr && r in Repr && l.Repr <= Repr && r.Repr <= Repr
            && this !in l.Repr && this !in r.Repr && l.Repr !! r.Repr
            && l.Valid() && r.Valid()
            && tree == Branch(l.tree, r.tree, level, num, h))
    }

    lemma Fields()
      requires Valid()
      ensures tree.num == num && tree.h == h
    {
    }

    constructor Leaf(level: int, num: Int64, h: Bytes)
      ensures Valid() && fresh(Repr) && tree == Block(level, num, h)
    {
      this.l, this.r, this.h, this.level, this.num := null, null, h, level, num;
      tree := Block(level, num, h);
      Repr := {this};
    }

    constructor Above(l: Node, r: Node, level: int, num: Int64)
      requires l.Valid() && r.Valid() && l.Repr !! r.Repr
      ensures Valid() && fresh(Repr - l.Repr - r.Repr)
      ensures tree == Branch(l.tree, r.tree, level, num, [])
    {
      this.l, this.r, this.h, this.level, this.num := l, r, [], level, num;
      tree := Branch(l.tree, r.tree, level, num, []);
      Repr := {this} + l.Repr + r.Repr;
    }

    method LazyAdd(k: Int64, v: Bytes) returns (n: Node)
      requires Valid()
      modifies Repr
      ensures n.Valid() && fresh(n.Repr - old(Repr))
      ensures n.tree == MerkleTree.LazyAdd(old(tree), k, v)
      decreases Repr, 1
    {
      hide LevelOf, MerkleTree.LazyAdd, Wrap;
      LazyAddCases(tree, k, v);
      var level' := NumberToLevel(k);
      if level == LEVEL_INIT {
        level, num, h := level', k, v;
        tree := tree.(level := level', num := k, h := v);
        n := this;
      } else if l != null && l.num != r.num {
        AddRight(k, v);
        n := this;
      } else {
        var leaf := new Node.Leaf(level', k, v);
        n := new Node.Above(this, leaf, level + 1, Wrap(num + k));
      }
    }

    /** Inserts below the right child. */
    method AddRight(k: Int64, v: Bytes)
      requires Valid() && r != null
      modifies Repr
      ensures Valid() && fresh(Repr - old(Repr))
      ensures old(tree).Branch?
      ensures tree == old(tree).(r := MerkleTree.LazyAdd(old(tree).r, k, v), num := Wrap(old(tree).num + k))
      decreases Repr, 0
    {
      hide MerkleTree.LazyAdd, Wrap;
      ghost var left, repr := l.Repr, Repr;
      var right := r.LazyAdd(k, v);
      assert l.Repr == left && l.Valid() && left !! right.Repr && this !in right.Repr;
      r, num := right, Wrap(num + k);
      tree := tree.(r := r.tree, num := num);
      Repr := repr + r.Repr;
    }

    /** Fills in missing hashes. A collapsed subtree without a hash has no children to hash: there the
        code panics. */
    method EnsureHash(H: HashFn) returns (ok: bool)
      requires Valid()
      modifies Repr
      ensures Valid() && Repr == old(Repr)
      ensures ok <==> old(Hashable(tree))
      ensures ok ==> tree == MerkleTree.EnsureHash(H, old(tree))
      decreases Repr
    {
      hide MerkleTree.EnsureHash, Hashable;
      EnsureHashCases(H, tree);
      if level < LEVEL_BRANCH || h != [] { return true; }
      if l == null { return false; }
      ok := HashChildren(H);
      if ok {
        h := H(l.h + r.h);
        tree := Branch(l.tree, r.tree, level, num, h);
      }
    }

    method HashChildren(H: HashFn) returns (ok: bool)
      requires Valid() && l != null
      modifies Repr
      ensures Valid() && Repr == old(Repr) && l == old(l) && r == old(r) && level == old(level) && num == old(num)
      ensures ok <==> old(Hashable(tree.l) && Hashable(tree.r))
      ensures ok ==> l.tree == MerkleTree.EnsureHash(H, old(tree.l)) && r.tree == MerkleTree.EnsureHash(H, old(tree.r))
      decreases Repr, 0
    {
      hide MerkleTree.EnsureHash, Hashable;
      ok := l.EnsureHash(H);
      if ok { ok := r.EnsureHash(H); }
      tree := Branch(l.tree, r.tree, level, num, h);
    }

    /** Returns the first shape error, if any. */
    method Verify() returns (e: Option<ShapeError>)
      requires Valid()
      ensures e == MerkleTree.Verify(tree)
      decreases Repr
    {
      if level == LEVEL_LEAF {
        return if num != 1 then Some(InvalidNumOfLeaf(1, num)) else None;
      }
      e := None;
      if l != null {
        if l.level < r.level { return Some(InvalidLevel(l.level, r.level)); }
        e := l.Verify();
        if e.Some? { return; }
        if level > LEVEL_BRANCH {
          var v := Shl(l.level - LEVEL_LEAF);
          if v != l.num { return Some(InvalidNumOfLeaf(v, l.num)); }
        }
        e := r.Verify();
      }
    }

    /** The siblings on the way to a leaf, collected from the leaf upwards. */
    method Proof(number: int) returns (pl: seq<ProofNode>, pr: seq<ProofNode>)
      requires Valid() && Cuttable(tree)
      ensures pl == Reverse(LeftOf(tree, number)) && pr == RightOf(tree, number)
      decreases Repr
    {
      if level < LEVEL_BRANCH { return [], []; }
      var maxNumChild := Shl(level - LEVEL_BRANCH);
      if number > maxNumChild {
        pl, pr := r.Proof(number - maxNumChild);
        pl := pl + [ProofNode(l.num, l.h)];
        ReverseCons(AsProofNode(tree.l), LeftOf(tree.r, number - maxNumChild));
      } else {
        pl, pr := l.Proof(number);
        pr := pr + [ProofNode(r.num, r.h)];
      }
    }

    method Path(number: int) returns (path: seq<PathNode>)
      requires Valid() && Cuttable(tree)
      ensures path == PathOf(tree, number)
      decreases Repr
    {
      if level < LEVEL_BRANCH { return []; }
      var maxNumChild := Shl(level - LEVEL_BRANCH);
      if number > maxNumChild {
        path := r.Path(number - maxNumChild);
        path := path + [PathNode(false, l.h)];
      } else {
        path := l.Path(number);
        path := path + [PathNode(true, r.h)];
      }
    }
  }

  lemma LazyAddCases(t: Tree, k: Int64, v: Bytes)
    ensures t.level == LEVEL_INIT ==> LazyAdd(t, k, v) == t.(level := LevelOf(k), num := k, h := v)
    ensures t.level != LEVEL_INIT && t.Branch? && t.l.num != t.r.num ==>
              LazyAdd(t, k, v) == t.(r := LazyAdd(t.r, k, v), num := Wrap(t.num + k))
    ensures t.level != LEVEL_INIT && !(t.Branch? && t.l.num != t.r.num) ==>
              LazyAdd(t, k, v) == Branch(t, Block(LevelOf(k), k, v), t.level + 1, Wrap(t.num + k), [])
  {
    hide LevelOf;
  }

  /** Every node of branch level has children. */
  predicate Cuttable(t: Tree) {
    if t.Block? then t.level < LEVEL_BRANCH else t.level >= LEVEL_BRANCH && Cuttable(t.l) && Cuttable(t.r)
  }

  function Reverse<T>(s: seq<T>): (r: seq<T>)
    ensures |r| == |s| && forall i :: 0 <= i < |s| ==> r[i] == s[|s| - 1 - i]
  {
    if s == [] then [] else Reverse(s[1..]) + [s[0]]
  }

  lemma ReverseCons<T>(x: T, s: seq<T>)
    ensures Reverse([x] + s) == Reverse(s) + [x]
  {
    assert ([x] + s)[1..] == s;
  }

  lemma {:induction false} CommitsCuttable(H: HashFn, a: seq<Bytes>, lo: nat, t: Tree)
    requires Commits(H, t, a, lo) && Unit(t)
    ensures Cuttable(t)
    decreases t
  {
    hide RootHash, SplitPoint;
    if t.Branch? {
      CommitsLevels(H, a, lo, t);
      CommitsCuttable(H, a, lo, t.l);
      CommitsCuttable(H, a, lo + t.l.num, t.r);
    }
  }

  /** The panic of hashing a collapsed subtree without a hash. */
  datatype NilChild = NilChild

  datatype TreeError = NilHashFunc | InvalidContent | OutOfRange | BeginAfterEnd

  class MerkleBinaryTree {
    var root: Node?
    var contents: seq<Bytes>
    const hashFunc: HashFn

    ghost predicate Valid()
      reads this, root, if root == null then {} else root.Repr
    {
      |contents| <= INT64_MAX && (root == null <==> contents == [])
      && (root != null ==> root.Valid() && root.tree == TreeOf(hashFunc, contents))
    }

    constructor (hashFunc: HashFn, contents: seq<Bytes>)
      requires |contents| <= INT64_MAX
      ensures Valid() && this.hashFunc == hashFunc && this.contents == contents
    {
      hide Build, MerkleTree.EnsureHash, Hashed;
      this.hashFunc, this.contents, root := hashFunc, contents, null;
      new;
      LeavesHashed(hashFunc, contents);
      if |contents| > 0 { root := Grow(hashFunc, LeafNodes(hashFunc, contents)); }
    }

    /** Adds the leaves one by one and hashes the tree. */
    static method Grow(H: HashFn, ps: seq<ProofNode>) returns (n: Node)
      requires Hashed(ps)
      ensures n.Valid() && fresh(n.Repr) && n.tree == MerkleTree.EnsureHash(H, Build(ps, |ps|))
    {
      hide Hashable, Build, Before, MerkleTree.EnsureHash, Wrap, Hashed, Node.Valid;
      n := new Node.Leaf(LEVEL_INIT, 0, []);
      BuildNone(ps);
      var sum;
      n, sum := AddBlocks(n, ps, 0, ps, 0);
      BuildHashable(ps, |ps|);
      var ok := n.EnsureHash(H);
    }

    /** Building from nullable contents with a nullable hash function, as callers do. */
    static method New(hashFunc: Option<HashFn>, contents: seq<Option<Bytes>>)
      returns (m: Result<MerkleBinaryTree, TreeError>)
      requires |contents| <= INT64_MAX
      ensures m == Err(NilHashFunc) <==> hashFunc.None?
      ensures m == Err(InvalidContent) <==> hashFunc.Some? && exists i :: 0 <= i < |contents| && contents[i].None?
      ensures m.Ok? || m.error == NilHashFunc || m.error == InvalidContent
      ensures m.Ok? ==> m.value.Valid() && m.value.hashFunc == hashFunc.value
      ensures m.Ok? ==> |m.value.contents| == |contents|
      ensures m.Ok? ==> forall i :: 0 <= i < |contents| ==> contents[i] == Some(m.value.contents[i])
    {
      if hashFunc.None? { return Err(NilHashFunc); }
      var cs: seq<Bytes> := [];
      for i := 0 to |contents|
        invariant |cs| == i && forall k :: 0 <= k < i ==> contents[k] == Some(cs[k])
      {
        if contents[i].None? { return Err(InvalidContent); }
        cs := cs + [contents[i].value];
      }
      var t := new MerkleBinaryTree(hashFunc.value, cs);
      m := Ok(t);
    }

    /** Root hash: nothing for an empty tree, else the reference root hash of the content hashes. */
    method Root() returns (h: Bytes)
      requires Valid()
      ensures h == if contents == [] then [] else RootHash(hashFunc, Leaves(hashFunc, contents), 0, |contents|)
    {
      if root == null { return []; }
      TreeOfCommits(hashFunc, contents);
      h := root.h;
    }

    method Get(number: int) returns (c: Result<Bytes, TreeError>)
      requires Valid()
      ensures c == if 1 <= number <= |contents| then Ok(contents[number - 1]) else Err(OutOfRange)
    {
      if number < 1 || number > |contents| { return Err(OutOfRange); }
      c := Ok(contents[number - 1]);
    }

    /** Cuts the proof of a range out of the tree. */
    method Cut(begin: int, end: int) returns (p: RangeProof)
      requires Valid() && 1 <= begin <= end <= |contents|
      ensures p == ProofOf(TreeOf(hashFunc, contents), contents, begin, end)
    {
      hide TreeOf, RootHash, Commits, Cuttable;
      if begin == 1 && end == |contents| {
        return RangeProof([], contents, []);
      }
      TreeOfCommits(hashFunc, contents);
      CommitsCuttable(hashFunc, Leaves(hashFunc, contents), 0, root.tree);
      var l: seq<ProofNode>, r: seq<ProofNode> := [], [];
      if begin == 1 {
        var unused;
        unused, r := root.Proof(end);
      } else {
        l, r := root.Proof(begin);
        if begin != end {
          if end == |contents| {
            r := [];
          } else {
            var unused;
            unused, r := root.Proof(end);
          }
        }
      }
      var inLeft := Reversed(l);
      p := RangeProof(inLeft, contents[begin - 1..end], r);
      assert begin > 1 ==> inLeft == LeftOf(root.tree, begin);
    }

    /** A proof for a range of contents. Whoever checks it gets the root hash of this tree, the
        number of contents before the range and the number of contents of this tree. */
    method Proof(begin: int, end: int) returns (p: Result<RangeProof, TreeError>)
      requires Valid()
      ensures p == Err(OutOfRange) <==> begin < 1 || end < 1 || end > |contents|
      ensures p == Err(BeginAfterEnd) <==> 1 <= end < begin && end <= |contents|
      ensures p.Ok? <==> 1 <= begin <= end <= |contents|
      ensures p.Ok? ==> p.value.contents == contents[begin - 1..end]
      ensures p.Ok? && FixedSize(hashFunc) ==> Hashed(p.value.left) && Hashed(p.value.right)
      ensures p.Ok? ==>
                && Covers(hashFunc, Leaves(hashFunc, contents), 0, p.value.left, begin - 1)
                && Covers(hashFunc, Leaves(hashFunc, contents), end, p.value.right, |contents|)
                && LargestBefore(0, p.value.left) && LargestAfter(end, p.value.right, |contents|)
                && |p.value.left| + |p.value.right| < 2 * LevelOf(|contents|) - 1
      ensures p.Ok? ==>
                RootOf(hashFunc, p.value) == RootResult(TreeOf(hashFunc, contents).h, begin - 1, |contents|, None)
    {
      hide RootOf, TreeOf, FixedSize, Hashed, LeftOf, RightOf, Covers, LargestBefore, LargestAfter, LevelOf;
      if begin < 1 || end < 1 || end > |contents| { return Err(OutOfRange); }
      if begin > end { return Err(BeginAfterEnd); }
      RangeProofComplete(hashFunc, contents, begin, end);
      RangeProofShape(hashFunc, contents, begin, end);
      if FixedSize(hashFunc) { RangeProofHashed(hashFunc, contents, begin, end); }
      var cut := Cut(begin, end);
      assert contents[0..end] == contents[..end];
      p := Ok(cut);
    }

    method Path(number: int) returns (p: Result<(Bytes, seq<PathNode>), TreeError>)
      requires Valid()
      ensures p == Err(OutOfRange) <==> number < 1 || number > |contents|
      ensures p.Ok? <==> 1 <= number <= |contents|
      ensures p.Ok? ==> p.value.0 == contents[number - 1]
      ensures p.Ok? ==> PathRoot(hashFunc, hashFunc(p.value.0), p.value.1, |p.value.1|) == TreeOf(hashFunc, contents).h
    {
      if number < 1 || number > |contents| { return Err(OutOfRange); }
      TreeOfCommits(hashFunc, contents);
      CommitsCuttable(hashFunc, Leaves(hashFunc, contents), 0, root.tree);
      PathComplete(hashFunc, contents, number);
      var path := root.Path(number);
      p := Ok((contents[number - 1], path));
    }
  }

  lemma EnsureHashCases(H: HashFn, t: Tree)
    ensures t.level < LEVEL_BRANCH || t.h != [] ==> Hashable(t) && MerkleTree.EnsureHash(H, t) == t
    ensures t.level >= LEVEL_BRANCH && t.h == [] ==> (Hashable(t) <==> t.Branch? && Hashable(t.l) && Hashable(t.r))
    ensures t.level >= LEVEL_BRANCH && t.h == [] && t.Branch? ==>
              var l, r := MerkleTree.EnsureHash(H, t.l), MerkleTree.EnsureHash(H, t.r);
                 MerkleTree.EnsureHash(H, t) == Branch(l, r, t.level, t.num, H(l.h + r.h))
  {
  }

  /** Fills a list from its end. */
  method Reversed(l: seq<ProofNode>) returns (out: seq<ProofNode>)
    ensures |out| == |l| && forall k :: 0 <= k < |l| ==> out[k] == l[|l| - 1 - k]
  {
    var buffer := new ProofNode[|l|](_ => ProofNode(0, []));
    var j := |l| - 1;
    for i := 0 to |l|
      invariant j == |l| - 1 - i
      invariant forall k :: j < k < |l| ==> buffer[k] == l[|l| - 1 - k]
    {
      buffer[j] := l[i];
      j := j - 1;
    }
    out := buffer[..];
  }

  /** Lazily inserts some blocks; `all` and `from` only say where they are in the whole run. */
  method AddBlocks(n: Node, ps: seq<ProofNode>, start: Int64, ghost all: seq<ProofNode>, ghost from: nat)
    returns (n': Node, sum: Int64)
    requires n.Valid() && from + |ps| <= |all| && n.tree == Build(all, from)
    requires forall i :: 0 <= i < |ps| ==> all[from + i] == ps[i]
    modifies n.Repr
    ensures n'.Valid() && fresh(n'.Repr - old(n.Repr))
    ensures n'.tree == Build(all, from + |ps|) && sum == Wrap(start + Before(ps, |ps|))
  {
    hide Wrap, LazyAdd;
    n', sum := n, start;
    WrapSmall(start);
    for i := 0 to |ps|
      invariant n'.Valid() && fresh(n'.Repr - old(n.Repr))
      invariant n'.tree == Build(all, from + i) && sum == Wrap(start + Before(ps, i))
    {
      WrapAdd(start + Before(ps, i), ps[i].num);
      n' := n'.LazyAdd(ps[i].num, ps[i].value);
      sum := Wrap(sum + ps[i].num);
    }
  }

  /** Checking a proof: rebuild the tree from its pieces, hash it and check its shape. */
  method Root(H: HashFn, p: RangeProof) returns (res: Result<RootResult, NilChild>)
    ensures res == Err(NilChild) <==> !Hashable(Rebuilt(H, p))
    ensures Hashed(p.left) && Hashed(p.right) ==> res.Ok?
    ensures res.Ok? ==> res.value == RootOf(H, p)
  {
    hide Hashed, Hashable, Build, Pieces, LeafNodes, Before, MerkleTree.Verify, MerkleTree.EnsureHash, Node.Valid, Wrap;
    ghost var ps := Pieces(H, p);
    PiecesOf(H, p);
    if Hashed(ps) { BuildHashable(ps, |ps|); }
    BuildNone(ps);
    LeafNodesBefore(H, p.contents, |p.contents|);
    var left, total;
    var r := new Node.Leaf(LEVEL_INIT, 0, []);
    r, left := AddBlocks(r, p.left, 0, ps, 0);
    r, total := AddBlocks(r, LeafNodes(H, p.contents), 0, ps, |p.left|);
    r, total := AddBlocks(r, p.right, total, ps, |p.left| + |p.contents|);
    var ok := r.EnsureHash(H);
    if !ok { return Err(NilChild); }
    r.Fields();
    TotalWraps(p);
    total := Wrap(left as int + total as int);
    if r.num != total {
      return Ok(RootResult(r.h, left, total, Some(TotalMismatch(total, r.num))));
    }
    var e := r.Verify();
    res := Ok(RootResult(r.h, left, total, if e.Some? then Some(BadShape(e.value)) else None));
  }

  lemma LeavesHashed(H: HashFn, contents: seq<Bytes>)
    ensures Hashed(LeafNodes(H, contents))
  {
  }

  lemma WrapSmall(x: Int64)
    ensures Wrap(x) == x
  {
  }

  /** The sums of the code, each cut to 64 bits, give the true total cut to 64 bits. */
  lemma TotalWraps(p: RangeProof)
    ensures Wrap(Wrap(Before(p.left, |p.left|)) + Wrap(Wrap(0 + |p.contents|) + Before(p.right, |p.right|)))
         == Wrap(TrueTotal(p))
  {
    hide Wrap, Before;
    var l, n, r := Before(p.left, |p.left|), |p.contents|, Before(p.right, |p.right|);
    WrapAdd(n, r);
    WrapAdd(l, Wrap(n + r));
    WrapAdd(n + r, l);
  }

  method RootByPath(H: HashFn, content: Bytes, path: seq<PathNode>) returns (h: Bytes)
    ensures h == PathRoot(H, H(content), path, |path|)
  {
    h := H(content);
    for i := 0 to |path|
      invariant h == PathRoot(H, H(content), path, i)
    {
      h := if path[i].right then H(h + path[i].value) else H(path[i].value + h);
    }
  }
}
