/** What the check of a range proof does not look at: the counts of the collapsed subtrees. Binding holds
    for every proof whose counts are positive and do not add up to more than 2^64, and for no weaker
    bounds on the counts and their sum. */
module MerkleCounts {
  import opened Base
  import opened PowersOfTwo
  import opened MerkleTree
  import opened MerkleProof

  /** No collapsed subtree of the proof has fewer leaves than this. */
  predicate CountsFrom(p: RangeProof, least: int) {
    && (forall i :: 0 <= i < |p.left| ==> p.left[i].num >= least)
    && forall i :: 0 <= i < |p.right| ==> p.right[i].num >= least
  }

  /** The proof is accepted, with the root hash and the size of the tree of the contents. */
  ghost predicate Passes(H: HashFn, p: RangeProof, contents: seq<Bytes>) {
    && p.contents != [] && contents != [] && RootOf(H, p).err.None?
    && RootOf(H, p).h == TreeOf(H, contents).h && RootOf(H, p).total == |contents|
  }

  /** The proof carries the contents at its positions, or two of the inputs hashed collide. */
  ghost predicate IsBound(H: HashFn, p: RangeProof, contents: seq<Bytes>)
    requires contents != []
  {
    var left := RootOf(H, p).left;
    && 0 <= left && left + |p.contents| <= |contents|
    && (p.contents == contents[left..left + |p.contents|] || Collides(H, ProofInputs(H, p) + BuildInputs(H, contents)))
  }

  /** All proofs whose counts are at least `least` and whose true total is at most `most` are bound to the
      contents. */
  ghost predicate Binds(H: HashFn, least: int, most: int) {
    forall p: RangeProof, contents: seq<Bytes> ::
      Passes(H, p, contents) && CountsFrom(p, least) && TrueTotal(p) <= most ==> IsBound(H, p, contents)
  }

  /** A caller has to refuse counts below 1 and a true total above 2^64, and nothing less will do: binding
      holds for all proofs within some bounds exactly if these are at least that strict. The hash
      function only has to tell a few inputs apart. */
  lemma {:induction false} CountCheckIsExact(H: HashFn, least: int, most: int, x: Bytes, v: Bytes)
    requires FixedSize(H) && least <= WIDE && most >= 1 && v != []
    requires H(x) != H(H(x) + v) && WideContent(H, v, x) != x && !Collides(H, WideInputs(H, v, x))
    ensures Binds(H, least, most) <==> least >= 1 && most <= TWO_TO_THE_64
  {
    hide *;
    if least < 1 {
      ZeroCount(H, x, v);
      NotBinding(H, least, most, ZeroProof(x, v), [H(x) + v]);
    } else if most <= TWO_TO_THE_64 {
      PositiveBinds(H, least, most);
    } else {
      WideCount(H, v, x);
      WideWithin(v, x, least, most);
      NotBinding(H, least, most, WideProof(v, x), [WideContent(H, v, x)]);
    }
  }

  lemma PositiveBinds(H: HashFn, least: int, most: int)
    requires FixedSize(H) && least >= 1 && most <= TWO_TO_THE_64
    ensures Binds(H, least, most)
  {
    hide RootOf, TreeOf, ProofInputs, BuildInputs, Collides, FixedSize, TrueTotal;
    forall p: RangeProof, contents: seq<Bytes> |
      Passes(H, p, contents) && CountsFrom(p, least) && TrueTotal(p) <= most
      ensures IsBound(H, p, contents)
    {
      RangeProofBinding(H, p, contents);
    }
  }

  lemma NotBinding(H: HashFn, least: int, most: int, p: RangeProof, contents: seq<Bytes>)
    requires CountsFrom(p, least) && TrueTotal(p) <= most && Passes(H, p, contents) && !IsBound(H, p, contents)
    ensures !Binds(H, least, most)
  {
    hide Passes, IsBound, CountsFrom, TrueTotal;
  }

  // ----- a count of zero

  function ZeroProof(x: Bytes, v: Bytes): (p: RangeProof) {
    RangeProof([], [x], [ProofNode(0, v)])
  }

  /** A subtree without leaves still adds its hash: a single content of the form H(x) + v passes for the
      content x. */
  lemma {:induction false} ZeroCount(H: HashFn, x: Bytes, v: Bytes)
    requires H(x) != H(H(x) + v)
    ensures forall least :: least <= 0 ==> CountsFrom(ZeroProof(x, v), least)
    ensures TrueTotal(ZeroProof(x, v)) == 1
    ensures Passes(H, ZeroProof(x, v), [H(x) + v]) && !IsBound(H, ZeroProof(x, v), [H(x) + v])
  {
    hide RootOf, TreeOf, ProofInputs, BuildInputs;
    assert Before(ZeroProof(x, v).right, 1) == Before(ZeroProof(x, v).right, 0);
    ZeroRoot(H, x, v);
    ZeroInputs(H, x, v);
    assert [H(x) + v][0..1] == [H(x) + v];
    assert [x][0] != [H(x) + v][0];
  }

  lemma {:induction false} ZeroRoot(H: HashFn, x: Bytes, v: Bytes)
    ensures RootOf(H, ZeroProof(x, v)) == RootResult(H(H(x) + v), 0, 1, None)
    ensures TreeOf(H, [H(x) + v]).h == H(H(x) + v)
  {
    hide Rebuilt;
    var y, p := H(x) + v, ZeroProof(x, v);
    ZeroRebuilt(H, x, v);
    var l, r := Block(1, 1, H(x)), Block(0, 0, v);
    assert EnsureHash(H, l) == l && EnsureHash(H, r) == r && l.h + r.h == y;
    var t := EnsureHash(H, Rebuilt(H, p));
    assert t == Branch(Block(1, 1, H(x)), Block(0, 0, v), 2, 1, H(y));
    assert Verify(t.l) == None && Verify(t.r) == None;
    assert Before(p.right, 1) == Before(p.right, 0) + 0;
    assert LevelOf(1) == 1;
    var ps := LeafNodes(H, [y]);
    assert Build(ps, 1) == LazyAdd(Build(ps, 0), 1, H(y)) == Block(1, 1, H(y));
  }

  lemma {:induction false} ZeroInputs(H: HashFn, x: Bytes, v: Bytes)
    requires H(x) != H(H(x) + v)
    ensures !Collides(H, ProofInputs(H, ZeroProof(x, v)) + BuildInputs(H, [H(x) + v]))
  {
    hide Rebuilt;
    var y, p := H(x) + v, ZeroProof(x, v);
    ZeroRebuilt(H, x, v);
    var t := Rebuilt(H, p);
    assert EnsureHash(H, t.l) == t.l && EnsureHash(H, t.r) == t.r;
    assert TreeInputs(H, t) == {y} + TreeInputs(H, t.l) + TreeInputs(H, t.r) == {y};
    OneContent(x);
    OneContent(y);
    assert Preimages(H, Leaves(H, [y]), 0, 1) == {};
  }

  lemma OneContent(x: Bytes)
    ensures (set i | 0 <= i < |[x]| :: [x][i]) == {x}
  {
    var s := set i | 0 <= i < |[x]| :: [x][i];
    assert [x][0] in s;
  }

  lemma {:induction false} ZeroRebuilt(H: HashFn, x: Bytes, v: Bytes)
    ensures Rebuilt(H, ZeroProof(x, v)) == Branch(Block(1, 1, H(x)), Block(0, 0, v), 2, 1, [])
  {
    var ps := Pieces(H, ZeroProof(x, v));
    assert ps == [ProofNode(1, H(x)), ProofNode(0, v)];
    assert LevelOf(1) == 1 && LevelOf(0) == 0;
    assert Build(ps, 1) == LazyAdd(Build(ps, 0), 1, H(x)) == Block(1, 1, H(x));
    assert Build(ps, 2) == LazyAdd(Build(ps, 1), 0, v);
  }

  // ----- counts that wrap

  const WIDE: int := 0x4000_0000_0000_0000

  /** Four subtrees that add up to 2^64 leaves, and one content. */
  function WideProof(v: Bytes, x: Bytes): (p: RangeProof) {
    RangeProof([ProofNode(WIDE, v), ProofNode(WIDE, v), ProofNode(WIDE, v), ProofNode(WIDE, v)], [x], [])
  }

  function WideContent(H: HashFn, v: Bytes, x: Bytes): (y: Bytes) {
    H(H(v + v) + H(v + v)) + H(x)
  }

  function WideInputs(H: HashFn, v: Bytes, x: Bytes): (s: set<Bytes>) {
    {v + v, H(v + v) + H(v + v), WideContent(H, v, x), x}
  }

  /** Positive counts are not enough: four subtrees of 2^62 leaves each count as none in 64 bits, and the
      shift of the shape check wraps to the same number. A single content of the right form passes for
      the content x. */
  lemma {:induction false} WideCount(H: HashFn, v: Bytes, x: Bytes)
    requires v != [] && WideContent(H, v, x) != x && !Collides(H, WideInputs(H, v, x))
    ensures CountsFrom(WideProof(v, x), 1) && Hashed(WideProof(v, x).left) && Hashed(WideProof(v, x).right)
    ensures TrueTotal(WideProof(v, x)) == TWO_TO_THE_64 + 1
    ensures RootOf(H, WideProof(v, x)) == RootResult(TreeOf(H, [WideContent(H, v, x)]).h, 0, 1, None)
    ensures Passes(H, WideProof(v, x), [WideContent(H, v, x)]) && !IsBound(H, WideProof(v, x), [WideContent(H, v, x)])
  {
    hide RootOf, TreeOf, ProofInputs, BuildInputs, Collides, Before;
    var y := WideContent(H, v, x);
    WideRoot(H, v, x);
    WideHashed(H, v, x);
    WideTotals(v, x);
    assert [y][0..1] == [y];
    assert [x][0] != [y][0];
  }

  lemma WideWithin(v: Bytes, x: Bytes, least: int, most: int)
    requires least <= WIDE && most > TWO_TO_THE_64
    ensures CountsFrom(WideProof(v, x), least) && TrueTotal(WideProof(v, x)) <= most
  {
    hide Before;
    WideTotals(v, x);
  }

  lemma WideTotals(v: Bytes, x: Bytes)
    ensures Before(WideProof(v, x).left, 4) == TWO_TO_THE_64 && Before(WideProof(v, x).right, 0) == 0
  {
    var ps := WideProof(v, x).left;
    assert Before(ps, 1) == Before(ps, 0) + WIDE;
    assert Before(ps, 2) == Before(ps, 1) + WIDE;
    assert Before(ps, 3) == Before(ps, 2) + WIDE;
    assert Before(ps, 4) == Before(ps, 3) + WIDE;
  }

  /** Two subtrees of 2^62 leaves: their number wraps. */
  function WidePair(v: Bytes): (t: Tree) {
    Branch(Block(63, WIDE, v), Block(63, WIDE, v), 64, INT64_MIN, [])
  }

  function WideTree(H: HashFn, v: Bytes, x: Bytes): (t: Tree) {
    Branch(Branch(WidePair(v), WidePair(v), 65, 0, []), Block(1, 1, H(x)), 66, 1, [])
  }

  lemma WideLevels()
    ensures LevelOf(WIDE) == 63 && LevelOf(1) == 1
    ensures Shl(62) == WIDE && Shl(63) == INT64_MIN && Shl(64) == 0
  {
    hide Pow2, BitLen, IsPow2;
    LastPowers();
    Pow2IsPow2(62);
    LevelUnique(1, 1);
  }

  /** Twice 2^62 is negative, and four times 2^62 is nothing. */
  lemma WideSums()
    ensures Wrap(WIDE + WIDE) == INT64_MIN && Wrap(INT64_MIN + WIDE) == 0 - WIDE
    ensures Wrap(0 - WIDE + WIDE) == 0 && Wrap(0 + 1) == 1
  {
  }

  lemma {:induction false} WideRebuilt(H: HashFn, v: Bytes, x: Bytes)
    ensures Rebuilt(H, WideProof(v, x)) == WideTree(H, v, x)
  {
    hide Build, LevelOf, Shl, Wrap;
    WideSums();
    var ps, b := Pieces(H, WideProof(v, x)), Block(63, WIDE, v);
    WideLevels();
    assert ps == WideProof(v, x).left + [ProofNode(1, H(x))];
    BuildNone(ps);
    BuildLast(ps, 1);
    BuildLast(ps, 2);
    BuildLast(ps, 3);
    BuildLast(ps, 4);
    BuildLast(ps, 5);
    assert Build(ps, 1) == b;
    assert Build(ps, 2) == WidePair(v);
    assert Build(ps, 3) == Branch(WidePair(v), b, 65, 0 - WIDE, []);
    assert Build(ps, 4) == Branch(WidePair(v), WidePair(v), 65, 0, []);
  }

  lemma {:induction false} WideShape(H: HashFn, v: Bytes, x: Bytes)
    ensures Verify(WideTree(H, v, x)).None?
  {
    hide LevelOf, Shl;
    WideLevels();
    var t := WideTree(H, v, x);
    assert Verify(WidePair(v).l).None?;
    assert Verify(WidePair(v)).None?;
    assert Verify(t.l).None?;
    assert Verify(t.r).None?;
  }

  lemma {:induction false} WideHash(H: HashFn, v: Bytes, x: Bytes)
    requires v != []
    ensures EnsureHash(H, WideTree(H, v, x)).h == H(WideContent(H, v, x))
    ensures TreeInputs(H, WideTree(H, v, x)) <= WideInputs(H, v, x)
  {
    var t, pair := WideTree(H, v, x), WidePair(v);
    assert EnsureHash(H, pair.l) == pair.l;
    assert EnsureHash(H, pair).h == H(v + v);
    assert EnsureHash(H, t.l).h == H(H(v + v) + H(v + v));
    assert EnsureHash(H, t.r) == t.r;
    assert TreeInputs(H, pair) == {v + v};
    assert TreeInputs(H, t.l) == {H(v + v) + H(v + v), v + v};
  }

  lemma {:induction false} WideRoot(H: HashFn, v: Bytes, x: Bytes)
    requires v != []
    ensures RootOf(H, WideProof(v, x)) == RootResult(H(WideContent(H, v, x)), 0, 1, None)
    ensures TreeOf(H, [WideContent(H, v, x)]).h == H(WideContent(H, v, x))
  {
    hide Rebuilt, WideTree, Before, Verify, EnsureHash, WideContent;
    WideRebuilt(H, v, x);
    WideHash(H, v, x);
    WideShape(H, v, x);
    WideTotals(v, x);
    EnsureHashVerify(H, WideTree(H, v, x));
    assert WideTree(H, v, x).num == 1 by { WideSize(H, v, x); }
    SingleTree(H, WideContent(H, v, x));
  }

  lemma WideSize(H: HashFn, v: Bytes, x: Bytes)
    ensures WideTree(H, v, x).num == 1
  {
  }

  lemma SingleTree(H: HashFn, y: Bytes)
    ensures TreeOf(H, [y]).h == H(y)
  {
    var ps := LeafNodes(H, [y]);
    LevelUnique(1, 1);
    assert Build(ps, 1) == LazyAdd(Build(ps, 0), 1, H(y));
  }

  lemma {:induction false} WideHashed(H: HashFn, v: Bytes, x: Bytes)
    requires v != [] && !Collides(H, WideInputs(H, v, x))
    ensures !Collides(H, ProofInputs(H, WideProof(v, x)) + BuildInputs(H, [WideContent(H, v, x)]))
  {
    hide Rebuilt, WideTree, TreeInputs, EnsureHash, Collides;
    var y, p := WideContent(H, v, x), WideProof(v, x);
    WideRebuilt(H, v, x);
    WideHash(H, v, x);
    OneContent(x);
    OneContent(y);
    assert Preimages(H, Leaves(H, [y]), 0, 1) == {};
    FewerInputs(H, ProofInputs(H, p) + BuildInputs(H, [y]), WideInputs(H, v, x));
  }

  // ----- negative counts

  /** The third quarter of the contents, with twice too many leaves claimed on its left and as many leaves
      as it has itself taken away on its right. */
  function ShiftedProof(H: HashFn, contents: seq<Bytes>, q: nat): (p: RangeProof)
    requires q >= 1 && |contents| == 4 * q <= INT64_MAX
  {
    var a := Leaves(H, contents);
    RangeProof([ProofNode(4 * q, RootHash(H, a, 0, 2 * q))], contents[2 * q..3 * q],
               [ProofNode(0 - q, RootHash(H, a, 3 * q, 4 * q))])
  }

  /** For every tree of 16, 32, 64 ... contents a proof with a negative count is accepted, with the root hash
      and the size of the tree, whose contents are said to come after all contents of the tree. No
      collision is involved. */
  lemma {:induction false} NegativeCount(H: HashFn, contents: seq<Bytes>, j: nat)
    requires FixedSize(H) && j >= 2 && |contents| == 4 * Pow2(j) <= INT64_MAX
    ensures var p := ShiftedProof(H, contents, Pow2(j));
            && p.contents != [] && Hashed(p.left) && Hashed(p.right)
            && RootOf(H, p) == RootResult(TreeOf(H, contents).h, |contents|, |contents|, None)
            && Passes(H, p, contents) && !IsBound(H, p, contents)
  {
    hide *;
    var q := Pow2(j);
    var p := ShiftedProof(H, contents, q);
    QuarterSize(H, contents, j);
    ShiftedRoot(H, contents, j);
    BeyondTheTree(H, p, contents);
  }

  lemma QuarterSize(H: HashFn, contents: seq<Bytes>, j: nat)
    requires FixedSize(H) && |contents| == 4 * Pow2(j) <= INT64_MAX
    ensures |ShiftedProof(H, contents, Pow2(j)).contents| == Pow2(j) >= 1
    ensures Hashed(ShiftedProof(H, contents, Pow2(j)).left) && Hashed(ShiftedProof(H, contents, Pow2(j)).right)
  {
    hide RootHash;
    var q, a := Pow2(j), Leaves(H, contents);
    RootHashSize(H, a, 0, 2 * q);
    RootHashSize(H, a, 3 * q, 4 * q);
  }

  lemma BeyondTheTree(H: HashFn, p: RangeProof, contents: seq<Bytes>)
    requires p.contents != [] && 1 <= |contents| <= INT64_MAX
    requires RootOf(H, p) == RootResult(TreeOf(H, contents).h, |contents|, |contents|, None)
    ensures Passes(H, p, contents) && !IsBound(H, p, contents)
  {
    hide RootOf, TreeOf, ProofInputs, BuildInputs, Collides;
  }

  /** Single leaves after a large block gather in a tree of their own beside it. */
  lemma {:induction false} LeavesBeside(H: HashFn, ps: seq<ProofNode>, part: seq<Bytes>, i: nat)
    requires 1 <= i <= |part| < |ps| && ps[0].num > i && ps[0].num + i <= INT64_MAX
    requires forall k :: 0 <= k < |part| ==> ps[1 + k] == LeafNodes(H, part)[k]
    ensures Build(ps, 1 + i)
         == Branch(AsBlock(ps[0]), Build(LeafNodes(H, part), i), LevelOf(ps[0].num) + 1, ps[0].num + i, [])
  {
    hide LevelOf, Build, WellCounted, Before;
    var ls := LeafNodes(H, part);
    BuildLast(ps, 1 + i);
    BuildLast(ls, i);
    if i > 1 {
      LeafNodesBefore(H, part, i - 1);
      BuildCounts(ls, i - 1);
      LeavesBeside(H, ps, part, i - 1);
    } else {
      BuildLast(ps, 1);
      BuildNone(ls);
      BuildNone(ps);
      LevelPositive(ps[0].num);
    }
  }

  lemma LevelPositive(n: int)
    requires n >= 1
    ensures LevelOf(n) >= 1
  {
  }

  /** A power of two of single leaves gives a perfect tree. */
  lemma {:induction false} PerfectLeaves(H: HashFn, part: seq<Bytes>, j: nat)
    requires j >= 1 && |part| == Pow2(j) <= INT64_MAX
    ensures var t := Build(LeafNodes(H, part), |part|);
            && t.Branch? && t.num == |part| && t.l.num == t.r.num && t.level == j + 1 && Verify(t).None?
  {
    hide Verify, LazyAdd, Build, Unit, RootHash;
    var t := Build(LeafNodes(H, part), |part|);
    assert |part| >= 2 by { Pow2Monotone(1, j); assert Pow2(1) == 2 * Pow2(0); }
    LeafTree(H, part);
    Pow2IsPow2(j);
    LeftCompleteLevel(t);
    VerifyIffLeftComplete(t);
    BuildUnit(H, part, |part|);
    UnitBranch(t);
    WellCountedChildren(t);
    assert Pow2(j) == 2 * Pow2(j - 1);
  }

  lemma {:induction false} LeafTree(H: HashFn, part: seq<Bytes>)
    requires 1 <= |part| <= INT64_MAX
    ensures var t := Build(LeafNodes(H, part), |part|);
            WellCounted(t) && LeftComplete(t) && t.num == |part|
  {
    hide RootHash, LazyAdd, Build, Denotes;
    var n := |part|;
    assert part[0..n] == part;
    CoversLeaves(H, part, 0, n);
    Pow2IsPow2(0);
    BuildStanding(H, Leaves(H, part), LeafNodes(H, part), n, n);
    LeafNodesBefore(H, part, n);
    BuildCounts(LeafNodes(H, part), n);
  }

  lemma UnitBranch(t: Tree)
    requires Unit(t) && t.num >= 2
    ensures t.Branch?
  {
  }

  lemma {:induction false} ShiftedRebuilt(H: HashFn, contents: seq<Bytes>, j: nat)
    requires j >= 2 && |contents| == 4 * Pow2(j) <= INT64_MAX
    ensures var q := Pow2(j);
            var p := ShiftedProof(H, contents, q);
            var r := Build(LeafNodes(H, p.contents), q);
            var right := Branch(r, Block(3, -q, p.right[0].value), j + 2, 0, []);
            Rebuilt(H, p) == Branch(AsBlock(p.left[0]), right, j + 4, 4 * q, [])
  {
    hide *;
    var q := Pow2(j);
    var p := ShiftedProof(H, contents, q);
    var ps, part := Pieces(H, p), p.contents;
    ShiftedParts(H, contents, q);
    QuarterWraps(j);
    PiecesOf(H, p);
    assert ps[0] == p.left[0] && ps[1 + q] == p.right[0];
    LeavesBeside(H, ps, part, q);
    PerfectLeaves(H, part, j);
    QuarterLevels(j);
    BuildLast(ps, q + 2);
    AddBeside(AsBlock(ps[0]), Build(LeafNodes(H, part), q), j + 4, 5 * q, 0 - q, p.right[0].value);
  }

  lemma ShiftedParts(H: HashFn, contents: seq<Bytes>, q: nat)
    requires q >= 1 && |contents| == 4 * q <= INT64_MAX
    ensures var p := ShiftedProof(H, contents, q);
            && |p.left| == |p.right| == 1 && |p.contents| == q && p.left[0].num == 4 * q && p.right[0].num == 0 - q
            && AsBlock(p.left[0]) == Block(LevelOf(4 * q), 4 * q, p.left[0].value)
  {
    hide RootHash;
  }

  lemma QuarterLevels(j: nat)
    ensures LevelOf(4 * Pow2(j)) == j + 3 && Pow2(j) >= 1 && LevelOf(0 - Pow2(j)) == 3
  {
    hide BitLen, IsPow2;
    assert Pow2(j + 2) == 2 * Pow2(j + 1) == 4 * Pow2(j);
    Pow2IsPow2(j + 2);
  }

  /** The counts of the shifted proof do not wrap on the way. */
  lemma QuarterWraps(j: nat)
    requires 4 * Pow2(j) <= INT64_MAX
    ensures 5 * Pow2(j) <= INT64_MAX
    ensures Wrap(Pow2(j) + (0 - Pow2(j))) == 0 && Wrap(5 * Pow2(j) + (0 - Pow2(j))) == 4 * Pow2(j)
  {
    hide Pow2;
    Pow2Double(j + 1);
    Pow2Double(j + 2);
    LastPowers();
    if j + 2 >= 63 { Pow2Monotone(63, j + 2); } else { Pow2Monotone(j + 2, 62); }
  }

  /** A block added after a large block and a perfect tree beside it goes beside the perfect tree. */
  lemma AddBeside(b: Tree, r: Tree, level: int, num: Int64, k: Int64, v: Bytes)
    requires b.num != r.num && level > 0 && r.level > 0 && r.Branch? && r.l.num == r.r.num
    ensures LazyAdd(Branch(b, r, level, num, []), k, v)
         == Branch(b, Branch(r, Block(LevelOf(k), k, v), r.level + 1, Wrap(r.num + k), []), level, Wrap(num + k), [])
  {
    hide LevelOf;
  }

  lemma BuildLast(ps: seq<ProofNode>, n: nat)
    requires 0 < n <= |ps|
    ensures Build(ps, n) == LazyAdd(Build(ps, n - 1), ps[n - 1].num, ps[n - 1].value)
  {
  }

  /** The shape check does not notice. */
  lemma {:induction false} ShiftedShape(H: HashFn, contents: seq<Bytes>, j: nat)
    requires j >= 2 && |contents| == 4 * Pow2(j) <= INT64_MAX
    ensures Verify(Rebuilt(H, ShiftedProof(H, contents, Pow2(j)))).None?
  {
    hide *;
    var q := Pow2(j);
    var p := ShiftedProof(H, contents, q);
    ShiftedRebuilt(H, contents, j);
    ShiftedParts(H, contents, q);
    PerfectLeaves(H, p.contents, j);
    QuarterLevels(j);
    Pow2Double(j + 1);
    Pow2Double(j + 2);
    ShlFits(j);
    ShlFits(j + 2);
    var t := Rebuilt(H, p);
    VerifyHigh(t.r.r);
    VerifyHigh(t.l);
    VerifyBranch(t.r);
    VerifyBranch(t);
  }

  lemma {:induction false} RootHashPart(H: HashFn, a: seq<Bytes>, b: seq<Bytes>, off: nat, lo: nat, hi: nat)
    requires lo < hi <= |b| && off + |b| <= |a| && b == a[off..off + |b|]
    ensures RootHash(H, b, lo, hi) == RootHash(H, a, off + lo, off + hi)
    decreases hi - lo
  {
    hide SplitPoint;
    if hi > lo + 1 {
      var m := lo + SplitPoint(hi - lo);
      RootHashPart(H, a, b, off, lo, m);
      RootHashPart(H, a, b, off, m, hi);
    }
  }

  lemma {:induction false} QuarterHash(H: HashFn, contents: seq<Bytes>, lo: nat, hi: nat)
    requires lo < hi <= |contents| <= INT64_MAX
    ensures EnsureHash(H, Build(LeafNodes(H, contents[lo..hi]), hi - lo)).h == RootHash(H, Leaves(H, contents), lo, hi)
  {
    hide RootHash, EnsureHash, Build, Commits, Unit;
    var part := contents[lo..hi];
    TreeOfCommits(H, part);
    var a, b := Leaves(H, contents), Leaves(H, part);
    assert b == a[lo..hi];
    RootHashPart(H, a, b, lo, 0, hi - lo);
  }

  lemma {:induction false} SplitPerfect(k: nat)
    ensures Pow2(k + 1) == 2 * Pow2(k) && SplitPoint(2 * Pow2(k)) == Pow2(k)
  {
    assert Pow2(k + 1) == 2 * Pow2(k);
    Pow2IsPow2(k + 1);
  }

  lemma {:induction false} RootHashQuarters(H: HashFn, a: seq<Bytes>, j: nat)
    requires |a| == 4 * Pow2(j)
    ensures var q := Pow2(j);
            RootHash(H, a, 0, 4 * q) ==
              H(RootHash(H, a, 0, 2 * q) + H(RootHash(H, a, 2 * q, 3 * q) + RootHash(H, a, 3 * q, 4 * q)))
  {
    hide RootHash, SplitPoint, BitLen;
    var q := Pow2(j);
    SplitPerfect(j + 1);
    SplitPerfect(j);
    RootHashSplit(H, a, 0, 2 * q, 4 * q);
    RootHashSplit(H, a, 2 * q, 3 * q, 4 * q);
  }

  lemma {:induction false} ShiftedHash(H: HashFn, contents: seq<Bytes>, j: nat)
    requires j >= 2 && |contents| == 4 * Pow2(j) <= INT64_MAX
    ensures EnsureHash(H, Rebuilt(H, ShiftedProof(H, contents, Pow2(j)))).h == TreeOf(H, contents).h
  {
    hide RootHash, Build, Rebuilt, TreeOf, Commits, Unit;
    var q := Pow2(j);
    var p := ShiftedProof(H, contents, q);
    ShiftedRebuilt(H, contents, j);
    QuarterHash(H, contents, 2 * q, 3 * q);
    RootHashQuarters(H, Leaves(H, contents), j);
    TreeOfCommits(H, contents);
    var t := Rebuilt(H, p);
    assert EnsureHash(H, t.r.r) == t.r.r && EnsureHash(H, t.l) == t.l;
    assert EnsureHash(H, t.r).h == H(EnsureHash(H, t.r.l).h + t.r.r.h);
  }

  lemma {:induction false} ShiftedRoot(H: HashFn, contents: seq<Bytes>, j: nat)
    requires j >= 2 && |contents| == 4 * Pow2(j) <= INT64_MAX
    ensures RootOf(H, ShiftedProof(H, contents, Pow2(j))) ==
              RootResult(TreeOf(H, contents).h, |contents|, |contents|, None)
  {
    hide RootHash, Build, Rebuilt, TreeOf, Verify, EnsureHash;
    var q := Pow2(j);
    var p := ShiftedProof(H, contents, q);
    ShiftedRebuilt(H, contents, j);
    ShiftedHash(H, contents, j);
    ShiftedShape(H, contents, j);
    EnsureHashVerify(H, Rebuilt(H, p));
    assert Before(p.left, 1) == Before(p.left, 0) + 4 * q;
    assert Before(p.right, 1) == Before(p.right, 0) - q;
  }
}
