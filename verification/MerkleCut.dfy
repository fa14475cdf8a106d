/** Which subtrees a range proof is made of. The subtrees in front of the range and behind it are the
    largest that fit, so a range of a given tree has exactly one proof and a short one. */
module MerkleCut {
  import opened Base
  import opened PowersOfTwo
  import opened MerkleTree
  import opened MerkleProof

  /** The largest power of two that divides m. */
  function Lowbit(m: nat): (b: nat)
    requires m > 0
    ensures 1 <= b <= m
  {
    if m % 2 == 1 then 1 else 2 * Lowbit(m / 2)
  }

  /** A power of two behind a multiple of twice that power. */
  lemma {:induction false} LowbitAt(k: nat, lo: nat)
    requires Div2(k + 1, lo)
    ensures Lowbit(lo + Pow2(k)) == Pow2(k)
    decreases k
  {
    if k > 0 {
      assert (lo + Pow2(k)) / 2 == lo / 2 + Pow2(k - 1);
      LowbitAt(k - 1, lo / 2);
    }
  }

  lemma {:induction false} LowbitIsPow2(m: nat) returns (k: nat)
    requires m > 0
    ensures Lowbit(m) == Pow2(k) && Div2(k, m) && Div2(k + 1, m - Lowbit(m)) && Div2(k + 1, m + Lowbit(m))
    decreases m
  {
    if m % 2 == 1 {
      k := 0;
    } else {
      var j := LowbitIsPow2(m / 2);
      k := j + 1;
      var b := Lowbit(m / 2);
      assert (m - 2 * b) / 2 == m / 2 - b && (m + 2 * b) / 2 == m / 2 + b;
    }
  }

  lemma {:induction false} LowbitAtLeast(k: nat, m: nat)
    requires m > 0 && Div2(k, m)
    ensures Lowbit(m) >= Pow2(k)
    decreases k
  {
    if k > 0 { LowbitAtLeast(k - 1, m / 2); }
  }

  /** Going over by its last binary digit, or back, a number gets a larger last digit. */
  lemma {:induction false} LowbitGrows(m: nat)
    requires m > 0
    ensures Lowbit(m + Lowbit(m)) > Lowbit(m)
    ensures m > Lowbit(m) ==> Lowbit(m - Lowbit(m)) > Lowbit(m)
  {
    hide Lowbit, Div2;
    var k := LowbitIsPow2(m);
    LowbitAtLeast(k + 1, m + Lowbit(m));
    if m > Lowbit(m) { LowbitAtLeast(k + 1, m - Lowbit(m)); }
  }

  // ----- the largest subtrees

  /** Every subtree has as many leaves as the last binary digit of the number of leaves up to its end. */
  ghost predicate LargestBefore(m: int, ps: seq<ProofNode>) {
    forall i :: 0 <= i < |ps| ==> LargestTo(m + Before(ps, i + 1), ps[i].num)
  }

  ghost predicate LargestTo(end: int, num: int) {
    end > 0 && num == Lowbit(end)
  }

  /** Every subtree has as many leaves as the last binary digit of the number of leaves before it, or all the
      leaves that are left. */
  ghost predicate LargestAfter(m: int, ps: seq<ProofNode>, n: int) {
    forall i :: 0 <= i < |ps| ==> LargestFrom(m + Before(ps, i), ps[i].num, n)
  }

  ghost predicate LargestFrom(start: int, num: int, n: int) {
    start > 0 && num == if Lowbit(start) < n - start then Lowbit(start) else n - start
  }

  lemma {:induction false} LargestBeforeCons(m: int, p: ProofNode, ps: seq<ProofNode>)
    requires LargestTo(m + p.num, p.num) && LargestBefore(m + p.num, ps)
    ensures LargestBefore(m, [p] + ps)
  {
    hide LargestTo, Before;
    var s := [p] + ps;
    BeforeFirst(p);
    forall i | 0 <= i < |s| ensures LargestTo(m + Before(s, i + 1), s[i].num) {
      BeforeConcat([p], ps, i + 1);
      if i > 0 { assert s[i] == ps[i - 1] && Before(s, i + 1) == p.num + Before(ps, i - 1 + 1); }
    }
  }

  lemma BeforeFirst(p: ProofNode)
    ensures Before([p], 1) == p.num
  {
    assert Before([p], 1) == Before([p], 0) + p.num;
  }

  lemma {:induction false} LargestAfterSnoc(m: int, ps: seq<ProofNode>, p: ProofNode, n: int)
    requires LargestAfter(m, ps, n) && LargestFrom(m + Before(ps, |ps|), p.num, n)
    ensures LargestAfter(m, ps + [p], n)
  {
    hide LargestFrom, Before;
    var s := ps + [p];
    forall i | 0 <= i < |s| ensures LargestFrom(m + Before(s, i), s[i].num, n) {
      BeforeConcat(ps, [p], i);
    }
  }

  /** The subtrees to the left of a leaf. There are fewer than the tree has levels. */
  lemma {:induction false} LeftLargest(H: HashFn, a: seq<Bytes>, lo: nat, t: Tree, num: int)
    requires Commits(H, t, a, lo) && Unit(t) && 1 <= num <= t.num && Div2(t.level - 1, lo)
    ensures LargestBefore(lo, LeftOf(t, num)) && |LeftOf(t, num)| < t.level
    decreases t
  {
    hide RootHash, LevelOf, SplitPoint, IsPow2, Div2, Lowbit, LargestBefore, Pow2;
    if t.Block? {
      NoneLargest(lo, 0);
    } else {
      CommitsLevels(H, a, lo, t);
      ChildrenAligned(t.level - 2, t.r.level, lo);
      if num > t.l.num {
        LowbitAt(t.level - 2, lo);
        LeftLargest(H, a, lo + t.l.num, t.r, num - t.l.num);
        LargestBeforeCons(lo, AsProofNode(t.l), LeftOf(t.r, num - t.l.num));
      } else {
        LeftLargest(H, a, lo, t.l, num);
      }
    }
  }

  lemma NoneLargest(m: int, n: int)
    ensures LargestBefore(m, []) && LargestAfter(m, [], n)
  {
  }

  /** The subtrees to the right of a leaf, in a tree that is perfect or ends with the contents. */
  lemma {:induction false} RightLargest(H: HashFn, a: seq<Bytes>, lo: nat, t: Tree, num: int, n: int)
    requires Commits(H, t, a, lo) && Unit(t) && 1 <= num <= t.num && Div2(t.level - 1, lo)
    requires lo + t.num == n || (lo + t.num <= n && t.num == Pow2(t.level - 1))
    ensures LargestAfter(lo + num, RightOf(t, num), n) && |RightOf(t, num)| < t.level
    decreases t
  {
    hide RootHash, LevelOf, SplitPoint, IsPow2, Div2, Lowbit, LargestAfter, Pow2, Before, Shl;
    if t.Block? {
      NoneLargest(lo + num, n);
    } else {
      CommitsLevels(H, a, lo, t);
      ChildrenAligned(t.level - 2, t.r.level, lo);
      if num > t.l.num {
        if lo + t.num != n { PerfectRight(H, a, lo, t); }
        RightLargest(H, a, lo + t.l.num, t.r, num - t.l.num, n);
      } else {
        RightLargest(H, a, lo, t.l, num, n);
        RightSum(H, a, lo, t.l, num);
        LowbitAt(t.level - 2, lo);
        if lo + t.num != n { PerfectRight(H, a, lo, t); }
        LargestAfterSnoc(lo + num, RightOf(t.l, num), AsProofNode(t.r), n);
      }
    }
  }

  lemma RightSum(H: HashFn, a: seq<Bytes>, lo: nat, t: Tree, num: int)
    requires Commits(H, t, a, lo) && Unit(t) && 1 <= num <= t.num && Div2(t.level - 1, lo)
    ensures Before(RightOf(t, num), |RightOf(t, num)|) == t.num - num
  {
    hide *;
    CommitsPositive(H, a, lo, t);
    RightCovers(H, a, lo, t, num);
    CoversEnd(H, a, lo + num, RightOf(t, num), lo + t.num);
  }

  lemma PerfectRight(H: HashFn, a: seq<Bytes>, lo: nat, t: Tree)
    requires Commits(H, t, a, lo) && t.Branch? && t.level >= LEVEL_BRANCH && t.num == Pow2(t.level - 1)
    ensures t.r.level >= 1 && t.r.num == t.l.num == Pow2(t.level - 2) == Pow2(t.r.level - 1)
  {
    hide RootHash;
    CommitsLevels(H, a, lo, t);
    Pow2IsPow2(t.level - 1);
    Pow2IsPow2(t.level - 2);
  }

  // ----- what that means for a proof

  /** The left part: the binary digits of the number of leaves in front, the highest first. */
  lemma {:induction false} LeftDigits(ps: seq<ProofNode>, i: nat, j: nat)
    requires LargestBefore(0, ps) && i < j < |ps|
    ensures ps[i].num > ps[j].num && IsPow2(ps[i].num) && IsPow2(ps[j].num)
    decreases j
  {
    hide Lowbit, IsPow2, Before;
    BeforeStep(ps, j);
    var q := Before(ps, j + 1);
    assert LargestTo(0 + q, ps[j].num) && LargestTo(0 + Before(ps, j), ps[j - 1].num);
    LowbitGrows(q);
    OnePow2(q);
    OnePow2(q - ps[j].num);
    if i < j - 1 { LeftDigits(ps, i, j - 1); }
  }

  lemma BeforeStep(ps: seq<ProofNode>, i: nat)
    requires i < |ps|
    ensures Before(ps, i + 1) == Before(ps, i) + ps[i].num
  {
  }

  lemma OnePow2(m: nat)
    requires m > 0
    ensures IsPow2(Lowbit(m))
  {
    hide Lowbit, IsPow2;
    var k := LowbitIsPow2(m);
    Pow2IsPow2(k);
  }

  /** The right part: powers of two that grow up to the last subtree. */
  lemma {:induction false} RightGrows(m: int, ps: seq<ProofNode>, n: int, i: nat, j: nat)
    requires LargestAfter(m, ps, n) && AllPositive(ps) && i < j < |ps| - 1
    ensures ps[i].num < ps[j].num && IsPow2(ps[i].num) && IsPow2(ps[j].num)
    decreases j
  {
    hide Lowbit, IsPow2, LargestAfter, Before;
    BeforeStep(ps, j - 1);
    RightDigit(m, ps, n, j - 1);
    RightDigit(m, ps, n, j);
    LowbitGrows(m + Before(ps, j - 1));
    OnePow2(m + Before(ps, j - 1));
    OnePow2(m + Before(ps, j));
    if i < j - 1 { RightGrows(m, ps, n, i, j - 1); }
  }

  lemma RightDigit(m: int, ps: seq<ProofNode>, n: int, i: nat)
    requires LargestAfter(m, ps, n) && AllPositive(ps) && i < |ps| - 1
    ensures m + Before(ps, i) > 0 && ps[i].num == Lowbit(m + Before(ps, i))
  {
    hide Lowbit, Before;
    BeforeStep(ps, i);
    assert LargestFrom(m + Before(ps, i), ps[i].num, n) && LargestFrom(m + Before(ps, i + 1), ps[i + 1].num, n);
  }

  /** The subtrees of a proof for any range: the largest ones in front of it and the largest ones behind it,
      each with its root hash. They are fewer than two for every level. */
  lemma {:induction false} RangeProofShape(H: HashFn, contents: seq<Bytes>, begin: int, end: int)
    requires 1 <= begin <= end <= |contents| <= INT64_MAX
    ensures var p := ProofOf(TreeOf(H, contents), contents, begin, end);
            && Covers(H, Leaves(H, contents), 0, p.left, begin - 1) && LargestBefore(0, p.left)
            && Covers(H, Leaves(H, contents), end, p.right, |contents|) && LargestAfter(end, p.right, |contents|)
            && |p.left| + |p.right| < 2 * LevelOf(|contents|) - 1
  {
    hide RootHash, LevelOf, Covers, TreeOf, LeftOf, RightOf, Leaves, Commits, LargestBefore, LargestAfter;
    var n, a, t := |contents|, Leaves(H, contents), TreeOf(H, contents);
    TreeOfCommits(H, contents);
    CommitsPositive(H, a, 0, t);
    CommitsLevel(H, a, 0, t);
    Div2Zero(t.level - 1);
    LeftCovers(H, a, 0, t, begin);
    RightCovers(H, a, 0, t, end);
    LeftLargest(H, a, 0, t, begin);
    RightLargest(H, a, 0, t, end, n);
    CoversNone(H, a, 0);
    CoversNone(H, a, n);
    NoneLargest(0, n);
    NoneLargest(n, n);
  }

  lemma CommitsLevel(H: HashFn, a: seq<Bytes>, lo: nat, t: Tree)
    requires Commits(H, t, a, lo)
    ensures t.level == LevelOf(t.num)
  {
    hide LevelOf, RootHash;
  }

  // ----- there is only one such proof

  lemma {:induction false} BeforePrefix(ps: seq<ProofNode>, k: nat, n: nat)
    requires n <= k <= |ps|
    ensures Before(ps[..k], n) == Before(ps, n)
    decreases n
  {
    if n > 0 { BeforePrefix(ps, k, n - 1); }
  }

  lemma {:induction false} OneLeft(H: HashFn, a: seq<Bytes>, ps: seq<ProofNode>, qs: seq<ProofNode>, e: int)
    requires Covers(H, a, 0, ps, e) && LargestBefore(0, ps) && Covers(H, a, 0, qs, e) && LargestBefore(0, qs)
    ensures ps == qs
    decreases |ps|
  {
    hide Lowbit, Before, RootHash, FitsAfter;
    BeforeNone(ps);
    BeforeNone(qs);
    if ps != [] && qs != [] {
      var i, j := |ps| - 1, |qs| - 1;
      assert LargestTo(0 + Before(ps, i + 1), ps[i].num) && LargestTo(0 + Before(qs, j + 1), qs[j].num);
      BeforeStep(ps, |ps| - 1);
      BeforeStep(qs, |qs| - 1);
      assert Placed(H, a, 0 + Before(ps, i), ps[i]) && Placed(H, a, 0 + Before(qs, j), qs[j]);
      Shorter(H, a, ps, e);
      Shorter(H, a, qs, e);
      OneLeft(H, a, ps[..i], qs[..j], e - ps[i].num);
      assert ps == ps[..i] + [ps[i]] && qs == qs[..j] + [qs[j]];
    } else {
      Something(ps);
      Something(qs);
    }
  }

  lemma Something(ps: seq<ProofNode>)
    requires LargestBefore(0, ps)
    ensures ps != [] ==> Before(ps, |ps|) > 0
  {
    hide Lowbit, Before;
    if ps != [] { assert LargestTo(0 + Before(ps, |ps| - 1 + 1), ps[|ps| - 1].num); }
  }

  lemma {:induction false} Shorter(H: HashFn, a: seq<Bytes>, ps: seq<ProofNode>, e: int)
    requires ps != [] && Covers(H, a, 0, ps, e) && LargestBefore(0, ps)
    ensures var k := |ps| - 1; Covers(H, a, 0, ps[..k], e - ps[k].num) && LargestBefore(0, ps[..k])
  {
    hide Placed, Before, LargestTo;
    var k := |ps| - 1;
    var qs := ps[..k];
    BeforeStep(ps, |ps| - 1);
    BeforePrefix(ps, k, k);
    forall i | 0 <= i < k
      ensures Placed(H, a, 0 + Before(qs, i), qs[i]) && LargestTo(0 + Before(qs, i + 1), qs[i].num)
    {
      BeforePrefix(ps, k, i);
      BeforePrefix(ps, k, i + 1);
      assert Placed(H, a, 0 + Before(ps, i), ps[i]) && LargestTo(0 + Before(ps, i + 1), ps[i].num);
    }
  }

  lemma {:induction false} OneRight(
      H: HashFn, a: seq<Bytes>, m: int, ps: seq<ProofNode>, qs: seq<ProofNode>, n: int)
    requires Covers(H, a, m, ps, n) && LargestAfter(m, ps, n) && Covers(H, a, m, qs, n) && LargestAfter(m, qs, n)
    ensures ps == qs
  {
    hide Placed, Before, LargestFrom;
    var k := if |ps| < |qs| then |ps| else |qs|;
    SameStart(H, a, m, ps, qs, n, k);
    assert forall i :: 0 <= i < k ==> ps[i] == ps[..k][i] == qs[..k][i] == qs[i];
    if k < |ps| { NothingLeft(H, a, m, ps, n, k); }
    if k < |qs| { NothingLeft(H, a, m, qs, n, k); }
  }

  lemma NothingLeft(H: HashFn, a: seq<Bytes>, m: int, ps: seq<ProofNode>, n: int, k: nat)
    requires Covers(H, a, m, ps, n) && LargestAfter(m, ps, n) && k < |ps|
    ensures m + Before(ps, k) < n
  {
    hide Before, Lowbit, RootHash, FitsAfter;
    assert Placed(H, a, m + Before(ps, k), ps[k]) && LargestFrom(m + Before(ps, k), ps[k].num, n);
  }

  lemma {:induction false} SameStart(
      H: HashFn, a: seq<Bytes>, m: int, ps: seq<ProofNode>, qs: seq<ProofNode>, n: int, k: nat)
    requires Covers(H, a, m, ps, n) && LargestAfter(m, ps, n) && Covers(H, a, m, qs, n) && LargestAfter(m, qs, n)
    requires k <= |ps| && k <= |qs|
    ensures ps[..k] == qs[..k] && Before(ps, k) == Before(qs, k)
    decreases k
  {
    hide RootHash, FitsAfter, Lowbit, Before;
    if k == 0 {
      BeforeNone(ps);
      BeforeNone(qs);
    } else {
      var i := k - 1;
      BeforeStep(ps, i);
      BeforeStep(qs, i);
      SameStart(H, a, m, ps, qs, n, i);
      assert LargestFrom(m + Before(ps, i), ps[i].num, n) && LargestFrom(m + Before(qs, i), qs[i].num, n);
      assert Placed(H, a, m + Before(ps, i), ps[i]) && Placed(H, a, m + Before(qs, i), qs[i]);
      assert ps[..k] == ps[..i] + [ps[i]] && qs[..k] == qs[..i] + [qs[i]];
    }
  }

  /** The cut proof is the only one made of the largest subtrees around the range. */
  lemma {:induction false} RangeProofUnique(H: HashFn, contents: seq<Bytes>, begin: int, end: int, p: RangeProof)
    requires 1 <= begin <= end <= |contents| <= INT64_MAX && p.contents == contents[begin - 1..end]
    requires Covers(H, Leaves(H, contents), 0, p.left, begin - 1) && LargestBefore(0, p.left)
    requires Covers(H, Leaves(H, contents), end, p.right, |contents|) && LargestAfter(end, p.right, |contents|)
    ensures p == ProofOf(TreeOf(H, contents), contents, begin, end)
  {
    hide LevelOf, Covers, TreeOf, LeftOf, RightOf, Leaves, LargestBefore, LargestAfter;
    var a, q := Leaves(H, contents), ProofOf(TreeOf(H, contents), contents, begin, end);
    RangeProofShape(H, contents, begin, end);
    OneLeft(H, a, p.left, q.left, begin - 1);
    OneRight(H, a, end, p.right, q.right, |contents|);
    assert contents[0..end] == contents[..end] && contents[..|contents|] == contents;
  }
}
