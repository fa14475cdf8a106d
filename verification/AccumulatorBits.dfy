/** Binary digits, by halving: the arithmetic of an accumulator as a binary counter of perfect trees. */
module AccumulatorBits {
  import opened PowersOfTwo

  /** Bit i of n, in two's complement if n is negative. */
  predicate Bit(n: int, i: nat)
    decreases i
  {
    if i == 0 then n % 2 == 1 else Bit(n / 2, i - 1)
  }

  /** n with its i low bits cleared. */
  function Floor(n: nat, i: nat): (m: nat)
  {
    if i == 0 then n else 2 * Floor(n / 2, i - 1)
  }

  lemma {:induction false} FloorBounds(n: nat, i: nat)
    ensures Floor(n, i) <= n < Floor(n, i) + Pow2(i)
    ensures Div2(i, Floor(n, i))
  {
    if i > 0 {
      FloorBounds(n / 2, i - 1);
      assert Floor(n, i) / 2 == Floor(n / 2, i - 1);
    }
  }

  lemma FloorZero(n: nat)
    ensures Floor(n, 0) == n
  {
  }

  /** Clearing one more bit. */
  lemma {:induction false} FloorStep(n: nat, i: nat)
    ensures Floor(n, i) == Floor(n, i + 1) + if Bit(n, i) then Pow2(i) else 0
  {
    if i > 0 {
      FloorStep(n / 2, i - 1);
      assert Floor(n, i + 1) == 2 * Floor(n / 2, i);
    } else {
      assert Floor(n, 1) == 2 * Floor(n / 2, 0);
    }
  }

  /** The block of size 2^i that holds n is the only aligned one around it. */
  lemma {:induction false} FloorUnique(n: nat, i: nat, lo: nat)
    requires Div2(i, lo) && lo <= n < lo + Pow2(i)
    ensures Floor(n, i) == lo
  {
    if i > 0 { FloorUnique(n / 2, i - 1, lo / 2); }
  }

  lemma {:induction false} FloorTop(n: nat)
    ensures Floor(n, BitLen(n)) == 0
    ensures forall j :: j >= BitLen(n) ==> !Bit(n, j)
  {
    if n > 0 {
      FloorTop(n / 2);
      forall j | j >= BitLen(n) ensures !Bit(n, j) { assert j > 0 && !Bit(n / 2, j - 1); }
    } else {
      forall j | j >= 0 ensures !Bit(0, j) { NoBits(j); }
    }
  }

  lemma {:induction false} NoBits(j: nat)
    ensures !Bit(0, j) && Floor(0, j) == 0
  {
    if j > 0 { NoBits(j - 1); }
  }

  lemma {:induction false} TopBit(n: nat)
    requires n > 0
    ensures Bit(n, BitLen(n) - 1)
  {
    if n > 1 { TopBit(n / 2); }
  }

  // ----- counting up

  /** The h low bits of n are all set. */
  predicate LowOnes(n: nat, h: nat) {
    h == 0 || (n % 2 == 1 && LowOnes(n / 2, h - 1))
  }

  lemma {:induction false} LowOnesStep(n: nat, h: nat)
    ensures LowOnes(n, h + 1) <==> LowOnes(n, h) && Bit(n, h)
  {
    if h > 0 { LowOnesStep(n / 2, h - 1); }
  }

  lemma {:induction false} LowOnesFloor(n: nat, h: nat)
    requires LowOnes(n, h)
    ensures Floor(n, h) + Pow2(h) == n + 1
  {
    if h > 0 { LowOnesFloor(n / 2, h - 1); }
  }

  /** What adding one does to the digits: the low ones become zeros and the next zero a one. */
  lemma {:induction false} Increment(n: nat, h: nat, j: nat)
    requires LowOnes(n, h) && !Bit(n, h)
    ensures Bit(n + 1, j) == if j < h then false else if j == h then true else Bit(n, j)
    ensures j >= h ==> Floor(n + 1, j + 1) == Floor(n, j + 1)
  {
    if h > 0 {
      assert (n + 1) / 2 == n / 2 + 1;
      if j > 0 { Increment(n / 2, h - 1, j - 1); }
    } else {
      assert (n + 1) / 2 == n / 2;
    }
  }

  lemma {:induction false} IncrementLength(n: nat, h: nat)
    requires LowOnes(n, h) && !Bit(n, h)
    ensures h <= BitLen(n)
    ensures BitLen(n + 1) == if h == BitLen(n) then h + 1 else BitLen(n)
  {
    if h > 0 {
      assert (n + 1) / 2 == n / 2 + 1;
      IncrementLength(n / 2, h - 1);
    } else {
      assert (n + 1) / 2 == n / 2;
    }
  }

  // ----- the slot of a leaf

  /** The root slot that holds leaf idx among n leaves: the highest digit where n and idx differ. */
  function Slot(n: nat, idx: nat): (s: nat)
    requires idx < n
  {
    if n / 2 == idx / 2 then 0 else 1 + Slot(n / 2, idx / 2)
  }

  lemma {:induction false} SlotSpec(n: nat, idx: nat)
    requires idx < n
    ensures var s := Slot(n, idx);
            && s < BitLen(n) && Bit(n, s) && !Bit(idx, s)
            && Floor(n, s + 1) == Floor(idx, s + 1) == Floor(idx, s)
            && Floor(idx, s) <= idx < Floor(idx, s) + Pow2(s) <= n
  {
    var s := Slot(n, idx);
    if n / 2 == idx / 2 {
      assert Floor(n, 1) == 2 * Floor(n / 2, 0) && Floor(idx, 1) == 2 * Floor(idx / 2, 0);
    } else {
      SlotSpec(n / 2, idx / 2);
      assert Floor(n, s + 1) == 2 * Floor(n / 2, s) && Floor(idx, s + 1) == 2 * Floor(idx / 2, s);
    }
  }

  /** The slot is the only one whose block holds the leaf. */
  lemma {:induction false} SlotUnique(n: nat, idx: nat, s: nat)
    requires idx < n && Bit(n, s) && Floor(n, s + 1) <= idx < Floor(n, s + 1) + Pow2(s)
    ensures Slot(n, idx) == s
  {
    if s == 0 {
      assert Floor(n, 1) == 2 * Floor(n / 2, 0);
    } else {
      assert Floor(n, s + 1) == 2 * Floor(n / 2, s);
      if n / 2 == idx / 2 {
        FloorStep(n / 2, s - 1);
        FloorBounds(n / 2, s - 1);
        assert false;
      }
      SlotUnique(n / 2, idx / 2, s - 1);
    }
  }

  /** A leaf only moves to higher slots as leaves are added. */
  lemma {:induction false} SlotMonotone(n: nat, n': nat, idx: nat)
    requires idx < n <= n'
    ensures Slot(n, idx) <= Slot(n', idx)
  {
    if n / 2 != idx / 2 {
      SlotMonotone(n / 2, n' / 2, idx / 2);
    }
  }

  /** The block next to the one of idx at level i. */
  function SiblingStart(idx: nat, i: nat): (lo: int) {
    if Bit(idx, i) then Floor(idx, i) - Pow2(i) else Floor(idx, i) + Pow2(i)
  }

  /** It lies inside every larger block around idx. */
  lemma {:induction false} SiblingInside(idx: nat, i: nat, s: nat)
    requires i < s
    ensures Floor(idx, s) <= SiblingStart(idx, i) && SiblingStart(idx, i) + Pow2(i) <= Floor(idx, s) + Pow2(s)
  {
    FloorStep(idx, i);
    BlockInside(idx, i + 1, s);
  }

  lemma {:induction false} BlockInside(idx: nat, i: nat, s: nat)
    requires i <= s
    ensures Floor(idx, s) <= Floor(idx, i) && Floor(idx, i) + Pow2(i) <= Floor(idx, s) + Pow2(s)
    decreases s
  {
    if i < s {
      BlockInside(idx, i, s - 1);
      FloorStep(idx, s - 1);
    }
  }
}
