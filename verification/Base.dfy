/** Byte strings, hash functions and results shared by every module of the model. */
module Base {
  type Byte = b: int | 0 <= b < 256
  type Bytes = seq<Byte>

  const HASH_SIZE := 32

  const INT64_MIN := -0x8000_0000_0000_0000
  const INT64_MAX := 0x7fff_ffff_ffff_ffff
  const TWO_TO_THE_64 := 0x1_0000_0000_0000_0000

  /** The numbers that an int of the code can hold. */
  type Int64 = x: int | -0x8000_0000_0000_0000 <= x <= 0x7fff_ffff_ffff_ffff

  /** What a sum or a shift becomes in 64 bits. */
  function Wrap(x: int): (r: Int64)
    ensures INT64_MIN <= x <= INT64_MAX ==> r == x
  {
    if INT64_MIN <= x <= INT64_MAX then x else (x - INT64_MIN) % TWO_TO_THE_64 + INT64_MIN
  }

  lemma WrapNat(x: nat)
    requires x <= INT64_MAX
    ensures Wrap(x) == x
  {
  }

  lemma WrapSum(x: int, y: int)
    ensures Wrap(Wrap(x) + Wrap(y)) == Wrap(x + y)
  {
    hide Wrap;
    WrapAdd(x, Wrap(y));
    WrapAdd(y, x);
  }

  lemma WrapDifference(x: int, y: int)
    ensures Wrap(x - Wrap(y)) == Wrap(x - y)
  {
  }

  /** It does not matter when a sum is cut to 64 bits. */
  lemma WrapAdd(x: int, y: int)
    ensures Wrap(Wrap(x) + y) == Wrap(x + y)
  {
  }

  /** A hash function is a parameter everywhere. It is never assumed to be injective, which would be
      inconsistent; results that need it say which of its inputs would have to collide. */
  type HashFn = Bytes -> Bytes

  /** All digests have the same size. */
  ghost predicate FixedSize(H: HashFn) {
    forall x: Bytes :: |H(x)| == HASH_SIZE
  }

  datatype Option<+T> = None | Some(value: T)

  /** The value of an operation, or its error. */
  datatype Result<+T, +E> = Ok(value: T) | Err(error: E)

  /** Two different inputs, both among the given ones, with the same digest. */
  ghost predicate Collides(H: HashFn, xs: set<Bytes>) {
    exists x: Bytes, y: Bytes :: x in xs && y in xs && x != y && H(x) == H(y)
  }

  lemma NoCollision(H: HashFn, xs: set<Bytes>, x: Bytes, y: Bytes)
    requires !Collides(H, xs) && x in xs && y in xs && H(x) == H(y)
    ensures x == y
  {
  }

  lemma FewerInputs(H: HashFn, xs: set<Bytes>, ys: set<Bytes>)
    requires !Collides(H, ys) && xs <= ys
    ensures !Collides(H, xs)
  {
  }

  predicate AllDigests(a: seq<Bytes>) {
    forall i :: 0 <= i < |a| ==> |a[i]| == HASH_SIZE
  }

  lemma DigestSize(H: HashFn, x: Bytes)
    requires FixedSize(H)
    ensures |H(x)| == HASH_SIZE
  {
  }

  /** Two concatenations that are equal and are cut at the same place have equal parts. */
  lemma HalvesEqual(a: Bytes, b: Bytes, c: Bytes, d: Bytes)
    requires |a| == |c| && a + b == c + d
    ensures a == c && b == d
  {
    assert a == (a + b)[..|a|] && c == (c + d)[..|c|];
    assert b == (a + b)[|a|..] && d == (c + d)[|c|..];
  }
}

/** Powers of two and divisibility by them, defined by halving so that proofs stay linear. */
module PowersOfTwo {
  function Pow2(k: nat): (p: int)
    ensures p >= 1
  {
    if k == 0 then 1 else 2 * Pow2(k - 1)
  }

  lemma Pow2Double(k: nat)
    requires k > 0
    ensures Pow2(k) == 2 * Pow2(k - 1)
  {
  }

  lemma Pow2Zero()
    ensures Pow2(0) == 1
  {
  }

  lemma Pow2Plus8(k: nat)
    ensures Pow2(k + 8) == 256 * Pow2(k)
  {
    assert Pow2(k + 8) == 4 * Pow2(k + 6) && Pow2(k + 6) == 4 * Pow2(k + 4);
    assert Pow2(k + 4) == 4 * Pow2(k + 2) && Pow2(k + 2) == 4 * Pow2(k);
  }

  lemma LastPowers()
    ensures Pow2(62) == 0x4000_0000_0000_0000 && Pow2(63) == 0x8000_0000_0000_0000
    ensures Pow2(64) == 0x1_0000_0000_0000_0000
  {
    hide Pow2;
    Pow2Plus8(0);
    Pow2Plus8(8);
    Pow2Plus8(16);
    Pow2Plus8(24);
    Pow2Plus8(32);
    Pow2Plus8(40);
    Pow2Plus8(48);
    Pow2Plus8(56);
    Pow2Double(64);
    Pow2Double(63);
    Pow2Zero();
  }

  lemma {:induction false} Pow2Product(i: nat, j: nat)
    ensures Pow2(i + j) == Pow2(i) * Pow2(j)
  {
    if j > 0 {
      Pow2Product(i, j - 1);
      assert Pow2(i) * (2 * Pow2(j - 1)) == 2 * (Pow2(i) * Pow2(j - 1));
    }
  }

  /** Number of binary digits: the length of the shortest bit string that holds m. */
  function BitLen(m: nat): (k: nat)
    ensures m > 0 <==> k > 0
  {
    if m == 0 then 0 else 1 + BitLen(m / 2)
  }

  lemma {:induction false} BitLenBounds(m: nat)
    ensures m < Pow2(BitLen(m))
    ensures m > 0 ==> Pow2(BitLen(m) - 1) <= m
  {
    if m > 0 { BitLenBounds(m / 2); }
  }

  predicate IsPow2(n: int) {
    n >= 1 && n == Pow2(BitLen(n - 1))
  }

  /** 2^j divides m. */
  predicate Div2(j: nat, m: nat) {
    j == 0 || (m % 2 == 0 && Div2(j - 1, m / 2))
  }

  lemma {:induction false} Pow2Monotone(i: nat, j: nat)
    requires i <= j
    ensures Pow2(i) <= Pow2(j)
    ensures i < j ==> 2 * Pow2(i) <= Pow2(j)
    decreases j
  {
    if i < j { Pow2Monotone(i, j - 1); }
  }

  /** BitLen is the only exponent that brackets m. */
  lemma {:induction false} BitLenUnique(m: nat, k: nat)
    requires m < Pow2(k)
    requires k > 0 ==> Pow2(k - 1) <= m
    ensures BitLen(m) == k
  {
    var b := BitLen(m);
    BitLenBounds(m);
    if b < k {
      Pow2Monotone(b, k - 1);
    } else if k < b {
      Pow2Monotone(k, b - 1);
    }
  }

  lemma {:induction false} BitLenMonotone(m: nat, n: nat)
    requires m <= n
    ensures BitLen(m) <= BitLen(n)
  {
    BitLenBounds(m);
    BitLenBounds(n);
    if BitLen(n) < BitLen(m) { Pow2Monotone(BitLen(n), BitLen(m) - 1); }
  }

  lemma {:induction false} Pow2IsPow2(k: nat)
    ensures IsPow2(Pow2(k)) && BitLen(Pow2(k) - 1) == k
  {
    if k > 0 { assert Pow2(k - 1) <= Pow2(k) - 1; }
    BitLenUnique(Pow2(k) - 1, k);
  }

  lemma {:induction false} Div2Zero(j: nat)
    ensures Div2(j, 0)
  {
    if j > 0 { Div2Zero(j - 1); }
  }

  lemma {:induction false} Div2Weaken(i: nat, j: nat, m: nat)
    requires i <= j && Div2(j, m)
    ensures Div2(i, m)
  {
    if i > 0 { Div2Weaken(i - 1, j - 1, m / 2); }
  }

  lemma {:induction false} Div2Pow2(j: nat, k: nat)
    requires j <= k
    ensures Div2(j, Pow2(k))
  {
    if j > 0 {
      assert Pow2(k) / 2 == Pow2(k - 1);
      Div2Pow2(j - 1, k - 1);
    }
  }

  lemma {:induction false} Div2Add(j: nat, m: nat, n: nat)
    requires Div2(j, m)
    ensures Div2(j, n) <==> Div2(j, m + n)
  {
    if j > 0 {
      if n % 2 == 0 { assert (m + n) / 2 == m / 2 + n / 2; }
      Div2Add(j - 1, m / 2, n / 2);
    }
  }

  lemma {:induction false} Div2AtLeast(j: nat, m: nat)
    requires Div2(j, m) && m > 0
    ensures m >= Pow2(j)
  {
    if j > 0 { Div2AtLeast(j - 1, m / 2); }
  }

  /** A multiple of 2^j below a larger multiple leaves room for 2^j more. */
  lemma {:induction false} Div2Room(j: nat, m: nat, n: nat)
    requires Div2(j, m) && Div2(j, n) && m < n
    ensures m + Pow2(j) <= n
  {
    Div2Add(j, m, n - m);
    Div2AtLeast(j, n - m);
  }
}
