/** Witnesses of the Merkle tree accumulator of common/mta, over the plain sequence of leaf hashes:
    what an accumulator of those leaves answers, and how witnesses of different lengths relate. */
module AccumulatorWitness {
  import opened Base
  import opened PowersOfTwo
  import opened AccumulatorBits

  datatype Direction = Left | Right

  datatype Witness = Witness(direction: Direction, hash: Bytes)

  /** The root hash of the perfect tree of depth d over a[lo..lo + 2^d]. */
  function PerfectRoot(H: HashFn, a: seq<Bytes>, lo: nat, d: nat): (h: Bytes)
    requires lo + Pow2(d) <= |a|
    decreases d
  {
    if d == 0 then a[lo] else H(PerfectRoot(H, a, lo, d - 1) + PerfectRoot(H, a, lo + Pow2(d - 1), d - 1))
  }

  /** The inputs that computing it gives to the hash function. */
  function PerfectInputs(H: HashFn, a: seq<Bytes>, lo: nat, d: nat): (s: set<Bytes>)
    requires lo + Pow2(d) <= |a|
    decreases d
  {
    if d == 0 then {} else
    {PerfectRoot(H, a, lo, d - 1) + PerfectRoot(H, a, lo + Pow2(d - 1), d - 1)}
      + PerfectInputs(H, a, lo, d - 1) + PerfectInputs(H, a, lo + Pow2(d - 1), d - 1)
  }

  lemma {:induction false} PerfectRootSize(H: HashFn, a: seq<Bytes>, lo: nat, d: nat)
    requires lo + Pow2(d) <= |a| && AllDigests(a) && FixedSize(H)
    ensures |PerfectRoot(H, a, lo, d)| == HASH_SIZE
  {
  }

  /** It depends on no leaf outside its block. */
  lemma {:induction false} PerfectRootPrefix(H: HashFn, a: seq<Bytes>, a': seq<Bytes>, lo: nat, d: nat)
    requires lo + Pow2(d) <= |a| <= |a'| && a == a'[..|a|]
    ensures PerfectRoot(H, a, lo, d) == PerfectRoot(H, a', lo, d)
    decreases d
  {
    if d > 0 {
      PerfectRootPrefix(H, a, a', lo, d - 1);
      PerfectRootPrefix(H, a, a', lo + Pow2(d - 1), d - 1);
    }
  }

  // ----- the witness of a leaf, level by level

  /** The hash of the block next to the one of leaf idx at level i, and on which side it is. */
  function WitnessAt(H: HashFn, a: seq<Bytes>, idx: nat, i: nat): (w: Witness)
    requires 0 <= SiblingStart(idx, i) && SiblingStart(idx, i) + Pow2(i) <= |a|
  {
    Witness(if Bit(idx, i) then Left else Right, PerfectRoot(H, a, SiblingStart(idx, i), i))
  }

  lemma SiblingsInside(idx: nat, d: nat)
    ensures forall i :: 0 <= i < d ==>
              Floor(idx, d) <= SiblingStart(idx, i) && SiblingStart(idx, i) + Pow2(i) <= Floor(idx, d) + Pow2(d)
  {
    forall i | 0 <= i < d
      ensures Floor(idx, d) <= SiblingStart(idx, i) && SiblingStart(idx, i) + Pow2(i) <= Floor(idx, d) + Pow2(d)
    {
      SiblingInside(idx, i, d);
    }
  }

  /** The witness of leaf idx up to the block of size 2^d that holds it. */
  function Witnesses(H: HashFn, a: seq<Bytes>, idx: nat, d: nat): (ws: seq<Witness>)
    requires Floor(idx, d) + Pow2(d) <= |a|
    ensures |ws| == d
    ensures forall i :: 0 <= i < d ==>
              0 <= SiblingStart(idx, i) && SiblingStart(idx, i) + Pow2(i) <= |a| && ws[i] == WitnessAt(H, a, idx, i)
  {
    SiblingsInside(idx, d);
    seq(d, i requires 0 <= i < d => WitnessAt(H, a, idx, i))
  }

  lemma {:induction false} WitnessesStep(H: HashFn, a: seq<Bytes>, idx: nat, d: nat)
    requires d > 0 && Floor(idx, d) + Pow2(d) <= |a|
    ensures Floor(idx, d - 1) + Pow2(d - 1) <= |a|
    ensures 0 <= SiblingStart(idx, d - 1) && SiblingStart(idx, d - 1) + Pow2(d - 1) <= |a|
    ensures Witnesses(H, a, idx, d) == Witnesses(H, a, idx, d - 1) + [WitnessAt(H, a, idx, d - 1)]
  {
    hide PerfectRoot;
    BlockInside(idx, d - 1, d);
    SiblingInside(idx, d - 1, d);
  }

  /** A witness to a smaller block is a prefix, and does not change when leaves are added. */
  lemma {:induction false} WitnessesPrefix(H: HashFn, a: seq<Bytes>, a': seq<Bytes>, idx: nat, d: nat, d': nat)
    requires d <= d' && |a| <= |a'| && a == a'[..|a|]
    requires Floor(idx, d) + Pow2(d) <= |a| && Floor(idx, d') + Pow2(d') <= |a'|
    ensures Witnesses(H, a, idx, d) == Witnesses(H, a', idx, d')[..d]
  {
    hide PerfectRoot, SiblingStart, Floor, Bit;
    forall i | 0 <= i < d ensures Witnesses(H, a, idx, d)[i] == Witnesses(H, a', idx, d')[i] {
      SiblingInside(idx, i, d);
      SiblingInside(idx, i, d');
      PerfectRootPrefix(H, a, a', SiblingStart(idx, i), i);
    }
  }

  // ----- folding a witness

  function FoldStep(H: HashFn, h: Bytes, w: Witness): (h': Bytes) {
    if w.direction == Left then H(w.hash + h) else H(h + w.hash)
  }

  /** The hash after the first n steps of a witness. */
  function Fold(H: HashFn, ws: seq<Witness>, h: Bytes, n: nat): (h': Bytes)
    requires n <= |ws|
  {
    if n == 0 then h else FoldStep(H, Fold(H, ws, h, n - 1), ws[n - 1])
  }

  lemma {:induction false} FoldPrefix(H: HashFn, ws: seq<Witness>, ws': seq<Witness>, h: Bytes, n: nat)
    requires n <= |ws| <= |ws'| && ws == ws'[..|ws|]
    ensures Fold(H, ws, h, n) == Fold(H, ws', h, n)
  {
    if n > 0 { FoldPrefix(H, ws, ws', h, n - 1); }
  }

  // ----- folding through a buffer

  /** Two hashes wide, and used for every step of a witness. */
  const BUFFER_SIZE := 2 * HASH_SIZE

  /** Copies bytes into a buffer at a position: what does not fit is cut off, and what is not reached
      keeps the bytes it had. */
  function Copied(buffer: Bytes, at: nat, x: Bytes): (r: Bytes)
    requires at <= |buffer|
    ensures |r| == |buffer|
  {
    var n := if |x| <= |buffer| - at then |x| else |buffer| - at;
    buffer[..at] + x[..n] + buffer[at + n..]
  }

  function Joined(buffer: Bytes, w: Witness, h: Bytes): (r: Bytes)
    requires |buffer| == BUFFER_SIZE
    ensures |r| == BUFFER_SIZE
  {
    if w.direction == Left then Copied(Copied(buffer, 0, w.hash), HASH_SIZE, h)
    else Copied(Copied(buffer, 0, h), HASH_SIZE, w.hash)
  }

  /** The buffer and the hash after the first n steps of a witness. */
  function FoldBuffer(H: HashFn, ws: seq<Witness>, h: Bytes, n: nat): (r: (Bytes, Bytes))
    requires n <= |ws|
    ensures |r.0| == BUFFER_SIZE
  {
    if n == 0 then (seq(BUFFER_SIZE, _ => 0), h) else
    var (buffer, x) := FoldBuffer(H, ws, h, n - 1);
    var joined := Joined(buffer, ws[n - 1], x);
    (joined, H(joined))
  }

  /** For digests the buffer does what concatenation does. */
  lemma {:induction false} FoldBufferDigests(H: HashFn, ws: seq<Witness>, h: Bytes, n: nat)
    requires FixedSize(H) && WitnessDigests(ws) && |h| == HASH_SIZE && n <= |ws|
    ensures FoldBuffer(H, ws, h, n).1 == Fold(H, ws, h, n)
  {
    hide Joined, FixedSize, WitnessDigests;
    if n > 0 {
      FoldBufferDigests(H, ws, h, n - 1);
      FoldSize(H, ws, h, n - 1);
      WitnessSize(ws, n - 1);
      JoinedDigests(FoldBuffer(H, ws, h, n - 1).0, ws[n - 1], Fold(H, ws, h, n - 1));
    }
  }

  lemma JoinedDigests(buffer: Bytes, w: Witness, h: Bytes)
    requires |buffer| == BUFFER_SIZE && |w.hash| == |h| == HASH_SIZE
    ensures Joined(buffer, w, h) == if w.direction == Left then w.hash + h else h + w.hash
  {
  }

  /** Folding the witness of a leaf from its hash gives the root hash of its block. */
  lemma {:induction false} FoldWitnesses(H: HashFn, a: seq<Bytes>, idx: nat, d: nat)
    requires Floor(idx, d) + Pow2(d) <= |a|
    ensures idx < |a|
    ensures Fold(H, Witnesses(H, a, idx, d), a[idx], d) == PerfectRoot(H, a, Floor(idx, d), d)
  {
    hide *;
    FloorBounds(idx, d);
    if d > 0 {
      FoldSplit(H, a, idx, d);
      WitnessesStep(H, a, idx, d);
      FoldWitnesses(H, a, idx, d - 1);
      FoldLast(H, Witnesses(H, a, idx, d - 1), WitnessAt(H, a, idx, d - 1), a[idx]);
    } else {
      FoldNone(H, a, idx);
    }
  }

  lemma FoldNone(H: HashFn, a: seq<Bytes>, idx: nat)
    requires Floor(idx, 0) + Pow2(0) <= |a|
    ensures idx < |a| && Fold(H, Witnesses(H, a, idx, 0), a[idx], 0) == PerfectRoot(H, a, Floor(idx, 0), 0)
  {
  }

  lemma {:induction false} FoldLast(H: HashFn, ws: seq<Witness>, w: Witness, h: Bytes)
    ensures Fold(H, ws + [w], h, |ws| + 1) == FoldStep(H, Fold(H, ws, h, |ws|), w)
  {
    FoldPrefix(H, ws, ws + [w], h, |ws|);
  }

  /** A block is the hash of the half that holds idx and of the half next to it. */
  lemma {:induction false} FoldSplit(H: HashFn, a: seq<Bytes>, idx: nat, d: nat)
    requires d > 0 && Floor(idx, d) + Pow2(d) <= |a|
    ensures Floor(idx, d - 1) + Pow2(d - 1) <= |a|
    ensures 0 <= SiblingStart(idx, d - 1) && SiblingStart(idx, d - 1) + Pow2(d - 1) <= |a|
    ensures FoldStep(H, PerfectRoot(H, a, Floor(idx, d - 1), d - 1), WitnessAt(H, a, idx, d - 1))
         == PerfectRoot(H, a, Floor(idx, d), d)
  {
    hide Floor, Bit;
    BlockInside(idx, d - 1, d);
    SiblingInside(idx, d - 1, d);
    FloorStep(idx, d - 1);
  }

  // ----- what an accumulator of the leaves a answers

  datatype Outcome = Accepted | NewerWitness | NoRoot | NotMatched | NewerNode | Panicked | Unresolved

  /** The leaves of root slot i among n leaves start here. */
  function SlotStart(n: nat, i: nat): (lo: nat) {
    Floor(n, i + 1)
  }

  lemma {:induction false} SlotStartBounds(n: nat, i: nat)
    requires Bit(n, i)
    ensures SlotStart(n, i) + Pow2(i) <= n
    ensures Div2(i, SlotStart(n, i))
  {
    FloorStep(n, i);
    FloorBounds(n, i);
    FloorBounds(n, i + 1);
    Div2Weaken(i, i + 1, Floor(n, i + 1));
  }

  /** The root hash in slot i. */
  function SlotRoot(H: HashFn, a: seq<Bytes>, i: nat): (h: Bytes)
    requires Bit(|a|, i)
  {
    SlotStartBounds(|a|, i);
    PerfectRoot(H, a, SlotStart(|a|, i), i)
  }

  /** Asking for the witness of a leaf. A negative index finds its way to the first leaf. */
  function WitnessOf(H: HashFn, a: seq<Bytes>, idx: int): (ws: Option<seq<Witness>>)
  {
    if idx >= |a| || a == [] then None else
    var k := if idx < 0 then 0 else idx;
    SlotSpec(|a|, k);
    Some(Witnesses(H, a, k, Slot(|a|, k)))
  }

  function VerifyOutcome(H: HashFn, a: seq<Bytes>, ws: seq<Witness>, h: Bytes): (o: Outcome) {
    if |ws| >= BitLen(|a|) then NewerWitness
    else if !Bit(|a|, |ws|) then NoRoot
    else if SlotRoot(H, a, |ws|) != FoldBuffer(H, ws, h, |ws|).1 then NotMatched
    else Accepted
  }

  /** The leaf index that the directions of a witness stand for in an accumulator of that length, computed in
      64 bits. */
  function HeightOf(ws: seq<Witness>, accLength: int): (idx: Int64) {
    Wrap(accLength - 1 - Skipped(ws, accLength, |ws|))
  }

  /** Leaves after the selected one, within the first n levels. */
  function Skipped(ws: seq<Witness>, accLength: int, n: nat): (k: nat)
    requires n <= |ws|
  {
    if n == 0 then 0 else
    Skipped(ws, accLength, n - 1)
      + (if ws[n - 1].direction == Right then Pow2(n - 1) else 0)
      + (if Bit(accLength, n - 1) then Pow2(n - 1) else 0)
  }

  /** The search for the slot of a leaf that treats every slot as filled. */
  function FullSlot(i: int, height: int): (d: nat)
    decreases i
  {
    if i <= 0 then 0 else if height < Pow2(i) then i else FullSlot(i - 1, height - Pow2(i))
  }

  function VerifyWithLength(H: HashFn, a: seq<Bytes>, ws: seq<Witness>, h: Bytes, accLength: int): (o: Outcome) {
    if |a| == accLength then VerifyOutcome(H, a, ws, h) else
    var height := HeightOf(ws, accLength);
    if height >= |a| then NewerNode
    else if |a| > accLength then
      var nws := WitnessOf(H, a, height);
      if nws.None? then Unresolved
      else if |ws| > |nws.value| then Panicked
      else VerifyOutcome(H, a, ws + nws.value[|ws|..], h)
    else
      var d := FullSlot(BitLen(|a|) - 1, height);
      if d > |ws| then Panicked else VerifyOutcome(H, a, ws[..d], h)
  }

  /** What GetDepthByHeightAndAccLength answers. */
  function DepthOf(height: int, accLength: int): (d: nat) {
    if accLength <= 0 || height >= accLength then 0
    else if height < 0 then BitLen(accLength) - 1
    else Slot(accLength, height)
  }

  function WitnessWithLength(H: HashFn, a: seq<Bytes>, idx: int, accLength: int): (ws: Option<seq<Witness>>) {
    var w := WitnessOf(H, a, idx);
    if w.None? || DepthOf(idx, accLength) > |w.value| then None
    else Some(w.value[..DepthOf(idx, accLength)])
  }

  // ----- historical witnesses

  /** A witness asked for an earlier length is the witness the accumulator gave at that length. */
  lemma {:induction false} HistoricalWitness(H: HashFn, a: seq<Bytes>, idx: nat, len: nat)
    requires idx < len <= |a|
    ensures WitnessWithLength(H, a, idx, len) == WitnessOf(H, a[..len], idx)
    ensures WitnessOf(H, a, idx).Some?
  {
    hide Witnesses, Slot;
    SlotSpec(|a|, idx);
    SlotSpec(len, idx);
    SlotMonotone(len, |a|, idx);
    WitnessesPrefix(H, a[..len], a, idx, Slot(len, idx), Slot(|a|, idx));
  }

  /** The directions of a witness are the digits of the index: hashes and index are enough. */
  function FromHashes(hashes: seq<Bytes>, idx: nat): (ws: seq<Witness>)
    ensures |ws| == |hashes|
    decreases |hashes|
  {
    if hashes == [] then [] else
    [Witness(if idx % 2 == 0 then Right else Left, hashes[0])] + FromHashes(hashes[1..], idx / 2)
  }

  function HashesOf(ws: seq<Witness>): (hs: seq<Bytes>)
    ensures |hs| == |ws| && forall i :: 0 <= i < |ws| ==> hs[i] == ws[i].hash
  {
    seq(|ws|, i requires 0 <= i < |ws| => ws[i].hash)
  }

  lemma {:induction false} FromHashesAt(hashes: seq<Bytes>, idx: nat, i: nat)
    requires i < |hashes|
    ensures FromHashes(hashes, idx)[i] == Witness(if Bit(idx, i) then Left else Right, hashes[i])
    decreases i
  {
    if i > 0 { FromHashesAt(hashes[1..], idx / 2, i - 1); }
  }

  lemma {:induction false} DirectionsFromIndex(H: HashFn, a: seq<Bytes>, idx: nat, d: nat)
    requires Floor(idx, d) + Pow2(d) <= |a|
    ensures FromHashes(HashesOf(Witnesses(H, a, idx, d)), idx) == Witnesses(H, a, idx, d)
  {
    hide FromHashes, PerfectRoot, SiblingStart, Floor;
    var ws := Witnesses(H, a, idx, d);
    var hs := HashesOf(ws);
    forall i | 0 <= i < d ensures FromHashes(hs, idx)[i] == ws[i] { FromHashesAt(hs, idx, i); }
  }

  /** Digits of the index and of the length give the index back. */
  lemma {:induction false} SkippedSum(ws: seq<Witness>, idx: nat, accLength: nat, n: nat)
    requires n <= |ws| && forall i :: 0 <= i < n ==> ws[i].direction == if Bit(idx, i) then Left else Right
    ensures Skipped(ws, accLength, n)
         == (Pow2(n) - 1 - (idx - Floor(idx, n))) + (accLength - Floor(accLength, n))
  {
    if n > 0 {
      SkippedSum(ws, idx, accLength, n - 1);
      FloorStep(idx, n - 1);
      FloorStep(accLength, n - 1);
    }
  }

  /** The index of a leaf can be read off its witness and the length of the accumulator. */
  lemma {:induction false} HeightFromWitness(H: HashFn, a: seq<Bytes>, idx: nat)
    requires idx < |a| <= INT64_MAX
    ensures HeightOf(WitnessOf(H, a, idx).value, |a|) == idx
  {
    hide Slot, Skipped, Floor, Bit, PerfectRoot, Wrap;
    WrapNat(idx);
    var s := Slot(|a|, idx);
    SlotSpec(|a|, idx);
    SkippedSum(Witnesses(H, a, idx, s), idx, |a|, s);
    FloorStep(|a|, s);
  }

  /** An accumulator accepts its own witnesses. */
  lemma {:induction false} OwnWitness(H: HashFn, a: seq<Bytes>, idx: nat)
    requires FixedSize(H) && AllDigests(a) && idx < |a|
    ensures VerifyOutcome(H, a, WitnessOf(H, a, idx).value, a[idx]) == Accepted
  {
    hide Slot, Floor, Bit, PerfectRoot, Witnesses, Fold, FoldBuffer, FixedSize, WitnessDigests;
    SlotSpec(|a|, idx);
    FoldWitnesses(H, a, idx, Slot(|a|, idx));
    WitnessOfDigests(H, a, idx);
    FoldBufferDigests(H, WitnessOf(H, a, idx).value, a[idx], Slot(|a|, idx));
  }

  lemma {:induction false} WitnessOfDigests(H: HashFn, a: seq<Bytes>, idx: int)
    requires FixedSize(H) && AllDigests(a) && idx < |a| && a != []
    ensures WitnessDigests(WitnessOf(H, a, idx).value)
  {
    hide FixedSize, AllDigests, PerfectRoot, Floor, Bit, Slot;
    var ws, k := WitnessOf(H, a, idx).value, if idx < 0 then 0 else idx;
    forall i | 0 <= i < |ws| ensures |ws[i].hash| == HASH_SIZE {
      PerfectRootSize(H, a, SiblingStart(k, i), i);
    }
  }

  lemma FewerDigests(a: seq<Bytes>, n: nat)
    requires AllDigests(a) && n <= |a|
    ensures AllDigests(a[..n])
  {
  }

  /** A newer accumulator accepts every witness given at an earlier length. */
  lemma {:induction false} OlderWitnessAccepted(H: HashFn, a: seq<Bytes>, idx: nat, len: nat)
    requires FixedSize(H) && AllDigests(a) && idx < len <= |a| <= INT64_MAX
    ensures VerifyWithLength(H, a, WitnessOf(H, a[..len], idx).value, a[idx], len) == Accepted
  {
    hide WitnessOf, VerifyOutcome, HeightOf, DepthOf, FixedSize, AllDigests;
    HistoricalWitness(H, a, idx, len);
    HistoricalWitness(H, a[..len], idx, len);
    var ws, nws, d := WitnessOf(H, a[..len], idx).value, WitnessOf(H, a, idx).value, DepthOf(idx, len);
    if len == |a| { assert a[..len] == a; }
    HeightFromWitness(H, a[..len], idx);
    OwnWitness(H, a, idx);
    assert ws == nws[..d];
    assert ws + nws[d..] == nws;
  }

  // ----- older accumulators and newer witnesses

  /** No empty slot above s, up to slot i. */
  predicate NoGap(n: nat, s: nat, i: int) {
    forall j: nat :: s < j <= i ==> Bit(n, j)
  }

  /** The search that treats every slot as filled stops at the slot of the leaf, or at the highest
      empty slot above it. */
  lemma {:induction false} FullSlotIs(n: nat, idx: nat, i: nat)
    requires idx < n && Slot(n, idx) <= i && Floor(n, i + 1) <= idx
    ensures var d := FullSlot(i, idx - Floor(n, i + 1));
            && Slot(n, idx) <= d <= i
            && (d == Slot(n, idx) || !Bit(n, d))
            && (NoGap(n, Slot(n, idx), i) <==> d == Slot(n, idx))
    decreases i
  {
    hide Slot, Floor, Bit;
    var s := Slot(n, idx);
    SlotSpec(n, idx);
    if i > 0 {
      FloorStep(n, i);
      FloorBounds(n, i);
      if Bit(n, i) {
        if s < i {
          if idx < Floor(n, i) { SlotUnique(n, idx, i); }
          FullSlotIs(n, idx, i - 1);
        }
      }
    }
  }

  /** An older accumulator and the witness of a newer one: a leaf it does not hold yet is rejected as
      newer; a leaf it holds is accepted exactly when no slot above the one of the leaf is empty. */
  lemma {:induction false} NewerWitnessAccepted(H: HashFn, a: seq<Bytes>, len: nat, idx: nat)
    requires FixedSize(H) && AllDigests(a) && len < |a| <= INT64_MAX && idx < |a|
    ensures var o := VerifyWithLength(H, a[..len], WitnessOf(H, a, idx).value, a[idx], |a|);
            && (idx >= len ==> o == NewerNode)
            && (idx < len ==> (o == Accepted <==> NoGap(len, Slot(len, idx), BitLen(len) - 1)))
  {
    HeightFromWitness(H, a, idx);
    if idx < len { NewerWitnessHeld(H, a, len, idx); }
  }

  lemma {:induction false} NewerWitnessHeld(H: HashFn, a: seq<Bytes>, len: nat, idx: nat)
    requires FixedSize(H) && AllDigests(a) && len < |a| <= INT64_MAX && idx < len
    ensures var o := VerifyWithLength(H, a[..len], WitnessOf(H, a, idx).value, a[idx], |a|);
            o == Accepted <==> NoGap(len, Slot(len, idx), BitLen(len) - 1)
  {
    hide Slot, Bit, Floor, VerifyOutcome, WitnessOf, HeightOf, NoGap, FullSlot, BitLen, FixedSize, AllDigests;
    HeightFromWitness(H, a, idx);
    var s, top := Slot(len, idx), BitLen(len) - 1;
    SlotSpec(len, idx);
    FloorTop(len);
    FullSlotIs(len, idx, top);
    NewerWitnessCut(H, a, len, idx);
    var ws := WitnessOf(H, a, idx).value;
    var d := FullSlot(top, idx);
    if d <= |ws| && d != s { NoRootNotAccepted(H, a[..len], ws[..d], a[idx]); }
  }

  lemma {:induction false} NewerWitnessCut(H: HashFn, a: seq<Bytes>, len: nat, idx: nat)
    requires FixedSize(H) && AllDigests(a) && idx < len < |a|
    ensures WitnessOf(H, a, idx).Some? && Slot(len, idx) <= |WitnessOf(H, a, idx).value|
    ensures VerifyOutcome(H, a[..len], WitnessOf(H, a, idx).value[..Slot(len, idx)], a[idx]) == Accepted
  {
    hide Slot, VerifyOutcome, WitnessOf, FixedSize, AllDigests;
    FewerDigests(a, len);
    HistoricalWitness(H, a, idx, len);
    HistoricalWitness(H, a[..len], idx, len);
    OwnWitness(H, a[..len], idx);
  }

  lemma NoRootNotAccepted(H: HashFn, a: seq<Bytes>, ws: seq<Witness>, h: Bytes)
    requires !Bit(|a|, |ws|)
    ensures VerifyOutcome(H, a, ws, h) != Accepted
  {
  }

  /** The condition fails for real lengths: nine leaves leave slots 1 and 2 empty above leaf 8, so an
      accumulator of nine leaves does not accept any newer witness of its last leaf. */
  lemma {:induction false} NewerWitnessGap(H: HashFn, a: seq<Bytes>)
    requires FixedSize(H) && AllDigests(a) && 9 < |a| <= INT64_MAX
    ensures VerifyWithLength(H, a[..9], WitnessOf(H, a, 8).value, a[8], |a|) != Accepted
  {
    hide *;
    NineLeaves();
    NewerWitnessAccepted(H, a, 9, 8);
    GapAbove(9, 0, BitLen(9) - 1, 1);
  }

  lemma NineLeaves()
    ensures Slot(9, 8) == 0 && BitLen(9) == 4 && !Bit(9, 1)
  {
    assert BitLen(9) == 1 + BitLen(4) == 2 + BitLen(2) == 3 + BitLen(1) == 4 + BitLen(0);
    assert Bit(9, 1) == Bit(4, 0);
  }

  lemma GapAbove(n: nat, s: nat, i: int, j: nat)
    requires s < j <= i && !Bit(n, j)
    ensures !NoGap(n, s, i)
  {
    hide Bit;
  }

  // ----- binding

  /** The inputs that folding a witness gives to the hash function. */
  function FoldInputs(H: HashFn, ws: seq<Witness>, h: Bytes, n: nat): (s: set<Bytes>)
    requires n <= |ws|
  {
    if n == 0 then {} else
    var x := Fold(H, ws, h, n - 1);
    {if ws[n - 1].direction == Left then ws[n - 1].hash + x else x + ws[n - 1].hash} + FoldInputs(H, ws, h, n - 1)
  }

  /** The position inside a block that the directions of the first n steps select. */
  function Selected(ws: seq<Witness>, n: nat): (k: nat)
    requires n <= |ws|
  {
    if n == 0 then 0 else Selected(ws, n - 1) + if ws[n - 1].direction == Left then Pow2(n - 1) else 0
  }

  lemma {:induction false} SelectedBound(ws: seq<Witness>, n: nat)
    requires n <= |ws|
    ensures Selected(ws, n) < Pow2(n)
  {
    if n > 0 { SelectedBound(ws, n - 1); }
  }

  predicate WitnessDigests(ws: seq<Witness>) {
    forall i :: 0 <= i < |ws| ==> |ws[i].hash| == HASH_SIZE
  }

  lemma {:induction false} FoldSize(H: HashFn, ws: seq<Witness>, h: Bytes, n: nat)
    requires n <= |ws| && FixedSize(H) && |h| == HASH_SIZE
    ensures |Fold(H, ws, h, n)| == HASH_SIZE
  {
  }

  /** Where the half of a block starts that the last of n directions selects. */
  function HalfStart(ws: seq<Witness>, n: nat, lo: nat): (m: nat)
    requires 0 < n <= |ws|
  {
    if ws[n - 1].direction == Left then lo + Pow2(n - 1) else lo
  }

  lemma HalfCases(ws: seq<Witness>, n: nat, lo: nat)
    requires 0 < n <= |ws|
    ensures HalfStart(ws, n, lo) == if ws[n - 1].direction == Left then lo + Pow2(n - 1) else lo
  {
  }

  /** One level down, the fold is the root hash of the block that starts at m, and nothing new is hashed. */
  ghost predicate BindsBelow(H: HashFn, a: seq<Bytes>, ws: seq<Witness>, h: Bytes, n: nat, lo: nat, m: nat)
    requires 0 < n <= |ws| && lo + Pow2(n) <= |a|
  {
    && m + Pow2(n - 1) <= |a|
    && Fold(H, ws, h, n - 1) == PerfectRoot(H, a, m, n - 1)
    && FoldInputs(H, ws, h, n - 1) + PerfectInputs(H, a, m, n - 1)
       <= FoldInputs(H, ws, h, n) + PerfectInputs(H, a, lo, n)
  }

  lemma BindsBelowIs(H: HashFn, a: seq<Bytes>, ws: seq<Witness>, h: Bytes, n: nat, lo: nat, m: nat)
    requires 0 < n <= |ws| && lo + Pow2(n) <= |a|
    ensures BindsBelow(H, a, ws, h, n, lo, m) <==>
              && m + Pow2(n - 1) <= |a|
              && Fold(H, ws, h, n - 1) == PerfectRoot(H, a, m, n - 1)
              && FoldInputs(H, ws, h, n - 1) + PerfectInputs(H, a, m, n - 1)
                 <= FoldInputs(H, ws, h, n) + PerfectInputs(H, a, lo, n)
  {
    hide Fold, PerfectRoot, FoldInputs, PerfectInputs, Pow2;
  }

  /** One step of binding: the fold below is the root hash of the half that the direction selects. */
  lemma {:induction false} BindStep(H: HashFn, a: seq<Bytes>, ws: seq<Witness>, h: Bytes, n: nat, lo: nat)
    requires FixedSize(H) && AllDigests(a) && WitnessDigests(ws) && |h| == HASH_SIZE
    requires 0 < n <= |ws| && lo + Pow2(n) <= |a|
    requires Fold(H, ws, h, n) == PerfectRoot(H, a, lo, n)
    requires !Collides(H, FoldInputs(H, ws, h, n) + PerfectInputs(H, a, lo, n))
    ensures BindsBelow(H, a, ws, h, n, lo, HalfStart(ws, n, lo))
  {
    hide *;
    Pow2Double(n);
    HalfCases(ws, n, lo);
    var m, x, w := lo + Pow2(n - 1), Fold(H, ws, h, n - 1), ws[n - 1];
    var p, q := PerfectRoot(H, a, lo, n - 1), PerfectRoot(H, a, m, n - 1);
    FoldSize(H, ws, h, n - 1);
    PerfectRootSize(H, a, lo, n - 1);
    PerfectRootSize(H, a, m, n - 1);
    WitnessSize(ws, n - 1);
    InputsStep(H, a, ws, h, n, lo);
    HashStep(H, a, ws, h, n, lo);
    var u := if w.direction == Left then w.hash + x else x + w.hash;
    NoCollision(H, FoldInputs(H, ws, h, n) + PerfectInputs(H, a, lo, n), u, p + q);
    if w.direction == Left { HalvesEqual(w.hash, x, p, q); } else { HalvesEqual(x, w.hash, p, q); }
    BindsBelowIs(H, a, ws, h, n, lo, HalfStart(ws, n, lo));
  }

  lemma WitnessSize(ws: seq<Witness>, i: nat)
    requires WitnessDigests(ws) && i < |ws|
    ensures |ws[i].hash| == HASH_SIZE
  {
  }

  lemma {:induction false} HashStep(H: HashFn, a: seq<Bytes>, ws: seq<Witness>, h: Bytes, n: nat, lo: nat)
    requires 0 < n <= |ws| && lo + Pow2(n) <= |a|
    ensures var x, w := Fold(H, ws, h, n - 1), ws[n - 1];
            Fold(H, ws, h, n) == H(if w.direction == Left then w.hash + x else x + w.hash)
    ensures PerfectRoot(H, a, lo, n) == H(PerfectRoot(H, a, lo, n - 1) + PerfectRoot(H, a, lo + Pow2(n - 1), n - 1))
  {
  }

  lemma {:induction false} InputsStep(H: HashFn, a: seq<Bytes>, ws: seq<Witness>, h: Bytes, n: nat, lo: nat)
    requires 0 < n <= |ws| && lo + Pow2(n) <= |a|
    ensures var x, w, m := Fold(H, ws, h, n - 1), ws[n - 1], lo + Pow2(n - 1);
            && (if w.direction == Left then w.hash + x else x + w.hash) in FoldInputs(H, ws, h, n)
            && PerfectRoot(H, a, lo, n - 1) + PerfectRoot(H, a, m, n - 1) in PerfectInputs(H, a, lo, n)
            && FoldInputs(H, ws, h, n - 1) <= FoldInputs(H, ws, h, n)
            && PerfectInputs(H, a, lo, n - 1) <= PerfectInputs(H, a, lo, n)
            && PerfectInputs(H, a, m, n - 1) <= PerfectInputs(H, a, lo, n)
  {
    hide Fold, PerfectRoot;
  }

  lemma BindNone(H: HashFn, a: seq<Bytes>, ws: seq<Witness>, h: Bytes, lo: nat)
    requires lo + Pow2(0) <= |a| && Fold(H, ws, h, 0) == PerfectRoot(H, a, lo, 0)
    ensures h == a[lo]
  {
  }

  lemma {:induction false} BindFold(H: HashFn, a: seq<Bytes>, ws: seq<Witness>, h: Bytes, n: nat, lo: nat)
    requires FixedSize(H) && AllDigests(a) && WitnessDigests(ws) && |h| == HASH_SIZE
    requires n <= |ws| && lo + Pow2(n) <= |a|
    requires Fold(H, ws, h, n) == PerfectRoot(H, a, lo, n)
    requires !Collides(H, FoldInputs(H, ws, h, n) + PerfectInputs(H, a, lo, n))
    ensures lo + Selected(ws, n) < |a| && h == a[lo + Selected(ws, n)]
    decreases n
  {
    hide FixedSize, Collides, FoldInputs, PerfectInputs, Fold, PerfectRoot, AllDigests, WitnessDigests;
    if n == 0 {
      BindNone(H, a, ws, h, lo);
    } else {
      var lo' := HalfStart(ws, n, lo);
      BindStep(H, a, ws, h, n, lo);
      FewerInputs(H, FoldInputs(H, ws, h, n - 1) + PerfectInputs(H, a, lo', n - 1),
                  FoldInputs(H, ws, h, n) + PerfectInputs(H, a, lo, n));
      BindFold(H, a, ws, h, n - 1, lo');
    }
  }

  /** Binding: whatever Verify accepts is the hash of the leaf that the directions select in the root
      slot of the length of the witness, unless two of the inputs hashed on both sides collide. */
  lemma {:induction false} VerifyBinding(H: HashFn, a: seq<Bytes>, ws: seq<Witness>, h: Bytes)
    requires FixedSize(H) && AllDigests(a) && WitnessDigests(ws) && |h| == HASH_SIZE
    requires VerifyOutcome(H, a, ws, h) == Accepted
    ensures Bit(|a|, |ws|) && SlotStart(|a|, |ws|) + Selected(ws, |ws|) < SlotStart(|a|, |ws|) + Pow2(|ws|) <= |a|
    ensures (h == a[SlotStart(|a|, |ws|) + Selected(ws, |ws|)])
         || Collides(H, FoldInputs(H, ws, h, |ws|) + PerfectInputs(H, a, SlotStart(|a|, |ws|), |ws|))
  {
    hide FixedSize, AllDigests, WitnessDigests, Collides, FoldInputs, PerfectInputs, Fold, FoldBuffer, PerfectRoot;
    hide Selected, Floor, Bit, BitLen;
    var d := |ws|;
    FoldBufferDigests(H, ws, h, d);
    SlotStartBounds(|a|, d);
    SelectedBound(ws, d);
    if !Collides(H, FoldInputs(H, ws, h, d) + PerfectInputs(H, a, SlotStart(|a|, d), d)) {
      BindFold(H, a, ws, h, d, SlotStart(|a|, d));
    }
  }

  /** Shifting to the right, also for negative numbers. */
  function Shr(x: int, n: nat): (y: int)
    ensures x >= 0 ==> y >= 0
  {
    if n == 0 then x else Shr(x, n - 1) / 2
  }

  lemma {:induction false} ShrBit(x: int, n: nat)
    ensures Shr(x, n) == 2 * Shr(x, n + 1) + if Bit(x, n) then 1 else 0
  {
    ShiftedBit(x, n);
  }

  lemma {:induction false} ShiftedBit(x: int, n: nat)
    ensures Bit(x, n) <==> Shr(x, n) % 2 == 1
    decreases n
  {
    if n > 0 {
      ShrHalf(x, n - 1);
      ShiftedBit(x / 2, n - 1);
    }
  }

  lemma {:induction false} ShrHalf(x: int, n: nat)
    ensures Shr(x, n + 1) == Shr(x / 2, n)
    decreases n
  {
    if n > 0 { ShrHalf(x, n - 1); }
  }

  /** Up to multiples of 2^n, the first n levels of a witness stand for the position they select. */
  lemma {:induction false} SkippedSelected(ws: seq<Witness>, accLength: int, n: nat)
    requires n <= |ws|
    ensures accLength - 1 - Skipped(ws, accLength, n) == Selected(ws, n) + Pow2(n) * (Shr(accLength, n) - 1)
  {
    hide Bit, Shr, Pow2;
    if n > 0 {
      SkippedSelected(ws, accLength, n - 1);
      ShrBit(accLength, n - 1);
      Pow2Double(n);
      Products(Pow2(n - 1), Shr(accLength, n));
    } else {
      ShrNone(accLength);
      Pow2Zero();
    }
  }

  lemma Products(p: int, s: int)
    ensures p * (2 * s - 1) == 2 * (p * s) - p && p * (2 * s + 1 - 1) == 2 * (p * s)
    ensures (2 * p) * (s - 1) == 2 * (p * s) - 2 * p
  {
  }

  lemma ShrNone(x: int)
    ensures Shr(x, 0) == x
  {
  }

  /** Higher levels only add multiples of 2^n. */
  lemma {:induction false} SkippedTail(ws: seq<Witness>, accLength: int, n: nat, m: nat) returns (c: int)
    requires n <= m <= |ws|
    ensures Skipped(ws, accLength, m) == Skipped(ws, accLength, n) + Pow2(n) * c
    decreases m
  {
    hide Bit;
    if m == n {
      c := 0;
    } else {
      var c' := SkippedTail(ws, accLength, n, m - 1);
      var q := Pow2(m - 1 - n);
      Pow2Product(n, m - 1 - n);
      c := c' + (if ws[m - 1].direction == Right then q else 0) + if Bit(accLength, m - 1) then q else 0;
      ThreeTerms(Pow2(n), c', if ws[m - 1].direction == Right then q else 0, if Bit(accLength, m - 1) then q else 0);
    }
  }

  lemma ThreeTerms(p: int, x: int, y: int, z: int)
    ensures p * (x + y + z) == p * x + p * y + p * z
  {
  }

  lemma {:induction false} WrapMultiple(x: int, n: nat) returns (c: int)
    requires n <= 64
    ensures Wrap(x) == x + Pow2(n) * c
  {
    LastPowers();
    hide Pow2;
    var y := (x - INT64_MIN) / TWO_TO_THE_64;
    var j := if INT64_MIN <= x <= INT64_MAX then 0 else 0 - y;
    assert Wrap(x) == x + TWO_TO_THE_64 * j;
    Pow2Product(n, 64 - n);
    c := Pow2(64 - n) * j;
    assert Pow2(n) * (Pow2(64 - n) * j) == Pow2(n) * Pow2(64 - n) * j;
  }

  lemma {:induction false} Div2Multiple(n: nat, c: nat)
    ensures Div2(n, Pow2(n) * c)
  {
    if n > 0 {
      Div2Multiple(n - 1, c);
      assert Pow2(n) * c == 2 * (Pow2(n - 1) * c);
    }
  }

  /** The low digits of the index that a witness stands for are its directions. */
  lemma {:induction false} HeightDigits(ws: seq<Witness>, accLength: int, n: nat)
    requires n <= |ws| && n <= 64 && HeightOf(ws, accLength) >= 0
    ensures Selected(ws, n) == HeightOf(ws, accLength) - Floor(HeightOf(ws, accLength), n)
  {
    hide Selected, Floor, Skipped, Bit, Div2, Pow2, Wrap, Shr;
    var k := HeightOf(ws, accLength);
    SkippedSelected(ws, accLength, n);
    var c1 := SkippedTail(ws, accLength, n, |ws|);
    var c2 := WrapMultiple(accLength - 1 - Skipped(ws, accLength, |ws|), n);
    var p, c := Pow2(n), Shr(accLength, n) - 1 - c1 + c2;
    ThreeTerms(p, Shr(accLength, n) - 1, 0 - c1, c2);
    assert k == Selected(ws, n) + p * c;
    SelectedBound(ws, n);
    MultipleBelow(p, c, k, Selected(ws, n));
    Div2Multiple(n, c);
    FloorUnique(k, n, p * c);
  }

  lemma MultipleBelow(p: int, c: int, k: int, r: int)
    requires p >= 1 && k == r + p * c && 0 <= r < p && k >= 0
    ensures c >= 0 && p * c >= 0
  {
    ProductSign(p, c);
  }

  lemma ProductSign(p: int, c: int)
    requires p >= 1
    ensures if c >= 0 then p * c >= 0 else p * c <= 0 - p
  {
  }

  /** At its own length a witness that reaches a filled slot stands for the leaf that it selects there. */
  lemma {:induction false} HeightInSlot(ws: seq<Witness>, len: nat)
    requires len <= INT64_MAX && Bit(len, |ws|)
    ensures HeightOf(ws, len) == SlotStart(len, |ws|) + Selected(ws, |ws|)
  {
    hide Selected, Floor, Skipped, Bit, Wrap;
    var n := |ws|;
    SkippedFloor(ws, len, n);
    SelectedBound(ws, n);
    SlotStartBounds(len, n);
    FloorStep(len, n);
    WrapNat(SlotStart(len, n) + Selected(ws, n));
  }

  lemma {:induction false} SkippedFloor(ws: seq<Witness>, accLength: nat, n: nat)
    requires n <= |ws|
    ensures Skipped(ws, accLength, n) + Selected(ws, n) == Pow2(n) - 1 + accLength - Floor(accLength, n)
  {
    hide Bit, Floor;
    if n > 0 {
      SkippedFloor(ws, accLength, n - 1);
      FloorStep(accLength, n - 1);
    } else {
      FloorZero(accLength);
    }
  }

  /** Directions that are the digits of k from level n on go on selecting the digits of k. */
  lemma {:induction false} SelectedDigits(ws: seq<Witness>, k: nat, n: nat, m: nat)
    requires n <= m <= |ws| && Selected(ws, n) == k - Floor(k, n)
    requires forall i :: n <= i < m ==> ws[i].direction == if Bit(k, i) then Left else Right
    ensures Selected(ws, m) == k - Floor(k, m)
    decreases m
  {
    hide Floor, Bit;
    if n < m {
      SelectedDigits(ws, k, n, m - 1);
      FloorStep(k, m - 1);
    }
  }

  lemma {:induction false} SelectedTake(ws: seq<Witness>, ws': seq<Witness>, n: nat)
    requires n <= |ws| && n <= |ws'| && forall i :: 0 <= i < n ==> ws[i] == ws'[i]
    ensures Selected(ws, n) == Selected(ws', n)
  {
    if n > 0 { SelectedTake(ws, ws', n - 1); }
  }

  /** The witness that is folded in the end: completed from a newer accumulator, cut for an older one. */
  function Folded(H: HashFn, a: seq<Bytes>, ws: seq<Witness>, accLength: int): (r: seq<Witness>) {
    var height := HeightOf(ws, accLength);
    if |a| == accLength then ws
    else if |a| > accLength then
      var nws := WitnessOf(H, a, height);
      if nws.Some? && |ws| <= |nws.value| then ws + nws.value[|ws|..] else ws
    else
      var d := FullSlot(BitLen(|a|) - 1, height);
      if d <= |ws| then ws[..d] else ws
  }

  /** What the folded witness selects is the leaf that the given witness stands for. */
  lemma {:induction false} FoldedSelects(H: HashFn, a: seq<Bytes>, ws: seq<Witness>, h: Bytes, accLength: int)
    requires VerifyWithLength(H, a, ws, h, accLength) == Accepted && |a| <= INT64_MAX
    ensures var r := Folded(H, a, ws, accLength);
            && VerifyOutcome(H, a, r, h) == Accepted
            && (HeightOf(ws, accLength) >= 0 ==> SlotStart(|a|, |r|) + Selected(r, |r|) == HeightOf(ws, accLength))
  {
    hide Selected, Floor, Bit, VerifyOutcome, HeightOf, FullSlot, WitnessOf, BitLen;
    var k, r := HeightOf(ws, accLength), Folded(H, a, ws, accLength);
    if k < 0 { return; }
    if |a| == accLength {
      AcceptedBit(H, a, ws, h);
      HeightInSlot(ws, |a|);
    } else if |a| > accLength {
      FewLevels(|a|);
      WitnessLevels(H, a, k);
      HeightDigits(ws, accLength, |ws|);
      NewerSelects(H, a, ws, k);
    } else {
      AcceptedBit(H, a, r, h);
      OlderSelects(a, ws, accLength);
    }
  }

  /** An accumulator has fewer than 64 root slots. */
  lemma FewLevels(n: nat)
    requires n <= INT64_MAX
    ensures BitLen(n) <= 63
  {
    hide BitLen, Pow2;
    LastPowers();
    BitLenBounds(n);
    if BitLen(n) >= 64 { Pow2Monotone(63, BitLen(n) - 1); }
  }

  lemma WitnessLevels(H: HashFn, a: seq<Bytes>, idx: nat)
    requires idx < |a|
    ensures WitnessOf(H, a, idx).Some? && |WitnessOf(H, a, idx).value| < BitLen(|a|)
  {
    hide Slot, BitLen, Floor, Bit;
    SlotSpec(|a|, idx);
  }

  lemma AcceptedBit(H: HashFn, a: seq<Bytes>, ws: seq<Witness>, h: Bytes)
    requires VerifyOutcome(H, a, ws, h) == Accepted
    ensures Bit(|a|, |ws|)
  {
  }

  lemma {:induction false} NewerSelects(H: HashFn, a: seq<Bytes>, ws: seq<Witness>, k: nat)
    requires k < |a| && Selected(ws, |ws|) == k - Floor(k, |ws|)
    requires WitnessOf(H, a, k).Some? && |ws| <= |WitnessOf(H, a, k).value|
    ensures var r := ws + WitnessOf(H, a, k).value[|ws|..];
            SlotStart(|a|, |r|) + Selected(r, |r|) == k
  {
    hide Selected, Floor, Bit, Slot, PerfectRoot, SiblingStart;
    var nws := WitnessOf(H, a, k).value;
    var r := ws + nws[|ws|..];
    SlotSpec(|a|, k);
    SelectedTake(ws, r, |ws|);
    SelectedDigits(r, k, |ws|, |r|);
  }

  lemma {:induction false} OlderSelects(a: seq<Bytes>, ws: seq<Witness>, accLength: int)
    requires 0 <= HeightOf(ws, accLength) < |a| <= INT64_MAX
    requires var d := FullSlot(BitLen(|a|) - 1, HeightOf(ws, accLength));
             d <= |ws| && Bit(|a|, d)
    ensures var d := FullSlot(BitLen(|a|) - 1, HeightOf(ws, accLength));
            SlotStart(|a|, d) + Selected(ws[..d], d) == HeightOf(ws, accLength)
  {
    hide Selected, Floor, Bit, Slot, FullSlot, BitLen, HeightOf, NoGap;
    var n, k := |a|, HeightOf(ws, accLength);
    var d := FullSlot(BitLen(n) - 1, k);
    FloorTop(n);
    SlotSpec(n, k);
    FullSlotIs(n, k, BitLen(n) - 1);
    FewLevels(n);
    HeightDigits(ws, accLength, d);
    SelectedTake(ws, ws[..d], d);
  }

  lemma {:induction false} FoldedDigests(H: HashFn, a: seq<Bytes>, ws: seq<Witness>, accLength: int)
    requires FixedSize(H) && AllDigests(a) && WitnessDigests(ws)
    ensures WitnessDigests(Folded(H, a, ws, accLength))
  {
    hide FixedSize, AllDigests, HeightOf, FullSlot, Witnesses, Slot;
    var k := HeightOf(ws, accLength);
    if |a| > accLength && WitnessOf(H, a, k).Some? { WitnessOfDigests(H, a, k); }
  }

  /** Binding across lengths: a hash that is accepted with a witness of any length, older, newer or the
      same, is the hash of the leaf that the folded witness selects, unless two of the inputs hashed on
      both sides collide. That leaf is the one the given witness stands for, if it stands for one. */
  lemma {:induction false} VerifyWithLengthBinding(H: HashFn, a: seq<Bytes>, ws: seq<Witness>, h: Bytes, accLength: int)
    requires FixedSize(H) && AllDigests(a) && WitnessDigests(ws) && |h| == HASH_SIZE && |a| <= INT64_MAX
    requires VerifyWithLength(H, a, ws, h, accLength) == Accepted
    ensures var r := Folded(H, a, ws, accLength);
            var k := SlotStart(|a|, |r|) + Selected(r, |r|);
            && k < SlotStart(|a|, |r|) + Pow2(|r|) <= |a|
            && (HeightOf(ws, accLength) >= 0 ==> k == HeightOf(ws, accLength))
            && (h == a[k] || Collides(H, FoldInputs(H, r, h, |r|) + PerfectInputs(H, a, SlotStart(|a|, |r|), |r|)))
  {
    hide FixedSize, AllDigests, WitnessDigests, Collides, FoldInputs, PerfectInputs, Selected, Floor, Bit;
    hide VerifyOutcome, VerifyWithLength, HeightOf, Folded;
    var r := Folded(H, a, ws, accLength);
    FoldedSelects(H, a, ws, h, accLength);
    FoldedDigests(H, a, ws, accLength);
    VerifyBinding(H, a, r, h);
  }

  /** A witness that stands for no leaf is not refused: with an empty witness of an empty accumulator,
      every accumulator accepts its first leaf. */
  lemma NegativeHeightAccepted(H: HashFn, a: seq<Bytes>)
    requires FixedSize(H) && AllDigests(a) && a != []
    ensures HeightOf([], 0) == -1 && VerifyWithLength(H, a, [], a[0], 0) == Accepted
  {
    hide VerifyOutcome, Witnesses, FixedSize, AllDigests;
    OwnWitness(H, a, 0);
    var nws := WitnessOf(H, a, 0).value;
    assert [] + nws[0..] == nws;
  }
}
