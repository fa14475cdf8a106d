/** The relay link of common/link/link.go: a queue of relay messages that is filled from a receiver,
    handed to a sender and cut down by results. Every channel event is one call; what the receiver and
    the sender answer is arbitrary, and each answer uses up a budget so that every call ends. */
module LinkModel {
  import opened Base

  /** Status of a link: how far the other chain has verified and received. */
  datatype LinkStatus = LinkStatus(txSeq: int, rxSeq: int, height: int)

  datatype ReceiveStatus = ReceiveStatus(height: int, seqNo: int)

  datatype Kind = BlockUpdate | BlockProof | MessageProof

  /** One part of a relay message and the status that the link has after it. */
  datatype Item = Item(kind: Kind, len: int, next: LinkStatus, proofHeight: int)

  /** A relay message object. `serial` tells objects apart and counts them in creation order. The
      identifier sent along is made of the height and sequence of the status, so it is that pair. */
  datatype RelayMessage = RelayMessage(serial: nat, bls: LinkStatus, items: seq<Item>, sent: bool)

  datatype Id = Id(height: int, rxSeq: int)

  function IdOf(rm: RelayMessage): (id: Id) {
    Id(rm.bls.height, rm.bls.rxSeq)
  }

  datatype RelayState = Init | Running | Pending

  datatype Code = Success | BMVUnknown | BMVNotVerifiable | BMVAlreadyVerified | BMVInvalidBlockWitnessOld | OtherCode

  datatype RelayResult = RelayResult(id: Id, err: Code, finalized: bool)

  datatype Preference = Preference(txSizeLimit: int, latestResult: bool, filledBlockUpdate: bool)

  datatype Relayed = Sent | InvalidState | SendFailed

  /** How a call ends: normally, with an error for the error channel, or with a panic. */
  datatype Outcome = Done | Error | Panic

  // ----- the order of hand-overs

  ghost predicate Increasing(s: seq<nat>) {
    forall i, j :: 0 <= i < j < |s| ==> s[i] < s[j]
  }

  /** The queue against the log of successful hand-overs: sent messages form a prefix of the queue,
      the queue and the log are in creation order, and whatever is unsent is newer than the log. */
  ghost predicate InOrder(rms: seq<RelayMessage>, handed: seq<nat>, created: nat) {
    && Increasing(handed)
    && (forall h :: h in handed ==> h < created)
    && (forall i :: 0 <= i < |rms| ==> rms[i].serial < created)
    && (forall i :: 0 <= i < |rms| ==> (rms[i].sent <==> rms[i].serial in handed))
    && (forall i, j :: 0 <= i < j < |rms| ==> rms[i].serial < rms[j].serial)
    && (forall i, j :: 0 <= i < j < |rms| && rms[j].sent ==> rms[i].sent)
    && (forall i, h :: 0 <= i < |rms| && !rms[i].sent && h in handed ==> h < rms[i].serial)
  }

  lemma {:induction false} InOrderAppend(rms: seq<RelayMessage>, handed: seq<nat>, created: nat, rm: RelayMessage)
    requires InOrder(rms, handed, created) && rm.serial == created && !rm.sent
    ensures InOrder(rms + [rm], handed, created + 1)
  {
  }

  /** Removing from the front leaves the order intact. */
  lemma {:induction false} InOrderDrop(rms: seq<RelayMessage>, handed: seq<nat>, created: nat, n: nat)
    requires InOrder(rms, handed, created) && n <= |rms|
    ensures InOrder(rms[n..], handed, created)
  {
  }

  /** Handing over the first unsent message keeps the order. */
  lemma {:induction false} InOrderSend(rms: seq<RelayMessage>, handed: seq<nat>, created: nat, i: nat)
    requires InOrder(rms, handed, created) && i < |rms| && !rms[i].sent
    requires forall j :: 0 <= j < i ==> rms[j].sent
    ensures InOrder(rms[i := rms[i].(sent := true)], handed + [rms[i].serial], created)
  {
    var rms', handed' := rms[i := rms[i].(sent := true)], handed + [rms[i].serial];
    forall a, b | 0 <= a < b < |handed'| ensures handed'[a] < handed'[b] {
      assert handed'[a] in handed;
    }
    forall k | 0 <= k < |rms'| ensures rms'[k].sent <==> rms'[k].serial in handed' {
      assert rms'[k].serial == rms[k].serial;
    }
  }

  // ----- the order of statuses

  predicate AtMost(a: LinkStatus, b: LinkStatus) {
    a.height <= b.height && a.rxSeq <= b.rxSeq
  }

  /** The queue is sorted by height and sequence, and nothing in it is ahead of the link status. */
  ghost predicate Ordered(rms: seq<RelayMessage>, bls: LinkStatus) {
    && (forall i, j :: 0 <= i < j < |rms| ==> AtMost(rms[i].bls, rms[j].bls))
    && forall i :: 0 <= i < |rms| ==> AtMost(rms[i].bls, bls)
  }

  lemma OrderedAppend(rms: seq<RelayMessage>, bls: LinkStatus, rm: RelayMessage)
    requires Ordered(rms, bls) && rm.bls == bls
    ensures Ordered(rms + [rm], bls)
  {
  }

  lemma OrderedDrop(rms: seq<RelayMessage>, bls: LinkStatus, n: nat)
    requires Ordered(rms, bls) && n <= |rms|
    ensures Ordered(rms[n..], bls)
  {
  }

  lemma OrderedRaise(rms: seq<RelayMessage>, bls: LinkStatus, bls': LinkStatus)
    requires Ordered(rms, bls) && AtMost(bls, bls')
    ensures Ordered(rms, bls')
  {
  }

  // ----- removing

  /** The first message that the status covers, or the length of the queue. */
  function FirstCovered(rms: seq<RelayMessage>, bls: LinkStatus): (n: nat)
    ensures n <= |rms|
    ensures n < |rms| ==> AtMost(rms[n].bls, bls)
    ensures forall i :: 0 <= i < n ==> !AtMost(rms[i].bls, bls)
  {
    if rms == [] || AtMost(rms[0].bls, bls) then 0 else 1 + FirstCovered(rms[1..], bls)
  }

  /** The queue after a removal: everything up to the first covered message goes. */
  function Removed(rms: seq<RelayMessage>, bls: LinkStatus): (r: seq<RelayMessage>) {
    var n := FirstCovered(rms, bls);
    if n < |rms| then rms[n + 1..] else rms
  }

  /** In a sorted queue, the status of any queued message removes exactly the oldest message. */
  lemma {:induction false} RemovesOldest(rms: seq<RelayMessage>, bls: LinkStatus, i: nat)
    requires Ordered(rms, bls) && i < |rms|
    ensures Removed(rms, rms[i].bls) == rms[1..]
  {
    assert AtMost(rms[0].bls, rms[i].bls);
  }

  /** The first status that the link status covers, or the length of the list. */
  function FirstReached(rss: seq<ReceiveStatus>, s: LinkStatus): (n: nat)
    ensures n <= |rss|
    ensures n < |rss| ==> rss[n].height <= s.height && rss[n].seqNo <= s.rxSeq
    ensures forall i :: 0 <= i < n ==> rss[i].height > s.height || rss[i].seqNo > s.rxSeq
  {
    if rss == [] || (rss[0].height <= s.height && rss[0].seqNo <= s.rxSeq) then 0 else 1 + FirstReached(rss[1..], s)
  }

  ghost predicate AllSent(rms: seq<RelayMessage>) {
    forall i :: 0 <= i < |rms| ==> rms[i].sent
  }

  /** The same messages, of which more may have been sent. */
  ghost predicate OnlySent(rms: seq<RelayMessage>, rms': seq<RelayMessage>) {
    |rms'| == |rms|
    && forall i :: 0 <= i < |rms| ==> rms'[i] == rms[i].(sent := rms'[i].sent) && (rms[i].sent ==> rms'[i].sent)
  }

  function Serials(rms: seq<RelayMessage>): (s: seq<nat>)
    ensures |s| == |rms| && forall i :: 0 <= i < |rms| ==> s[i] == rms[i].serial
  {
    seq(|rms|, i requires 0 <= i < |rms| => rms[i].serial)
  }

  /** The oldest message is gone, the others are still there in their order, and only new messages
      follow them. */
  ghost predicate OldestGone(before: seq<nat>, after: seq<nat>, created: nat) {
    && before != [] && before[1..] <= after && before[0] !in after
    && forall k :: |before| - 1 <= k < |after| ==> after[k] >= created
  }

  lemma OnlyOldestGone(before: seq<nat>, after: seq<nat>, created: nat)
    requires before != [] && Increasing(before) && before[0] < created && before[1..] <= after
    requires forall k :: |before| - 1 <= k < |after| ==> after[k] >= created
    ensures OldestGone(before, after, created)
  {
    forall k | 0 <= k < |after| ensures after[k] != before[0] {
      if k < |before| - 1 { assert after[k] == before[1..][k] == before[k + 1]; }
    }
  }

  lemma SerialsInOrder(rms: seq<RelayMessage>, handed: seq<nat>, created: nat)
    requires InOrder(rms, handed, created)
    ensures Increasing(Serials(rms)) && forall k :: 0 <= k < |rms| ==> Serials(rms)[k] < created
  {
  }

  // ----- the outside

  /** The receiver and the sender. An honest receiver returns one block update, which raises the
      height, and message proofs that raise the sequence; block proofs change neither. */
  class World {
    const honest: bool
    var budget: nat
    /** Block updates of the last answer that have not been gone through yet. */
    var batch: seq<Item>
    /** Serials of the messages that the sender has taken, in the order of the hand-overs, and their items. */
    ghost var log: seq<nat>
    ghost var relayed: seq<seq<Item>>
    /** Everything that the receiver has handed out for messages, in order. */
    ghost var record: seq<Handout>

    constructor (honest: bool, budget: nat)
      ensures this.honest == honest && this.budget == budget && log == [] && relayed == [] && record == []
    {
      this.honest, this.budget, batch := honest, budget, [];
      log, relayed, record := [], [], [];
    }

    /** Uses up one unit of the budget; without budget the outside fails. */
    method Spend() returns (ok: bool)
      modifies this`budget
      ensures ok <==> old(budget) > 0
      ensures budget == if ok then old(budget) - 1 else 0
    {
      ok := budget > 0;
      if ok { budget := budget - 1; }
    }

    /** The receiver answers with block updates, which are then gone through one by one. */
    method BuildBlockUpdate(bls: LinkStatus) returns (ok: bool)
      modifies this`budget, this`batch
      ensures budget <= old(budget) && (ok ==> budget < old(budget))
      ensures ok && honest ==> OneUpdate(bls, batch)
    {
      ok := Spend();
      if !ok { return; }
      ok, batch := *, *;
      if honest && !OneUpdate(bls, batch) { ok := false; }
    }

    method NextUpdate() returns (bu: Item)
      requires batch != []
      modifies this`batch, this`record
      ensures bu == old(batch)[0] && batch == old(batch)[1..] && record == old(record) + [Update(bu)]
    {
      bu, batch := batch[0], batch[1..];
      record := record + [Update(bu)];
    }

    /** A message proof, or nothing. */
    method BuildMessageProof(bls: LinkStatus) returns (r: Option<seq<Item>>)
      modifies this`budget, this`record
      ensures budget <= old(budget) && (r.Some? ==> budget < old(budget))
      ensures r.Some? ==> |r.value| <= 1
      ensures r.Some? && honest && r.value != [] ==> RaisesSeq(bls, r.value[0])
      ensures record == if r.Some? && r.value != [] then old(record) + [Proof(r.value[0])] else old(record)
    {
      var ok := Spend();
      if !ok { return None; }
      r := *;
      if r.Some? && (|r.value| > 1 || (honest && r.value != [] && !RaisesSeq(bls, r.value[0]))) { r := None; }
      if r.Some? && r.value != [] { record := record + [Proof(r.value[0])]; }
    }

    /** A block proof for the message proof handed out last. */
    method BuildBlockProof(bls: LinkStatus) returns (r: Option<Item>)
      modifies this`budget, this`record
      ensures budget <= old(budget)
      ensures r.Some? && honest ==> r.value.next.height == bls.height && r.value.next.rxSeq == bls.rxSeq
      ensures record == if r.Some? then old(record) + [ProofOfBlock(r.value)] else old(record)
    {
      r := RebuildBlockProof(bls);
      if r.Some? { record := record + [ProofOfBlock(r.value)]; }
    }

    /** A block proof that is not for a new message. */
    method RebuildBlockProof(bls: LinkStatus) returns (r: Option<Item>)
      modifies this`budget
      ensures budget <= old(budget)
      ensures r.Some? && honest ==> r.value.next.height == bls.height && r.value.next.rxSeq == bls.rxSeq
    {
      var ok := Spend();
      if !ok { return None; }
      r := *;
      if r.Some? && honest && !(r.value.next.height == bls.height && r.value.next.rxSeq == bls.rxSeq) { r := None; }
    }

    method BuildRelayMessage(items: seq<Item>) returns (ok: bool)
      modifies this`budget
      ensures budget <= old(budget)
    {
      ok := Spend();
      if ok { ok := *; }
    }

    /** The sender takes a message or does not; what it takes is on record. */
    method Relay(rm: RelayMessage) returns (r: Relayed)
      modifies this`budget, this`log, this`relayed
      ensures budget <= old(budget)
      ensures log == if r == Sent then old(log) + [rm.serial] else old(log)
      ensures relayed == if r == Sent then old(relayed) + [rm.items] else old(relayed)
    {
      var ok := Spend();
      r := *;
      if !ok { r := SendFailed; }
      if r == Sent { log, relayed := log + [rm.serial], relayed + [rm.items]; }
    }

    method GetStatus() returns (r: Option<LinkStatus>)
      modifies this`budget
      ensures budget <= old(budget)
    {
      var ok := Spend();
      r := *;
      if !ok { r := None; }
    }
  }

  predicate OneUpdate(bls: LinkStatus, bus: seq<Item>) {
    |bus| <= 1 && (bus != [] ==> bus[0].next.height > bls.height && bus[0].next.rxSeq == bls.rxSeq)
  }

  predicate RaisesSeq(bls: LinkStatus, mp: Item) {
    mp.next.height == bls.height && mp.next.rxSeq > bls.rxSeq
  }

  // ----- the items of messages

  /** Something the receiver hands out for messages. */
  datatype Handout = Update(item: Item) | Proof(item: Item) | ProofOfBlock(item: Item)

  /** What has to be in messages after everything on record has been collected: updates and message proofs
      in the order in which they were handed out, and every block proof in front of the message proof it
      was asked for. Empty message proofs are left out, and so is what was lost to an error. */
  function Collected(record: seq<Handout>, lost: set<nat>): (items: seq<Item>) {
    if record == [] then [] else
    var n := |record| - 1;
    var before := Collected(record[..n], lost);
    if n in lost then before else WithHandout(before, record[n])
  }

  function WithHandout(items: seq<Item>, h: Handout): (r: seq<Item>) {
    match h
    case Update(u) => items + [u]
    case Proof(mp) => if mp.len == 0 then items else items + [mp]
    case ProofOfBlock(bp) => InFrontOfLast(items, bp)
  }

  function InFrontOfLast(items: seq<Item>, bp: Item): (r: seq<Item>) {
    if items == [] then [bp] else items[..|items| - 1] + [bp, items[|items| - 1]]
  }

  lemma CollectedNext(record: seq<Handout>, lost: set<nat>, h: Handout)
    requires |record| !in lost
    ensures Collected(record + [h], lost) == WithHandout(Collected(record, lost), h)
  {
    assert (record + [h])[..|record|] == record;
  }

  /** Losing the last thing on record: everything else stays. */
  lemma {:induction false} CollectedLost(record: seq<Handout>, lost: set<nat>)
    requires record != []
    ensures Collected(record, lost + {|record| - 1}) == Collected(record[..|record| - 1], lost)
  {
    CollectedSame(record[..|record| - 1], lost, lost + {|record| - 1});
  }

  lemma {:induction false} CollectedSame(record: seq<Handout>, lost: set<nat>, lost': set<nat>)
    requires forall i: nat :: i < |record| ==> (i in lost <==> i in lost')
    ensures Collected(record, lost) == Collected(record, lost')
  {
    if record != [] { CollectedSame(record[..|record| - 1], lost, lost'); }
  }

  /** The items of all messages, one after the other. */
  function Flat(made: seq<seq<Item>>): (items: seq<Item>) {
    if made == [] then [] else Flat(made[..|made| - 1]) + made[|made| - 1]
  }

  lemma FlatNext(made: seq<seq<Item>>, items: seq<Item>)
    ensures Flat(made + [items]) == Flat(made) + items
  {
    assert (made + [items])[..|made|] == made;
  }

  function TotalLen(items: seq<Item>): (n: int) {
    if items == [] then 0 else TotalLen(items[..|items| - 1]) + items[|items| - 1].len
  }

  /** The length of the message proofs that were handed out. */
  function ProofLen(record: seq<Handout>): (n: int) {
    if record == [] then 0 else
    ProofLen(record[..|record| - 1]) + if record[|record| - 1].Proof? then record[|record| - 1].item.len else 0
  }

  lemma ProofLenNext(record: seq<Handout>, h: Handout)
    ensures ProofLen(record + [h]) == ProofLen(record) + if h.Proof? then h.item.len else 0
  {
    assert (record + [h])[..|record|] == record;
  }

  lemma ProofLenSame(record: seq<Handout>, record': seq<Handout>)
    requires record <= record' && |record'| <= |record| + 1
    requires |record'| == |record| + 1 ==> !record'[|record|].Proof?
    ensures ProofLen(record') == ProofLen(record)
  {
    hide ProofLen;
    if |record'| == |record| + 1 {
      ProofLenNext(record, record'[|record|]);
      assert record + [record'[|record|]] == record';
    } else {
      assert record == record';
    }
  }

  lemma TotalLenNext(items: seq<Item>, item: Item)
    ensures TotalLen(items + [item]) == TotalLen(items) + item.len
  {
    assert (items + [item])[..|items|] == items;
  }

  /** The messages in the queue and the messages that the sender has taken carry the items they were made
      of: message number i was made of made[i]. */
  ghost predicate Carry(made: seq<seq<Item>>, rms: seq<RelayMessage>, log: seq<nat>, relayed: seq<seq<Item>>) {
    && (forall i :: 0 <= i < |rms| ==> rms[i].serial < |made| && rms[i].items == made[rms[i].serial])
    && |relayed| == |log| && forall k :: 0 <= k < |log| ==> log[k] < |made| && relayed[k] == made[log[k]]
  }

  /** The balance of the books: what was handed out is what messages were made of, followed by what is open
      and what is about to be added. */
  ghost predicate Tallied(record: seq<Handout>, lost: set<nat>, made: seq<seq<Item>>,
                          open: seq<Item>, size: int, pending: seq<Item>)
  {
    && (forall i :: i in lost ==> i < |record|) && size == TotalLen(open)
    && Collected(record, lost) == Flat(made) + open + pending
  }

  lemma TalliedAdd(record: seq<Handout>, lost: set<nat>, made: seq<seq<Item>>,
                   open: seq<Item>, size: int, item: Item, rest: seq<Item>)
    requires Tallied(record, lost, made, open, size, [item] + rest)
    ensures Tallied(record, lost, made, open + [item], size + item.len, rest)
  {
    hide Collected, Flat, TotalLen;
    TotalLenNext(open, item);
    assert Flat(made) + open + ([item] + rest) == Flat(made) + (open + [item]) + rest;
  }

  lemma TalliedClose(record: seq<Handout>, lost: set<nat>, made: seq<seq<Item>>,
                     open: seq<Item>, size: int, pending: seq<Item>)
    requires Tallied(record, lost, made, open, size, pending)
    ensures Tallied(record, lost, made + [open], [], 0, pending)
  {
    hide Collected, Flat, TotalLen;
    FlatNext(made, open);
    EmptyLen();
    assert Flat(made) + open + [] == Flat(made) + open;
  }

  lemma TalliedUpdate(record: seq<Handout>, lost: set<nat>, made: seq<seq<Item>>,
                      open: seq<Item>, size: int, u: Item)
    requires Tallied(record, lost, made, open, size, [])
    ensures Tallied(record + [Update(u)], lost, made, open, size, [u])
  {
    hide Collected, Flat, TotalLen;
    CollectedNext(record, lost, Update(u));
    assert Flat(made) + open + [] == Flat(made) + open;
  }

  lemma TalliedProof(record: seq<Handout>, lost: set<nat>, made: seq<seq<Item>>,
                     open: seq<Item>, size: int, mp: Item)
    requires Tallied(record, lost, made, open, size, [])
    ensures Tallied(record + [Proof(mp)], lost, made, open, size, if mp.len == 0 then [] else [mp])
  {
    hide Collected, Flat, TotalLen;
    CollectedNext(record, lost, Proof(mp));
    assert Flat(made) + open + [] == Flat(made) + open;
  }

  lemma TalliedBlockProof(record: seq<Handout>, lost: set<nat>, made: seq<seq<Item>>,
                          open: seq<Item>, size: int, mp: Item, bp: Item)
    requires Tallied(record, lost, made, open, size, [mp])
    ensures Tallied(record + [ProofOfBlock(bp)], lost, made, open, size, [bp, mp])
  {
    hide Collected, Flat, TotalLen, InFrontOfLast;
    CollectedNext(record, lost, ProofOfBlock(bp));
    FrontOfLast(Flat(made) + open, mp, bp);
  }

  /** A message proof that is not added is lost, and nothing else is. */
  lemma TalliedLose(record: seq<Handout>, lost: set<nat>, made: seq<seq<Item>>,
                    open: seq<Item>, size: int, mp: Item)
    requires Tallied(record, lost, made, open, size, [mp]) && record != [] && |record| - 1 !in lost
    requires record[|record| - 1] == Proof(mp) && mp.len != 0
    ensures Tallied(record, lost + {|record| - 1}, made, open, size, [])
  {
    hide Collected, Flat, TotalLen;
    var n := |record| - 1;
    CollectedNext(record[..n], lost, Proof(mp));
    assert record[..n] + [Proof(mp)] == record;
    CollectedLost(record, lost);
    var x, y := Collected(record[..n], lost), Flat(made) + open;
    assert x + [mp] == y + [mp];
    assert x == (x + [mp])[..|x|] && y == (y + [mp])[..|y|];
    assert y == y + [];
  }

  /** What the queue and the books look like, for comparing one state with a later one. */
  datatype Trail = Trail(serials: seq<nat>, log: seq<nat>, created: nat, books: Books)

  /** Log and books only grow, no message is created twice, and the messages that were queued stay in their
      order in front of new ones. */
  ghost predicate Grew(a: Trail, b: Trail) {
    && a.created <= b.created && a.log <= b.log && a.serials <= b.serials
    && (forall k :: |a.serials| <= k < |b.serials| ==> b.serials[k] >= a.created)
    && Later(a.books, b.books, Error)
  }

  lemma TalliedBound(record: seq<Handout>, lost: set<nat>, made: seq<seq<Item>>,
                     open: seq<Item>, size: int, pending: seq<Item>)
    requires Tallied(record, lost, made, open, size, pending)
    ensures |record| !in lost
  {
    hide Collected, Flat, TotalLen;
  }

  lemma GrewRecord(a: Trail, b: Trail)
    requires Grew(a, b)
    ensures a.books.record <= b.books.record
  {
  }

  lemma LaterSelf(a: Books)
    ensures forall o :: Later(a, a, o)
  {
  }

  lemma GrewSelf(a: Trail)
    ensures Grew(a, a)
  {
  }

  lemma GrewThen(a: Trail, b: Trail, c: Trail)
    requires Grew(a, b) && Grew(b, c)
    ensures Grew(a, c)
  {
    hide Later;
    LaterThen(a.books, b.books, c.books);
    forall k | |a.serials| <= k < |c.serials| ensures c.serials[k] >= a.created {
      if k < |b.serials| { assert c.serials[k] == b.serials[k]; }
    }
  }

  lemma LaterThen(a: Books, b: Books, c: Books)
    requires Later(a, b, Error) && Later(b, c, Error)
    ensures Later(a, c, Error)
  {
    forall i | i in c.lost - a.lost ensures |a.record| <= i < |c.record| && c.record[i].Proof? {
      if i in b.lost { assert i in b.lost - a.lost; } else { assert i in c.lost - b.lost; }
    }
  }

  /** Only handing out and taking items into the open list. */
  lemma GrewItems(a: Trail, b: Trail, record: seq<Handout>, open: seq<Item>)
    requires Grew(a, b) && b.books.record <= record
    ensures Grew(a, b.(books := b.books.(record := record, open := open)))
  {
  }

  lemma GrewLost(a: Trail, b: Trail, i: nat)
    requires Grew(a, b) && |a.books.record| <= i < |b.books.record| && b.books.record[i].Proof?
    ensures Grew(a, b.(books := b.books.(lost := b.books.lost + {i})))
  {
    var lost' := b.books.lost + {i};
    forall j | j in lost' - a.books.lost ensures |a.books.record| <= j < |b.books.record| && b.books.record[j].Proof? {
      if j != i { assert j in b.books.lost - a.books.lost; }
    }
  }

  lemma GrewSent(a: Trail, b: Trail, serial: nat, items: seq<Item>)
    requires Grew(a, b)
    ensures Grew(a, b.(log := b.log + [serial], books := b.books.(relayed := b.books.relayed + [items])))
  {
  }

  lemma GrewMade(a: Trail, b: Trail, items: seq<Item>, open: seq<Item>)
    requires Grew(a, b)
    ensures Grew(a, Trail(b.serials + [b.created], b.log, b.created + 1,
                          b.books.(made := b.books.made + [items], open := open)))
  {
  }

  lemma GrewEnds(a: Trail, b: Trail, o: Outcome)
    requires Grew(a, b) && (o != Error ==> b.books.lost == a.books.lost)
    ensures a.created <= b.created && a.log <= b.log && a.serials <= b.serials && Later(a.books, b.books, o)
    ensures forall k :: |a.serials| <= k < |b.serials| ==> b.serials[k] >= a.created
  {
  }

  // ----- events

  /** Everything of a link and its sender that events change. */
  datatype Snapshot = Snapshot(
    rms: seq<RelayMessage>, rss: seq<ReceiveStatus>, bls: LinkStatus, relayState: RelayState,
    log: seq<nat>, created: nat, books: Books)

  /** What was handed out, what messages were made of, what is still open, what the sender got, and which
      handouts were lost to errors. */
  datatype Books = Books(
    record: seq<Handout>, made: seq<seq<Item>>, open: seq<Item>, relayed: seq<seq<Item>>, lost: set<nat>)

  /** From one state of the books to a later one. Only calls that end in an error lose anything. */
  ghost predicate Later(b: Books, b': Books, o: Outcome) {
    && b.record <= b'.record && b.made <= b'.made && b.relayed <= b'.relayed && b.lost <= b'.lost
    && (o != Error ==> b'.lost == b.lost)
    && forall i :: i in b'.lost - b.lost ==> |b.record| <= i < |b'.record| && b'.record[i].Proof?
  }

  /** The link has caught up with the latest status of the receiver. */
  predicate Reached(rss: seq<ReceiveStatus>, bls: LinkStatus) {
    |rss| == 0 || (rss[|rss| - 1].height <= bls.height && rss[|rss| - 1].seqNo <= bls.rxSeq)
  }

  ghost predicate Queued(rms: seq<RelayMessage>, id: Id) {
    exists i :: 0 <= i < |rms| && IdOf(rms[i]) == id
  }

  /** A status from the receiver: it is recorded, nothing queued is lost, and a successful end that does
      not wait has caught up. */
  ghost predicate StatusStep(s: Snapshot, rs: ReceiveStatus, o: Outcome, s': Snapshot) {
    && o != Panic && s.created <= s'.created && s.log <= s'.log && Later(s.books, s'.books, o)
    && s'.rss == s.rss + [rs] && Serials(s.rms) <= Serials(s'.rms)
    && (o == Done && s'.relayState != Pending ==> Reached(s'.rss, s'.bls))
  }

  /** A result from the sender: what every code does. */
  ghost predicate ReportStep(p: Preference, honest: bool, s: Snapshot, rr: RelayResult, o: Outcome, s': Snapshot) {
    && s.created <= s'.created && s.log <= s'.log && Later(s.books, s'.books, o)
    && (o == Panic <==> Queued(s.rms, rr.id) && (rr.err == BMVUnknown || rr.err == OtherCode))
    && (!Queued(s.rms, rr.id) || o == Panic ==> s' == s && o != Error)
    && (Queued(s.rms, rr.id) ==>
          match rr.err
          case Success =>
            if !p.latestResult && !rr.finalized then o == Done && s' == s
            else honest ==> OldestGone(Serials(s.rms), Serials(s'.rms), s.created)
          case BMVNotVerifiable =>
            if !rr.finalized then o == Done && s' == s.(relayState := Pending)
            else o == Done ==>
              && (forall k :: 0 <= k < |s'.rms| ==> s'.rms[k].serial >= s.created)
              && (s'.relayState != Pending ==> Reached(s'.rss, s'.bls) && AllSent(s'.rms))
          case BMVAlreadyVerified =>
            if !rr.finalized then o == Done && s' == s.(relayState := Pending)
            else o == Done ==> s' == s.(rms := [], bls := s'.bls, relayState := Running)
          case BMVInvalidBlockWitnessOld => s' == s
          case BMVUnknown => true
          case OtherCode => true)
  }

  class Link {
    const w: World
    const p: Preference
    var rms: seq<RelayMessage>
    var rss: seq<ReceiveStatus>
    var rmis: seq<seq<Item>>
    var size: int
    var bls: LinkStatus
    var relayState: RelayState
    var once: bool
    var created: nat
    /** What every message made so far was made of, and the handouts lost to errors. */
    ghost var made: seq<seq<Item>>
    ghost var lost: set<nat>

    ghost predicate Valid()
      reads this, w
    {
      Lined() && Balanced([])
    }

    /** The order of the queue. */
    ghost predicate Lined()
      reads this, w
    {
      InOrder(rms, w.log, created) && (w.honest ==> Ordered(rms, bls))
    }

    /** What was handed out is what messages were made of, followed by what is open and what is about to be
        added. There is always exactly one open list. */
    ghost predicate Balanced(pending: seq<Item>)
      reads this, w
    {
      && |rmis| == 1 && |made| == created && Carry(made, rms, w.log, w.relayed)
      && Tallied(w.record, lost, made, rmis[0], size, pending)
    }

    /** The state that events change, as a value. */
    ghost function Now(): (s: Snapshot)
      reads this, w
    {
      Snapshot(rms, rss, bls, relayState, w.log, created, Accounts())
    }

    ghost function Accounts(): (b: Books)
      reads this, w
    {
      Books(w.record, made, if rmis == [] then [] else rmis[0], w.relayed, lost)
    }

    ghost function Track(): (t: Trail)
      reads this, w
    {
      Trail(Serials(rms), w.log, created, Accounts())
    }

    /** What every step keeps besides Valid. */
    twostate predicate Grows()
      reads this, w
    {
      Grew(old(Track()), Track())
    }

    constructor (w: World, p: Preference, bls: LinkStatus)
      requires w.log == [] && w.relayed == [] && w.record == []
      ensures Valid() && this.w == w && this.p == p
      ensures Now() == Snapshot([], [], bls, Init, [], 0, Books([], [], [], [], {}))
    {
      this.w, this.p, this.bls := w, p, bls;
      rms, rss, rmis, size := [], [], [[]], 0;
      relayState, once, created := Init, false, 0;
      made, lost := [], {};
    }

    predicate OverLimit()
      reads this
    {
      p.txSizeLimit < size
    }

    method AppendItem(item: Item, ghost rest: seq<Item>)
      requires Lined() && Balanced([item] + rest)
      modifies this`rmis, this`size
      ensures Lined() && Balanced(rest)
      ensures rmis == [old(rmis)[0] + [item]] && size == old(size) + item.len
    {
      hide InOrder, Ordered, Tallied, Carry;
      TalliedAdd(w.record, lost, made, rmis[0], size, item, rest);
      var n := |rmis| - 1;
      rmis := rmis[n := rmis[n] + [item]];
      size := size + item.len;
    }

    /** Hands one message to the sender. */
    method HandOver(i: nat) returns (r: Relayed)
      requires Valid() && i < |rms| && !rms[i].sent && forall j :: 0 <= j < i ==> rms[j].sent
      modifies this`rms, w`budget, w`log, w`relayed
      ensures Valid() && Grows() && Serials(rms) == Serials(old(rms)) && w.budget <= old(w.budget)
      ensures r == Sent ==> rms == old(rms)[i := old(rms)[i].(sent := true)] && w.log == old(w.log) + [rms[i].serial]
      ensures r != Sent ==> rms == old(rms) && w.log == old(w.log)
    {
      hide InOrder, Ordered, Tallied, Carry, Grew;
      ghost var log, relayed, a := w.log, w.relayed, Track();
      GrewSelf(a);
      r := w.Relay(rms[i]);
      if r == Sent {
        InOrderSend(rms, log, created, i);
        SentOrdered(rms, bls, i);
        CarrySend(made, rms, log, relayed, i);
        GrewSent(a, a, rms[i].serial, rms[i].items);
        rms := rms[i := rms[i].(sent := true)];
        assert Serials(rms) == Serials(old(rms));
      }
    }

    /** Hands the unsent messages to the sender, in order, until one is not taken. */
    method SendRelayMessage() returns (o: Outcome)
      requires Valid()
      modifies this`rms, this`relayState, w`budget, w`log, w`relayed
      ensures Valid() && Grows() && Serials(rms) == Serials(old(rms)) && w.budget <= old(w.budget)
      ensures o != Panic
      ensures OnlySent(old(rms), rms)
      ensures forall k :: |old(w.log)| <= k < |w.log| ==> w.log[k] in Serials(old(rms))
      ensures o == Done && relayState != Pending ==> AllSent(rms)
      ensures relayState == old(relayState) || (relayState == Pending && o == Done)
    {
      hide InOrder, Ordered, Tallied, Carry, Grew;
      var n := |rms|;
      GrewSelf(Track());
      for i := 0 to n
        invariant n == |rms| && Valid() && Grows() && Serials(rms) == Serials(old(rms))
        invariant w.budget <= old(w.budget)
        invariant forall j :: 0 <= j < i ==> rms[j].sent
        invariant relayState == old(relayState) && OnlySent(old(rms), rms)
        invariant forall k :: |old(w.log)| <= k < |w.log| ==> w.log[k] in Serials(old(rms))
      {
        if !rms[i].sent {
          assert Serials(old(rms))[i] == rms[i].serial;
          ghost var a := Track();
          var r := HandOver(i);
          GrewThen(old(Track()), a, Track());
          if r == InvalidState {
            relayState := Pending;
            return Done;
          }
          if r == SendFailed { return Error; }
        }
      }
      o := Done;
    }

    /** Queues one message. */
    method AddMessage(ghost a: Trail, items: seq<Item>)
      requires Lined() && |made| == created && Carry(made, rms, w.log, w.relayed) && Grew(a, Track())
      modifies this`rms, this`created, this`made
      ensures Lined() && created == old(created) + 1 && Carry(made, rms, w.log, w.relayed) && Grew(a, Track())
      ensures rms == old(rms) + [RelayMessage(old(created), bls, items, false)] && made == old(made) + [items]
    {
      hide InOrder, Ordered, Carry, Grew;
      var rm := RelayMessage(created, bls, items, false);
      InOrderAppend(rms, w.log, created, rm);
      CarryAppend(made, rms, w.log, w.relayed, rm);
      if w.honest { OrderedAppend(rms, bls, rm); }
      GrewMade(a, Track(), items, Accounts().open);
      assert Serials(rms + [rm]) == Serials(rms) + [created];
      rms, created := rms + [rm], created + 1;
      made := made + [items];
    }

    /** Makes a relay message of every collected list of items. */
    method AppendRelayMessage(ghost pending: seq<Item>) returns (o: Outcome)
      requires Lined() && Balanced(pending)
      modifies this`rms, this`rmis, this`size, this`created, this`made, w`budget
      ensures Lined() && Balanced(pending) && Grows() && w.budget <= old(w.budget)
      ensures o != Panic
      ensures o == Done ==> rms == old(rms) + Messages(old(created), bls, old(rmis)) && rmis == [[]] && size == 0
      ensures o == Error ==> rms == old(rms) && rmis == old(rmis) && made == old(made) && size == old(size)
    {
      hide InOrder, Ordered, Tallied, Carry, Grew, Messages;
      GrewSelf(Track());
      ghost var ms: seq<RelayMessage> := [];
      MessagesNone(created, bls);
      for i := 0 to |rmis|
        invariant Lined() && rmis == old(rmis) && size == old(size) && w.budget <= old(w.budget) && Grows()
        invariant created == old(created) + i && rms == old(rms) + ms && ms == Messages(old(created), bls, rmis[..i])
        invariant made == old(made) + rmis[..i] && Carry(made, rms, w.log, w.relayed)
      {
        assert rmis[..i + 1] == rmis[..i] + [rmis[i]];
        var ok := w.BuildRelayMessage(rmis[i]);
        if !ok {
          assert i == 0 && made == old(made) + rmis[..0] == old(made);
          return Error;
        }
        MessagesNext(old(created), bls, rmis[..i], rmis[i]);
        AddMessage(old(Track()), rmis[i]);
        ms := ms + [rms[|rms| - 1]];
      }
      assert rmis[..|rmis|] == rmis == [rmis[0]];
      TalliedClose(w.record, lost, old(made), rmis[0], size, pending);
      GrewItems(old(Track()), Track(), w.record, []);
      rmis, size := [[]], 0;
      o := Done;
    }

    /** Takes over the status after an item. */
    method UpdateStatus(next: LinkStatus)
      requires Lined() && (w.honest ==> AtMost(bls, next))
      modifies this`bls
      ensures Lined() && bls == next
    {
      hide InOrder, Ordered;
      if w.honest { OrderedRaise(rms, bls, next); }
      bls := next;
    }

    method BuildMessageProof() returns (r: Option<seq<Item>>)
      requires Valid()
      modifies this`bls, w`budget, w`record
      ensures Lined() && w.budget <= old(w.budget) && (r.Some? ==> w.budget < old(w.budget) && |r.value| <= 1)
      ensures Balanced(if r.Some? && r.value != [] && r.value[0].len != 0 then r.value else []) && Grows()
      ensures w.record == if r.Some? && r.value != [] then old(w.record) + [Proof(r.value[0])] else old(w.record)
      ensures bls == if r.Some? && r.value != [] then r.value[0].next else old(bls)
      ensures w.honest ==> bls.height == old(bls).height && bls.rxSeq >= old(bls).rxSeq
    {
      hide InOrder, Ordered, Tallied, Carry, Grew;
      GrewSelf(Track());
      r := w.BuildMessageProof(bls);
      if r.Some? && r.value != [] {
        TalliedProof(old(w.record), lost, made, rmis[0], size, r.value[0]);
        assert r.value == [r.value[0]];
        GrewItems(old(Track()), old(Track()), w.record, rmis[0]);
        UpdateStatus(r.value[0].next);
      }
    }

    method BuildBlockProof(ghost mp: Item) returns (r: Option<Item>)
      requires Lined() && Balanced([mp])
      modifies this`bls, w`budget, w`record
      ensures Lined() && w.budget <= old(w.budget) && Grows()
      ensures Balanced(if r.Some? then [r.value, mp] else [mp])
      ensures w.record == if r.Some? then old(w.record) + [ProofOfBlock(r.value)] else old(w.record)
      ensures bls == if r.Some? then r.value.next else old(bls)
      ensures w.honest ==> bls.height == old(bls).height && bls.rxSeq == old(bls).rxSeq
    {
      hide InOrder, Ordered, Tallied, Carry, Grew;
      GrewSelf(Track());
      r := w.BuildBlockProof(bls);
      if r.Some? {
        TalliedBlockProof(old(w.record), lost, made, rmis[0], size, mp, r.value);
        GrewItems(old(Track()), old(Track()), w.record, rmis[0]);
        UpdateStatus(r.value.next);
      }
    }

    method GetReceiveStatusForHeight(height: int) returns (i: int)
      ensures -1 <= i < |rss|
      ensures i >= 0 ==> rss[i].height == height && forall j :: 0 <= j < i ==> rss[j].height != height
      ensures i < 0 ==> forall j :: 0 <= j < |rss| ==> rss[j].height != height
    {
      for k := 0 to |rss|
        invariant forall j :: 0 <= j < k ==> rss[j].height != height
      {
        if rss[k].height == height { return k; }
      }
      i := -1;
    }

    /** The first status of a height. */
    predicate FirstAt(i: int, height: int)
      reads this
    {
      0 <= i < |rss| && rss[i].height == height && forall j :: 0 <= j < i ==> rss[j].height != height
    }

    /** The sequence to reach: the one known for the height of the link after a block update, and the
        latest one otherwise. */
    ghost predicate IsTarget(t: int, height: int, updated: bool)
      reads this
    {
      |rss| > 0 &&
      if updated && exists i :: 0 <= i < |rss| && rss[i].height == height then
        exists i :: FirstAt(i, height) && rss[i].seqNo == t
      else t == rss[|rss| - 1].seqNo
    }

    /** Whether a message proof needs a block proof in front of it: after a message that has grown too large,
        and without a block update that proves its own height. */
    predicate NeedsBlockProof(bu: Option<Item>)
      reads this
    {
      OverLimit() || bu.None? || bu.value.proofHeight == -1
    }

    /** A message proof that cannot be added because of an error is lost. */
    ghost method Lose(mp: Item, i: nat)
      requires Lined() && Balanced([mp]) && |w.record| == i + 1 && i !in lost && w.record[i] == Proof(mp) && mp.len != 0
      modifies this`lost
      ensures Valid() && lost == old(lost) + {i}
    {
      hide InOrder, Ordered, Tallied, Carry;
      TalliedLose(w.record, lost, made, rmis[0], size, mp);
      lost := lost + {i};
    }

    /** Whether a message proof was handed out last and has not been added yet. */
    ghost predicate Fresh(mp: Item)
      reads this, w
    {
      w.record != [] && w.record[|w.record| - 1] == Proof(mp) && mp.len != 0 && |w.record| - 1 !in lost
    }

    /** Closes the open message before the message proof handed out last. */
    method CloseMessage(ghost mp: Item) returns (o: Outcome)
      requires Lined() && Balanced([mp]) && Fresh(mp)
      modifies this`rms, this`rmis, this`size, this`created, this`made, this`lost, w`budget
      ensures Lined() && Balanced(if o == Done then [mp] else []) && w.budget <= old(w.budget) && o != Panic
      ensures Grew(old(Track()), Track().(books := Accounts().(lost := old(lost))))
      ensures lost == if o == Done then old(lost) else old(lost) + {|w.record| - 1}
      ensures o == Done ==> rmis == [[]]
    {
      hide InOrder, Ordered, Tallied, Carry, Grew;
      o := AppendRelayMessage([mp]);
      if o == Error { Lose(mp, |w.record| - 1); }
    }

    /** Puts a block proof in front of the message proof handed out last. */
    method AppendBlockProof(ghost mp: Item) returns (o: Outcome)
      requires Lined() && Balanced([mp]) && Fresh(mp)
      modifies this`rmis, this`size, this`bls, this`lost, w`budget, w`record
      ensures Lined() && Balanced(if o == Done then [mp] else []) && w.budget <= old(w.budget) && o != Panic
      ensures Grew(old(Track()), Track().(books := Accounts().(lost := old(lost))))
      ensures lost == if o == Done then old(lost) else old(lost) + {old(|w.record|) - 1}
      ensures w.honest ==> bls.height == old(bls).height && bls.rxSeq == old(bls).rxSeq
      ensures o == Done ==>
                && |w.record| == old(|w.record|) + 1 && w.record[|w.record| - 1].ProofOfBlock?
                && rmis == [old(rmis)[0] + [w.record[|w.record| - 1].item]]
    {
      hide InOrder, Ordered, Tallied, Carry, Grew;
      var bp := BuildBlockProof(mp);
      if bp.None? {
        Lose(mp, |w.record| - 1);
        return Error;
      }
      ghost var a := Track();
      assert [bp.value, mp] == [bp.value] + [mp];
      AppendItem(bp.value, [mp]);
      GrewItems(old(Track()), a, w.record, rmis[0]);
      o := Done;
    }

    /** Gets ready for the message proof handed out last: a message that has grown too large is closed, and a
        block proof is put in front where one is needed. */
    method MakeReady(ghost mp: Item, bu: Option<Item>) returns (o: Outcome)
      requires Lined() && Balanced([mp]) && Fresh(mp)
      modifies this`rms, this`rmis, this`size, this`created, this`bls, this`made, this`lost, w`budget, w`record
      ensures Lined() && Balanced(if o == Done then [mp] else []) && w.budget <= old(w.budget) && o != Panic
      ensures Grew(old(Track()), Track().(books := Accounts().(lost := old(lost))))
      ensures lost == if o == Done then old(lost) else old(lost) + {old(|w.record|) - 1}
      ensures w.honest ==> bls.height == old(bls).height && bls.rxSeq == old(bls).rxSeq
      ensures o == Done ==>
                if old(NeedsBlockProof(bu)) then
                  && |w.record| == old(|w.record|) + 1 && w.record[|w.record| - 1].ProofOfBlock?
                  && rmis == [(if old(OverLimit()) then [] else old(rmis)[0]) + [w.record[|w.record| - 1].item]]
                else w.record == old(w.record) && rmis == old(rmis)
      ensures o == Done && !old(OverLimit()) ==> made == old(made)
    {
      hide InOrder, Ordered, Tallied, Carry, Grew;
      GrewSelf(Track());
      o := Done;
      var full := OverLimit();
      if full {
        o := CloseMessage(mp);
        if o == Error { return; }
      }
      if full || bu.None? || bu.value.proofHeight == -1 {
        ghost var a := Track();
        o := AppendBlockProof(mp);
        GrewThen(old(Track()), a, Track().(books := Accounts().(lost := old(lost))));
      }
    }

    /** Collects the message proof handed out last. */
    method AppendProof(mp: Item, bu: Option<Item>) returns (o: Outcome)
      requires Lined() && Balanced([mp]) && Fresh(mp)
      modifies this`rms, this`rmis, this`size, this`created, this`bls, this`made, this`lost, w`budget, w`record
      ensures Valid() && w.budget <= old(w.budget) && o != Panic
      ensures Grew(old(Track()), Track().(books := Accounts().(lost := old(lost))))
      ensures lost == if o == Done then old(lost) else old(lost) + {old(|w.record|) - 1}
      ensures w.honest ==> bls.height == old(bls).height && bls.rxSeq == old(bls).rxSeq
      ensures o == Done ==>
                if old(NeedsBlockProof(bu)) then
                  && |w.record| == old(|w.record|) + 1 && w.record[|w.record| - 1].ProofOfBlock?
                  && rmis == [(if old(OverLimit()) then [] else old(rmis)[0]) + [w.record[|w.record| - 1].item] + [mp]]
                else w.record == old(w.record) && rmis == [old(rmis)[0] + [mp]]
      ensures o == Done && !old(OverLimit()) ==> made == old(made)
    {
      hide InOrder, Ordered, Tallied, Carry, Grew;
      o := MakeReady(mp, bu);
      if o == Done {
        ghost var a := Track();
        assert [mp] == [mp] + [];
        AppendItem(mp, []);
        GrewItems(old(Track()), a, w.record, rmis[0]);
      }
    }

    /** Collects message proofs until the known sequence is reached. When there is no proof, what has
        been collected becomes a message; by Valid there is always a list to make one of. */
    method BuildProof(bu: Option<Item>) returns (o: Outcome, mpLen: int, ghost t: int)
      requires Valid() && |rss| > 0
      modifies this`rms, this`rmis, this`size, this`created, this`bls, this`made, this`lost, w`budget, w`record
      ensures Valid() && Grows() && w.budget <= old(w.budget) && (o == Done ==> lost == old(lost))
      ensures o != Panic
      ensures IsTarget(t, old(bls).height, bu.Some?) && (o == Done ==> bls.rxSeq >= t)
      ensures o == Done ==> mpLen == ProofLen(w.record) - ProofLen(old(w.record))
      ensures w.honest ==> bls.height == old(bls).height && bls.rxSeq >= old(bls).rxSeq
    {
      hide InOrder, Ordered, Tallied, Carry, Grew;
      mpLen := 0;
      var target := rss[|rss| - 1].seqNo;
      if bu.Some? {
        var i := GetReceiveStatusForHeight(bls.height);
        if i >= 0 { target := rss[i].seqNo; }
      }
      t := target;
      o := Done;
      GrewSelf(Track());
      while target > bls.rxSeq
        invariant Valid() && Grows() && w.budget <= old(w.budget) && lost == old(lost) && o == Done
        invariant w.honest ==> bls.height == old(bls).height && bls.rxSeq >= old(bls).rxSeq
        invariant mpLen == ProofLen(w.record) - ProofLen(old(w.record))
        decreases w.budget
      {
        var len;
        ghost var a := Track();
        o, len := AddProof(bu);
        GrewThen(old(Track()), a, Track());
        if o == Error { return Error, 0, t; }
        mpLen := mpLen + len;
      }
    }

    /** Asks for one message proof and collects it. */
    method AddProof(bu: Option<Item>) returns (o: Outcome, len: int)
      requires Valid()
      modifies this`rms, this`rmis, this`size, this`created, this`bls, this`made, this`lost, w`budget, w`record
      ensures Valid() && Grows() && w.budget <= old(w.budget) && (o == Done ==> lost == old(lost))
      ensures o == Done ==> w.budget < old(w.budget)
      ensures o != Panic
      ensures w.honest ==> bls.height == old(bls).height && bls.rxSeq >= old(bls).rxSeq
      ensures o == Done ==> len == ProofLen(w.record) - ProofLen(old(w.record))
      ensures o == Done && len == 0 ==> rmis == [[]]
    {
      hide InOrder, Ordered, Tallied, Carry, Grew, ProofLen;
      var mp := BuildMessageProof();
      if mp.None? { return Error, 0; }
      ghost var a := Track();
      if mp.value != [] { ProofLenNext(old(w.record), Proof(mp.value[0])); }
      if mp.value == [] || mp.value[0].len == 0 {
        o := AppendRelayMessage([]);
        GrewThen(old(Track()), a, Track());
        return o, 0;
      }
      assert mp.value == [mp.value[0]];
      TalliedBound(old(w.record), lost, made, old(rmis)[0], size, []);
      o := AppendProof(mp.value[0], bu);
      ghost var b := Track().(books := Accounts().(lost := old(lost)));
      GrewThen(old(Track()), a, b);
      GrewRecord(a, b);
      if o == Done {
        ProofLenSame(a.books.record, w.record);
      } else {
        GrewLost(old(Track()), b, old(|w.record|));
      }
      len := mp.value[0].len;
    }

    method BuildBlockUpdates() returns (ok: bool)
      requires Valid()
      modifies w`budget, w`batch
      ensures Valid() && w.budget <= old(w.budget)
      ensures ok ==> w.batch != [] && w.budget < old(w.budget) && (w.honest ==> OneUpdate(bls, w.batch))
    {
      hide InOrder, Ordered, Tallied, Carry, Grew;
      while true
        invariant Valid() && w.budget <= old(w.budget)
        decreases w.budget
      {
        ok := w.BuildBlockUpdate(bls);
        if !ok || w.batch != [] { return; }
      }
    }

    /** Nothing is open, or the message is to be filled up with more updates and has room for them. */
    predicate Closed()
      reads this
    {
      rmis == [[]] || (p.filledBlockUpdate && !OverLimit())
    }

    /** Collects a block update and the proofs that it allows, and closes the message unless it is to be
        filled up with more updates. A message with message proofs is always closed. */
    method AppendUpdate(bu: Item) returns (o: Outcome)
      requires Lined() && Balanced([bu]) && |rss| > 0 && (w.honest ==> AtMost(bls, bu.next))
      modifies this`rms, this`rmis, this`size, this`created, this`bls, this`made, this`lost, w`budget, w`record
      ensures Valid() && Grows() && w.budget <= old(w.budget) && (o == Done ==> lost == old(lost))
      ensures o != Panic
      ensures w.honest ==> bls.height == bu.next.height && bls.rxSeq >= bu.next.rxSeq
      ensures o == Done ==> Closed() && (ProofLen(w.record) != ProofLen(old(w.record)) ==> rmis == [[]])
    {
      hide InOrder, Ordered, Tallied, Carry, Grew;
      assert [bu] == [bu] + [];
      GrewSelf(Track());
      AppendItem(bu, []);
      GrewItems(old(Track()), old(Track()), w.record, rmis[0]);
      UpdateStatus(bu.next);
      var mpLen;
      ghost var t;
      ghost var a := Track();
      o, mpLen, t := BuildProof(Some(bu));
      GrewThen(old(Track()), a, Track());
      if o == Error { return; }
      a := Track();
      if mpLen != 0 || !p.filledBlockUpdate || OverLimit() {
        o := AppendRelayMessage([]);
        GrewThen(old(Track()), a, Track());
      }
    }

    /** One round of block updates. The code first makes sure that there is a list for items; by Valid
        there always is one. All updates of the answer are gone through. */
    method BuildRelayMessages() returns (o: Outcome)
      requires Valid() && |rss| > 0
      modifies this`rms, this`rmis, this`size, this`created, this`bls, this`made, this`lost
      modifies w`budget, w`record, w`batch
      ensures Valid() && Grows() && w.budget <= old(w.budget) && (o == Done ==> w.budget < old(w.budget))
      ensures o != Panic
      ensures o == Done ==> lost == old(lost) && w.batch == [] && |w.record| > old(|w.record|) && Closed()
      ensures o == Done && w.honest ==> bls.height > old(bls).height && bls.rxSeq >= old(bls).rxSeq
    {
      hide InOrder, Ordered, Tallied, Carry, Grew;
      GrewSelf(Track());
      var ok := BuildBlockUpdates();
      if !ok { return Error; }
      o := Done;
      ghost var first := true;
      while w.batch != []
        invariant Valid() && Grows() && w.budget < old(w.budget) && lost == old(lost) && o == Done
        invariant first ==> w.batch != [] && bls == old(bls) && w.record == old(w.record)
        invariant !first ==> |w.record| > old(|w.record|) && Closed()
        invariant w.honest ==> |w.batch| <= 1 && (first ==> OneUpdate(bls, w.batch))
        invariant w.honest && !first ==> w.batch == [] && bls.height > old(bls).height && bls.rxSeq >= old(bls).rxSeq
        decreases |w.batch|
      {
        ghost var a := Track();
        o := AddUpdate();
        GrewThen(old(Track()), a, Track());
        first := false;
        if o == Error { return; }
      }
    }

    /** Goes through one block update of the answer. */
    method AddUpdate() returns (o: Outcome)
      requires Valid() && |rss| > 0 && w.batch != [] && (w.honest ==> AtMost(bls, w.batch[0].next))
      modifies this`rms, this`rmis, this`size, this`created, this`bls, this`made, this`lost
      modifies w`budget, w`record, w`batch
      ensures Valid() && Grows() && w.budget <= old(w.budget) && (o == Done ==> lost == old(lost))
      ensures o != Panic && w.batch == old(w.batch)[1..] && |w.record| > old(|w.record|) && (o == Done ==> Closed())
      ensures w.honest ==> bls.height == old(w.batch)[0].next.height && bls.rxSeq >= old(w.batch)[0].next.rxSeq
    {
      hide InOrder, Ordered, Tallied, Carry, Grew;
      GrewSelf(Track());
      var bu := w.NextUpdate();
      TalliedUpdate(old(w.record), lost, made, rmis[0], size, bu);
      ghost var a := Track();
      GrewItems(old(Track()), old(Track()), w.record, rmis[0]);
      o := AppendUpdate(bu);
      GrewThen(old(Track()), a, Track());
      GrewRecord(a, Track());
    }

    /** The link has caught up with the latest status of the receiver. */
    predicate CaughtUp()
      reads this
    {
      Reached(rss, bls)
    }

    /** One round towards the latest status: block updates first, then proofs. */
    method BuildRound() returns (o: Outcome)
      requires Valid() && |rss| > 0
      modifies this`rms, this`rmis, this`size, this`created, this`bls, this`made, this`lost
      modifies w`budget, w`record, w`batch
      ensures Valid() && Grows() && w.budget <= old(w.budget) && (o == Done ==> lost == old(lost))
      ensures o != Panic
      ensures o == Done && old(bls).height >= rss[|rss| - 1].height ==>
                bls.rxSeq >= rss[|rss| - 1].seqNo && rmis == [[]]
      ensures o == Done ==> Closed()
    {
      hide InOrder, Ordered, Tallied, Carry, Grew;
      if bls.height < rss[|rss| - 1].height {
        o := BuildRelayMessages();
        return;
      }
      var mpLen;
      ghost var t;
      o, mpLen, t := BuildProof(None);
      if o == Error { return; }
      ghost var a := Track();
      o := AppendRelayMessage([]);
      GrewThen(old(Track()), a, Track());
    }

    /** One round of building and sending. The first one ends in waiting. */
    method BuildAndSend() returns (o: Outcome)
      requires Valid() && |rss| > 0
      modifies this`rms, this`rmis, this`size, this`created, this`bls, this`relayState, this`made, this`lost, w
      ensures Valid() && Grows() && w.budget <= old(w.budget)
      ensures o == Done ==> w.budget < old(w.budget) && lost == old(lost) && Closed()
      ensures o != Panic
      ensures o == Done && relayState != Pending ==> AllSent(rms)
      ensures relayState == old(relayState) || relayState == Pending
      ensures o == Done ==> relayState != Init
    {
      hide InOrder, Ordered, Tallied, Carry, Grew;
      GrewSelf(Track());
      var ok := w.Spend();
      if !ok { return Error; }
      o := BuildRound();
      if o == Error { return; }
      ghost var a := Track();
      o := SendRelayMessage();
      GrewThen(old(Track()), a, Track());
      if o == Done && relayState == Init { relayState := Pending; }
    }

    /** Sends what is queued, then builds and sends until the known status is reached. Unless the link
        is waiting, it has then caught up with the receiver and every message has been handed over. */
    method HandleRelayMessage() returns (o: Outcome)
      requires Valid()
      modifies this`rms, this`rmis, this`size, this`created, this`bls, this`relayState, this`made, this`lost, w
      ensures Valid() && Grows() && w.budget <= old(w.budget) && (o == Done ==> lost == old(lost))
      ensures o != Panic
      ensures o == Done && relayState != Pending ==> CaughtUp() && AllSent(rms)
      ensures o == Done ==> rmis == old(rmis) || Closed()
      ensures relayState == old(relayState) || relayState == Pending
      ensures o == Done && old(relayState) == Init ==> relayState == Pending || (bls == old(bls) && made == old(made))
      ensures old(relayState) == Pending ==> relayState == Pending && rms == old(rms) && w.log == old(w.log)
    {
      hide InOrder, Ordered, Tallied, Carry, Grew;
      GrewSelf(Track());
      if relayState == Pending { return Done; }
      o := SendRelayMessage();
      if o == Error { return; }
      while
        && relayState != Pending && |rss| != 0
        && (bls.height < rss[|rss| - 1].height || bls.rxSeq < rss[|rss| - 1].seqNo)
        invariant Valid() && Grows() && lost == old(lost) && o == Done
        invariant (relayState != Pending ==> AllSent(rms)) && (rmis == old(rmis) || Closed())
        invariant w.budget <= old(w.budget) && (relayState == old(relayState) || relayState == Pending)
        invariant relayState == Init ==> bls == old(bls) && made == old(made)
        decreases w.budget
      {
        ghost var a := Track();
        o := BuildAndSend();
        GrewThen(old(Track()), a, Track());
        if o == Error { return; }
      }
    }

    /** Before the first hand-over: collects what is missing up to the sequence that is known for the
        height of the link, if one is known. */
    method HandleUndelivered() returns (o: Outcome)
      requires Valid()
      modifies this`rms, this`rmis, this`size, this`created, this`bls, this`made, this`lost, w`budget, w`record
      ensures Valid() && Grows() && w.budget <= old(w.budget) && (o == Done ==> lost == old(lost))
      ensures o != Panic
      ensures o == Done ==> forall i :: FirstAt(i, old(bls).height) ==> bls.rxSeq >= rss[i].seqNo
      ensures (forall i :: 0 <= i < |old(rss)| ==> old(rss)[i].height != old(bls).height) ==>
                o == Done && rms == old(rms) && bls == old(bls)
      ensures o == Done && (exists i :: 0 <= i < |rss| && rss[i].height == old(bls).height) ==> size <= 0
    {
      hide InOrder, Ordered, Tallied, Carry, Grew;
      GrewSelf(Track());
      var i := GetReceiveStatusForHeight(bls.height);
      if i < 0 { return Done; }
      o := BuildUpTo(rss[i].seqNo);
      if o == Error { return; }
      ghost var a := Track();
      if size > 0 {
        o := AppendRelayMessage([]);
        GrewThen(old(Track()), a, Track());
      }
    }

    method BuildUpTo(target: int) returns (o: Outcome)
      requires Valid() && |rss| > 0
      modifies this`rms, this`rmis, this`size, this`created, this`bls, this`made, this`lost, w`budget, w`record
      ensures Valid() && Grows() && w.budget <= old(w.budget)
              && (o == Done ==> lost == old(lost) && bls.rxSeq >= target)
      ensures o != Panic
    {
      hide InOrder, Ordered, Tallied, Carry, Grew;
      GrewSelf(Track());
      while bls.rxSeq < target
        invariant Valid() && Grows() && w.budget <= old(w.budget) && lost == old(lost)
        decreases w.budget
      {
        var ok := w.Spend();
        if !ok { return Error; }
        var mpLen;
        ghost var t;
        ghost var a := Track();
        o, mpLen, t := BuildProof(None);
        GrewThen(old(Track()), a, Track());
        if o == Error { return; }
      }
      o := Done;
    }

    /** What happens once, at the first status. */
    method Begin() returns (o: Outcome)
      requires Valid() && |rss| > 0
      modifies this`rms, this`rmis, this`size, this`created, this`bls, this`relayState, this`once
      modifies this`made, this`lost, w
      ensures Valid() && Grows() && o != Panic && (o == Done ==> lost == old(lost))
    {
      hide InOrder, Ordered, Tallied, Carry, Grew;
      o := Done;
      GrewSelf(Track());
      if !once {
        once := true;
        o := HandleUndelivered();
        ghost var a := Track();
        var o' := HandleRelayMessage();
        GrewThen(old(Track()), a, Track());
        if o' == Error { o := Error; }
      }
    }

    /** A status from the receiver channel. */
    method Receive(rs: ReceiveStatus) returns (o: Outcome)
      requires Valid()
      modifies this, w
      ensures Valid() && Grows() && StatusStep(old(Now()), rs, o, Now())
    {
      hide InOrder, Ordered, Tallied, Carry, Grew;
      rss := rss + [rs];
      o := Begin();
      if bls.height < rs.height || bls.rxSeq < rs.seqNo {
        ghost var a := Track();
        var o' := HandleRelayMessage();
        GrewThen(old(Track()), a, Track());
        if o' == Error { o := Error; }
      }
      GrewEnds(old(Track()), Track(), o);
    }

    method GetRelayMessageForId(id: Id) returns (i: int)
      ensures -1 <= i < |rms|
      ensures i >= 0 ==> IdOf(rms[i]) == id && forall j :: 0 <= j < i ==> IdOf(rms[j]) != id
      ensures i < 0 ==> forall j :: 0 <= j < |rms| ==> IdOf(rms[j]) != id
    {
      for k := 0 to |rms|
        invariant forall j :: 0 <= j < k ==> IdOf(rms[j]) != id
      {
        if IdOf(rms[k]) == id { return k; }
      }
      i := -1;
    }

    /** Removes the queue up to the first message that the status covers. The index returned is the one
        declared before the loop, which the loop variable of the same name hides: it is always 0. */
    method RemoveRelayMessage(s: LinkStatus) returns (index: int)
      requires InOrder(rms, w.log, created) && Balanced([])
      modifies this`rms
      ensures rms == Removed(old(rms), s) && index == 0
      ensures InOrder(rms, w.log, created) && Balanced([])
      ensures forall b :: Ordered(old(rms), b) ==> Ordered(rms, b)
    {
      hide InOrder, Ordered, Tallied, Carry, Grew;
      index := 0;
      var n := |rms|;
      ghost var first := FirstCovered(rms, s);
      for k := 0 to n
        invariant n == |rms| && rms == old(rms) && first >= k
      {
        if rms[k].bls.height <= s.height && rms[k].bls.rxSeq <= s.rxSeq {
          InOrderDrop(rms, w.log, created, k + 1);
          CarryDrop(made, rms, w.log, w.relayed, k + 1);
          forall b | Ordered(rms, b) ensures Ordered(rms[k + 1..], b) { OrderedDrop(rms, b, k + 1); }
          rms := rms[k + 1..];
          return;
        }
      }
    }

    method RemoveReceiveStatus(s: LinkStatus)
      modifies this`rss
      ensures var n := FirstReached(old(rss), s);
              rss == if n < |old(rss)| then old(rss)[n + 1..] else old(rss)
    {
      var n := |rss|;
      ghost var first := FirstReached(rss, s);
      for k := 0 to n
        invariant n == |rss| && rss == old(rss) && first >= k
      {
        if rss[k].height <= s.height && rss[k].seqNo <= s.rxSeq {
          rss := rss[k + 1..];
          return;
        }
      }
    }

    /** Removes what a queued message covers, and the link goes on. */
    method RemoveUpTo(i: nat)
      requires Valid() && i < |rms|
      modifies this`rms, this`rss, this`relayState
      ensures Valid() && rms == Removed(old(rms), old(rms)[i].bls) && relayState == Running
      ensures w.honest ==> Serials(rms) == Serials(old(rms))[1..]
      ensures var n := FirstReached(old(rss), old(rms)[i].bls);
              rss == if n < |old(rss)| then old(rss)[n + 1..] else old(rss)
    {
      hide InOrder, Ordered, Tallied, Carry;
      var s := rms[i].bls;
      if w.honest { RemovesOldest(rms, bls, i); }
      var index := RemoveRelayMessage(s);
      RemoveReceiveStatus(s);
      relayState := Running;
    }

    /** A message has arrived. With an honest receiver exactly the oldest queued message goes, whichever
        message the result was about. */
    method SuccessRelayMessage(i: nat) returns (o: Outcome)
      requires Valid() && i < |rms|
      modifies this, w
      ensures Valid() && o != Panic
      ensures created >= old(created) && old(w.log) <= w.log && Later(old(Accounts()), Accounts(), o)
      ensures w.honest ==> OldestGone(Serials(old(rms)), Serials(rms), old(created))
      ensures var n := FirstReached(old(rss), old(rms)[i].bls);
              rss == if n < |old(rss)| then old(rss)[n + 1..] else old(rss)
    {
      hide InOrder, Ordered, OldestGone, Increasing, Tallied, Carry, Grew, Later;
      SerialsInOrder(rms, w.log, created);
      RemoveUpTo(i);
      ghost var a := Track();
      o := HandleRelayMessage();
      GrewEnds(a, Track(), o);
      if w.honest { OnlyOldestGone(Serials(old(rms)), Serials(rms), old(created)); }
    }

    method UpdateBlockProof(i: nat) returns (o: Outcome)
      requires Valid() && i < |rms|
      modifies w`budget
      ensures Valid() && o != Panic
    {
      hide InOrder, Ordered, Tallied, Carry, Grew;
      var rm := rms[i];
      for k := 0 to |rm.items|
        invariant Valid()
      {
        if rm.items[k].kind == BlockProof {
          var bp := w.RebuildBlockProof(rm.bls);
          if bp.None? { return Error; }
        }
      }
      o := Done;
    }

    /** A result from the sender channel. */
    method Result(rr: RelayResult) returns (o: Outcome)
      requires Valid()
      modifies this, w
      ensures Valid()
      ensures ReportStep(p, w.honest, old(Now()), rr, o, Now())
    {
      hide InOrder, Ordered, OldestGone, Tallied, Carry, Grew, Later;
      LaterSelf(Accounts());
      var i := GetRelayMessageForId(rr.id);
      assert Queued(rms, rr.id) <==> i >= 0;
      if i < 0 { return Done; }
      o := Done;
      match rr.err
      case Success =>
        if p.latestResult || rr.finalized { o := SuccessRelayMessage(i); }
      case BMVNotVerifiable =>
        if !rr.finalized {
          relayState := Pending;
        } else {
          var s := w.GetStatus();
          if s.None? { return Error; }
          o := StartAgain(s.value);
        }
      case BMVAlreadyVerified =>
        if !rr.finalized {
          relayState := Pending;
        } else {
          var s := w.GetStatus();
          if s.None? { return Error; }
          ResetTo(s.value);
        }
      case BMVInvalidBlockWitnessOld => o := UpdateBlockProof(i);
      case BMVUnknown => o := Panic;
      case OtherCode => o := Panic;
    }

    /** Goes on from the status of the chain with an empty queue. */
    method StartAgain(s: LinkStatus) returns (o: Outcome)
      requires Valid()
      modifies this, w
      ensures Valid() && o != Panic && created >= old(created) && old(w.log) <= w.log
      ensures Later(old(Accounts()), Accounts(), o)
      ensures forall k :: 0 <= k < |rms| ==> rms[k].serial >= old(created)
      ensures o == Done && relayState != Pending ==> CaughtUp() && AllSent(rms)
    {
      hide InOrder, Ordered, Tallied, Carry, Grew, Later;
      ResetTo(s);
      ghost var a := Track();
      o := HandleRelayMessage();
      GrewEnds(a, Track(), o);
      assert forall k :: 0 <= k < |rms| ==> Serials(rms)[k] >= old(created);
    }

    /** The status of the chain is taken over and the whole queue goes: since the removal always reports
        index 0, both results that re-read the status end like this. No message can be ahead of it. */
    method ResetTo(s: LinkStatus)
      requires Valid()
      modifies this`bls, this`rms, this`relayState
      ensures Valid() && bls == s && rms == [] && relayState == Running
    {
      hide InOrder, Tallied, Carry;
      bls := s;
      relayState := Running;
      var index := RemoveRelayMessage(bls);
      InOrderDrop(rms, w.log, created, |rms|);
      CarryDrop(made, rms, w.log, w.relayed, |rms|);
      assert rms[|rms|..] == [];
      rms := [];
    }
  }

  /** One unsent message for every list of items, all with the present status. */
  function Messages(first: nat, bls: LinkStatus, lists: seq<seq<Item>>): (rms: seq<RelayMessage>)
    ensures |rms| == |lists|
    ensures forall i :: 0 <= i < |lists| ==> rms[i] == RelayMessage(first + i, bls, lists[i], false)
  {
    seq(|lists|, i requires 0 <= i < |lists| => RelayMessage(first + i, bls, lists[i], false))
  }

  lemma MessagesNone(first: nat, bls: LinkStatus)
    ensures Messages(first, bls, []) == []
  {
  }

  lemma MessagesNext(first: nat, bls: LinkStatus, lists: seq<seq<Item>>, items: seq<Item>)
    ensures Messages(first, bls, lists + [items])
         == Messages(first, bls, lists) + [RelayMessage(first + |lists|, bls, items, false)]
  {
  }

  lemma CarrySend(made: seq<seq<Item>>, rms: seq<RelayMessage>, log: seq<nat>, relayed: seq<seq<Item>>, i: nat)
    requires i < |rms| && Carry(made, rms, log, relayed)
    ensures Carry(made, rms[i := rms[i].(sent := true)], log + [rms[i].serial], relayed + [rms[i].items])
  {
  }

  lemma CarryAppend(
      made: seq<seq<Item>>, rms: seq<RelayMessage>, log: seq<nat>, relayed: seq<seq<Item>>, rm: RelayMessage)
    requires Carry(made, rms, log, relayed) && rm.serial == |made|
    ensures Carry(made + [rm.items], rms + [rm], log, relayed)
  {
  }

  lemma CarryDrop(made: seq<seq<Item>>, rms: seq<RelayMessage>, log: seq<nat>, relayed: seq<seq<Item>>, n: nat)
    requires n <= |rms| && Carry(made, rms, log, relayed)
    ensures Carry(made, rms[n..], log, relayed)
  {
  }

  lemma EmptyLen()
    ensures TotalLen([]) == 0
  {
  }

  lemma FrontOfLast(items: seq<Item>, mp: Item, bp: Item)
    ensures InFrontOfLast(items + [mp], bp) == items + [bp, mp]
  {
  }

  lemma SentOrdered(rms: seq<RelayMessage>, bls: LinkStatus, i: nat)
    requires i < |rms|
    ensures Ordered(rms, bls) ==> Ordered(rms[i := rms[i].(sent := true)], bls)
  {
  }

  // ----- whole runs

  datatype Event = Status(rs: ReceiveStatus) | Reported(rr: RelayResult)

  /** One event: what a link and its sender look like before and after it. */
  ghost predicate EventStep(p: Preference, honest: bool, s: Snapshot, e: Event, o: Outcome, s': Snapshot) {
    match e
    case Status(rs) => StatusStep(s, rs, o, s')
    case Reported(rr) => ReportStep(p, honest, s, rr, o, s')
  }

  /** Every run: whatever the receiver and the sender answer, no message object is handed over twice
      and hand-overs follow the order of creation; with an honest receiver the queue is always sorted
      and never ahead of the link status. All events are handled one after the other, up to a panic;
      `trace` has what the link looks like before the first event and after each of them. */
  method Run(w: World, p: Preference, start: LinkStatus, events: seq<Event>)
    returns (l: Link, outcomes: seq<Outcome>, ghost trace: seq<Snapshot>)
    requires w.log == [] && w.relayed == [] && w.record == []
    modifies w
    ensures fresh(l) && l.w == w && l.Valid()
    ensures |trace| == |outcomes| + 1 && trace[0] == Snapshot([], [], start, Init, [], 0, Books([], [], [], [], {}))
            && trace[|outcomes|] == l.Now()
    ensures |outcomes| <= |events| && (|outcomes| < |events| ==> outcomes != [] && outcomes[|outcomes| - 1] == Panic)
    ensures forall i :: 0 <= i < |outcomes| ==> EventStep(p, w.honest, trace[i], events[i], outcomes[i], trace[i + 1])
    ensures forall i :: 0 <= i < |trace| ==> Sound(w.honest, trace[i])
  {
    hide *;
    l := new Link(w, p, start);
    outcomes, trace := [], [l.Now()];
    SoundNow(l);
    for i := 0 to |events|
      invariant fresh(l) && l.w == w && l.p == p && l.Valid() && |outcomes| == i
      invariant |trace| == i + 1 && trace[0] == Snapshot([], [], start, Init, [], 0, Books([], [], [], [], {}))
                && trace[i] == l.Now()
      invariant forall k :: 0 <= k < i ==> EventStep(p, w.honest, trace[k], events[k], outcomes[k], trace[k + 1])
      invariant forall k :: 0 <= k < |trace| ==> Sound(w.honest, trace[k])
    {
      var o := Handle(l, events[i]);
      SoundNow(l);
      outcomes, trace := outcomes + [o], trace + [l.Now()];
      if o == Panic { return; }
    }
  }

  method Handle(l: Link, e: Event) returns (o: Outcome)
    requires l.Valid()
    modifies l, l.w
    ensures l.Valid() && EventStep(l.p, l.w.honest, old(l.Now()), e, o, l.Now())
  {
    hide Ordered, InOrder, StatusStep, ReportStep;
    match e
    case Status(rs) => o := l.Receive(rs);
    case Reported(rr) => o := l.Result(rr);
  }

  /** The sender has taken messages in the order of creation, none twice, and a queue filled by an honest
      receiver is sorted and not ahead of the link status. The items of all messages made so far, followed
      by what is open, are exactly what the receiver has handed out, in order, except what was lost to an
      error; and queue and sender have the messages with those items. */
  ghost predicate Sound(honest: bool, s: Snapshot) {
    && Increasing(s.log) && InOrder(s.rms, s.log, s.created) && (honest ==> Ordered(s.rms, s.bls))
    && Carry(s.books.made, s.rms, s.log, s.books.relayed)
    && Collected(s.books.record, s.books.lost) == Flat(s.books.made) + s.books.open
  }

  lemma SoundNow(l: Link)
    requires l.Valid()
    ensures Sound(l.w.honest, l.Now())
  {
  }
}
