/** Whole runs of a backend: any operations in any order against any behaviour of the network. */
module Runs {
  import opened Options
  import opened PageTypes
  import opened Ring
  import opened RingSteps
  import opened Comm
  import Bitmap

  /** What a backend may do, in any order. */
  datatype Op =
    | Prefetch(base: Tag, shard: nat, lsns: seq<Lsns>, mask: set<nat>)
    | Read(base: Tag, shards: seq<nat>, lsns: seq<Lsns>, mask: set<nat>)
    | Lookup(base: Tag, lsns: seq<Lsns>)
    | ReceiveEarly(tag: Tag)
    | Sync(shard: nat, req: Request)
    | Pump
    | ConnectionLost(drops: set<nat>)
    | ResizeTo(size: nat)

  /** A page handed to the caller by an operation, with the request that fetched it and the LSN it was read
      at. */
  datatype Delivery = Delivery(op: nat, tag: Tag, wanted: Lsns, used: Lsns, at: Lsn, page: Page)

  /** The answer to a synchronous request. */
  datatype Answer = Answer(op: nat, sent: Request, resp: Response)

  ghost predicate OpOk(op: Op) {
    match op
    case Prefetch(_, shard, lsns, _) =>
      shard < MAX_SHARDS && lsns != [] && forall l :: l in lsns ==> WellFormed(l)
    case Read(_, shards, lsns, _) =>
      && |shards| == |lsns| > 0 && (forall i :: 0 <= i < |shards| ==> shards[i] < MAX_SHARDS)
      && forall l :: l in lsns ==> WellFormed(l)
    case Lookup(_, lsns) => forall l :: l in lsns ==> WellFormed(l)
    case ResizeTo(size) => 0 < size
    case _ => true
  }

  ghost predicate Paging(op: Op) {
    op.Prefetch? || op.Read? || op.Lookup?
  }

  /** The page requests an operation makes, each with its claim about the page. */
  ghost function AsksOf(op: Op): set<(Tag, Lsns)> {
    match op
    case Prefetch(base, _, lsns, mask) => ForBlocks(base, lsns, mask)
    case Read(base, _, lsns, mask) => ForBlocks(base, lsns, mask)
    case Lookup(base, lsns) => ForBlocks(base, lsns, {})
    case _ => {}
  }

  ghost function AsksIn(ops: seq<Op>): set<(Tag, Lsns)> {
    if ops == [] then {} else AsksIn(ops[..|ops| - 1]) + AsksOf(ops[|ops| - 1])
  }

  /** Where an operation may send its page requests when the ring has `size` slots. */
  ghost function RoutesOf(op: Op, size: nat): set<(Tag, nat)> {
    match op
    case Prefetch(base, shard, lsns, mask) => ForBlocks(base, Same(shard, Capped(|lsns|, size)), mask)
    case Read(base, shards, lsns, mask) => if shards == [] then {} else Routes(base, shards, mask, size)
    case _ => {}
  }

  /** Where it may send them whatever the size of the ring. */
  ghost function ShardsOf(op: Op): set<(Tag, nat)> {
    if op.Prefetch? || op.Read? then RoutesOf(op, |op.lsns|) else {}
  }

  lemma ShardsWider(op: Op, size: nat)
    requires OpOk(op)
    ensures RoutesOf(op, size) <= ShardsOf(op)
  {
    match op
    case Prefetch(base, shard, lsns, mask) => SameWider(base, shard, Capped(|lsns|, size), |lsns|, mask);
    case Read(base, shards, lsns, mask) =>
      SameWider(base, shards[0], if |shards| < size then |shards| else size, |lsns|, mask);
    case _ =>
  }

  lemma SameWider(base: Tag, shard: nat, n: nat, m: nat, mask: set<nat>)
    requires n <= m
    ensures ForBlocks(base, Same(shard, n), mask) <= ForBlocks(base, Same(shard, m), mask)
  {
    hide ForBlocks, Same;
    var s, t := Same(shard, n), Same(shard, m);
    forall x | x in ForBlocks(base, s, mask) ensures x in ForBlocks(base, t, mask) {
      var i := ForBlocksHas(base, s, mask, x);
      assert s[i] == t[i];
    }
  }

  lemma ForBlocksHas(base: Tag, shards: seq<nat>, mask: set<nat>, x: (Tag, nat)) returns (i: nat)
    requires x in ForBlocks(base, shards, mask)
    ensures i < |shards| && i !in mask && x == (base.(block := base.block + i), shards[i])
  {
    i :| i < |shards| && i !in mask && x == (base.(block := base.block + i), shards[i]);
  }

  ghost function ShardsIn(ops: seq<Op>): set<(Tag, nat)> {
    if ops == [] then {} else ShardsIn(ops[..|ops| - 1]) + ShardsOf(ops[|ops| - 1])
  }

  lemma ShardsNext(ops: seq<Op>, n: nat)
    requires n < |ops|
    ensures ShardsIn(ops[..n + 1]) == ShardsIn(ops[..n]) + ShardsOf(ops[n])
  {
    assert ops[..n + 1][..n] == ops[..n];
  }

  lemma AsksNext(ops: seq<Op>, n: nat)
    requires n < |ops|
    ensures AsksIn(ops[..n + 1]) == AsksIn(ops[..n]) + AsksOf(ops[n])
  {
    assert ops[..n + 1][..n] == ops[..n];
  }

  lemma {:induction false} AskedBy(ops: seq<Op>, n: nat, ask: (Tag, Lsns)) returns (i: nat)
    requires n <= |ops| && ask in AsksIn(ops[..n])
    ensures i < n && ask in AsksOf(ops[i])
  {
    AsksNext(ops, n - 1);
    if ask in AsksOf(ops[n - 1]) {
      i := n - 1;
    } else {
      i := AskedBy(ops, n - 1, ask);
    }
  }

  // ---------- What a delivery is worth ----------

  /** A page that a server sent, as far as is known, for a block and LSNs that are among `own`. */
  ghost predicate Sound(history: History, known: Known, own: set<(Tag, Lsns)>, d: Delivery) {
    && (d.tag, d.wanted) in own && WellFormed(d.wanted)
    && Delivered(history, known, d.tag, d.wanted, d.used, d.at, d.page)
  }

  /** The deliveries of operation `k`. */
  ghost predicate SoundFor(history: History, known: Known, own: set<(Tag, Lsns)>, k: nat, log: seq<Delivery>) {
    forall i :: 0 <= i < |log| ==> log[i].op == k && Sound(history, known, own, log[i])
  }

  /** Every page was sent by a server, for a request of this or an earlier operation; `clocks` says how far WAL
      had been written when each operation ended. */
  ghost predicate AllSound(history: History, ops: seq<Op>, clocks: seq<Lsn>, heard: set<Response>, log: seq<Delivery>) {
    && |clocks| <= |ops|
    && forall i :: 0 <= i < |log| ==> SoundIn(history, ops, clocks, heard, log[i])
  }

  ghost predicate SoundIn(history: History, ops: seq<Op>, clocks: seq<Lsn>, heard: set<Response>, d: Delivery)
    requires |clocks| <= |ops|
  {
    && d.op < |clocks| && (ops[d.op].Read? || ops[d.op].Lookup?)
    && Sound(history, Known(AsksIn(ops[..d.op + 1]), {}, clocks[d.op], heard), AsksOf(ops[d.op]), d)
  }

  lemma StaysSound(history: History, ops: seq<Op>, clocks: seq<Lsn>, later: seq<Lsn>, heard: set<Response>,
                   more: set<Response>, d: Delivery)
    requires |clocks| <= |later| <= |ops| && heard <= more && clocks == later[..|clocks|]
    requires SoundIn(history, ops, clocks, heard, d)
    ensures SoundIn(history, ops, later, more, d)
  {
    hide AsksIn, AsksOf;
  }

  /** The deliveries among the results of a read. */
  function LogOf(k: nat, base: Tag, lsns: seq<Lsns>, r: seq<ReadResult>, used: seq<Lsns>, at: seq<Lsn>): seq<Delivery>
    requires |r| == |used| == |at| <= |lsns|
  {
    if r == [] then [] else
      var n := |r| - 1;
      LogOf(k, base, lsns, r[..n], used[..n], at[..n])
      + (if !r[n].PageRead? then []
         else [Delivery(k, base.(block := base.block + n), lsns[n], used[n], at[n], r[n].page)])
  }

  lemma {:induction false} LogSound(history: History, known: Known, k: nat, base: Tag, lsns: seq<Lsns>, mask: set<nat>,
                                    r: seq<ReadResult>, used: seq<Lsns>, at: seq<Lsn>, asks: set<(Tag, Lsns)>)
    requires |r| == |used| == |at| <= |lsns| && known.asked <= asks
    requires forall l :: l in lsns ==> WellFormed(l)
    requires forall i :: 0 <= i < |r| ==> (r[i].PageRead? ==> i !in mask)
    requires AllDelivered(history, known, base, lsns, r, used, at)
    ensures SoundFor(history, Known(asks, {}, known.clock, known.heard), ForBlocks(base, lsns, mask), k,
                     LogOf(k, base, lsns, r, used, at))
  {
    if r != [] {
      var n := |r| - 1;
      LogSound(history, known, k, base, lsns, mask, r[..n], used[..n], at[..n], asks);
      if r[n].PageRead? {
        assert Delivered(history, known, base.(block := base.block + n), lsns[n], used[n], at[n], r[n].page);
      }
    }
  }

  lemma {:induction false} LogHas(k: nat, base: Tag, lsns: seq<Lsns>, r: seq<ReadResult>, used: seq<Lsns>, at: seq<Lsn>,
                                  i: nat)
    requires |r| == |used| == |at| <= |lsns| && i < |r| && r[i].PageRead?
    ensures Logged(LogOf(k, base, lsns, r, used, at), k, base.(block := base.block + i), lsns[i])
  {
    var n := |r| - 1;
    var front, whole := LogOf(k, base, lsns, r[..n], used[..n], at[..n]), LogOf(k, base, lsns, r, used, at);
    if i < n {
      LogHas(k, base, lsns, r[..n], used[..n], at[..n], i);
      LoggedLater(front, whole[|front|..], k, base.(block := base.block + i), lsns[i]);
      assert whole == front + whole[|front|..];
    } else {
      assert whole[|whole| - 1] == Delivery(k, base.(block := base.block + n), lsns[n], used[n], at[n], r[n].page);
    }
  }

  /** Operation `k` delivered a page for the block and LSNs. */
  ghost predicate Logged(log: seq<Delivery>, k: nat, tag: Tag, wanted: Lsns) {
    exists i :: 0 <= i < |log| && log[i].op == k && log[i].tag == tag && log[i].wanted == wanted
  }

  lemma LoggedLater(log: seq<Delivery>, more: seq<Delivery>, k: nat, tag: Tag, wanted: Lsns)
    requires Logged(log, k, tag, wanted) || Logged(more, k, tag, wanted)
    ensures Logged(log + more, k, tag, wanted)
  {
    if Logged(log, k, tag, wanted) {
      var i :| 0 <= i < |log| && log[i].op == k && log[i].tag == tag && log[i].wanted == wanted;
      assert (log + more)[i] == log[i];
    } else {
      var i :| 0 <= i < |more| && more[i].op == k && more[i].tag == tag && more[i].wanted == wanted;
      assert (log + more)[|log| + i] == more[i];
    }
  }

  /** Every block that operation `k`, a read, was asked for has been delivered. */
  ghost predicate Complete(op: Op, k: nat, log: seq<Delivery>)
    requires op.Read?
  {
    forall i :: 0 <= i < |op.lsns| && i !in op.mask ==> Logged(log, k, op.base.(block := op.base.block + i), op.lsns[i])
  }

  lemma ReadComplete(op: Op, k: nat, r: seq<ReadResult>, used: seq<Lsns>, at: seq<Lsn>)
    requires op.Read? && |r| == |used| == |at| && AllRead(r, |op.lsns|)
    requires forall i :: 0 <= i < |r| ==> (r[i] == Skipped <==> i in op.mask)
    ensures Complete(op, k, LogOf(k, op.base, op.lsns, r, used, at))
  {
    forall i | 0 <= i < |op.lsns| && i !in op.mask
      ensures Logged(LogOf(k, op.base, op.lsns, r, used, at), k, op.base.(block := op.base.block + i), op.lsns[i])
    {
      LogHas(k, op.base, op.lsns, r, used, at, i);
    }
  }

  /** Every usable page that was buffered for a block looked up is delivered. */
  ghost predicate AllHitsLogged(s: State, op: Op, k: nat, log: seq<Delivery>)
    requires op.Lookup?
  {
    forall i :: 0 <= i < |op.lsns| && Hit(Found(s, op.base.(block := op.base.block + i)), op.lsns[i]) ==>
      Logged(log, k, op.base.(block := op.base.block + i), op.lsns[i])
  }

  lemma LookupComplete(s: State, op: Op, k: nat, r: seq<ReadResult>, used: seq<Lsns>, at: seq<Lsn>)
    requires op.Lookup? && |r| == |used| == |at| == |op.lsns|
    requires forall i :: 0 <= i < |r| ==> LookedUp(s, op.base.(block := op.base.block + i), op.lsns[i], r[i])
    ensures AllHitsLogged(s, op, k, LogOf(k, op.base, op.lsns, r, used, at))
  {
    forall i | 0 <= i < |op.lsns| && Hit(Found(s, op.base.(block := op.base.block + i)), op.lsns[i])
      ensures Logged(LogOf(k, op.base, op.lsns, r, used, at), k, op.base.(block := op.base.block + i), op.lsns[i])
    {
      assert LookedUp(s, op.base.(block := op.base.block + i), op.lsns[i], r[i]);
      LogHas(k, op.base, op.lsns, r, used, at, i);
    }
  }

  /** A request that would have done for block `i` of a read was answered with an error. */
  ghost predicate DeniedAt(asks: set<(Tag, Lsns)>, heard: set<Response>, op: Op, i: nat, used: Lsns, id: nat)
    requires op.Read?
  {
    && i < |op.lsns| && i !in op.mask
    && WellFormed(used) && Usable(op.lsns[i], used) && (op.base.(block := op.base.block + i), used) in asks
    && ErrorResponse(GetPage(op.base.(block := op.base.block + i), id, used.request, used.notModifiedSince)) in heard
  }

  /** A server answered with an error for one of the blocks. */
  ghost predicate Denied(asks: set<(Tag, Lsns)>, heard: set<Response>, op: Op)
    requires op.Read?
  {
    exists i: nat, used, id: nat :: DeniedAt(asks, heard, op, i, used, id)
  }

  lemma ErrorHeard(s: State, history: History, asks: set<(Tag, Lsns)>, op: Op, i: nat)
    requires Inv(s, history) && s.known.asked <= asks && op.Read? && i < |op.lsns| && i !in op.mask
    requires ServerError(Found(s, op.base.(block := op.base.block + i)), op.lsns[i])
    ensures Denied(asks, s.known.heard, op)
  {
    hide Inv;
    var tag := op.base.(block := op.base.block + i);
    var at := s.hash[tag];
    HashFinds(s, tag, history);
    SlotBuffered(s, at, history);
    BufferedAnswer(s, at, history);
    assert DeniedAt(asks, s.known.heard, op, i, s.live[at].lsns, s.live[at].reqid);
  }

  /** The claims of an operation. The caller of a read keeps the page from being modified until it has it; a
      prefetch only claims what its LSNs say. */
  ghost predicate Keeps(history: History, op: Op, clock: Lsn) {
    forall ask :: ask in AsksOf(op) ==>
      if op.Prefetch? then Claim(history, ask.0, ask.1) else ClaimUntil(history, ask.0, ask.1, clock)
  }

  ghost predicate AllKeep(history: History, ops: seq<Op>, clocks: seq<Lsn>)
    requires |clocks| <= |ops|
  {
    forall i :: 0 <= i < |clocks| ==> Keeps(history, ops[i], clocks[i])
  }

  /** Every request names the LSN it wants, as on a replica, and claims no more than its LSNs say. */
  ghost predicate AllAtRequestLsn(history: History, ops: seq<Op>) {
    forall ask :: ask in AsksIn(ops) ==> Claim(history, ask.0, ask.1) && ask.1.request == ask.1.effective
  }

  ghost predicate Fresh(history: History, d: Delivery) {
    d.page == history(d.tag, d.wanted.effective)
  }

  /** When the claims are true, a delivered page is the page at the caller's effective LSN and still the
      current one when the operation ends. */
  lemma RunIsCurrent(history: History, ops: seq<Op>, clocks: seq<Lsn>, heard: set<Response>, d: Delivery)
    requires |clocks| <= |ops| && SoundIn(history, ops, clocks, heard, d) && AllKeep(history, ops, clocks)
    ensures Fresh(history, d) && d.page == history(d.tag, Max(d.wanted.effective, clocks[d.op]))
  {
    hide AsksIn, AsksOf, Usable, Served;
    var ask := (d.tag, d.used);
    var i := AskedBy(ops, d.op + 1, ask);
    assert Keeps(history, ops[i], clocks[i]) && Keeps(history, ops[d.op], clocks[d.op]);
    assert Claim(history, ask.0, ask.1);
    assert ClaimUntil(history, (d.tag, d.wanted).0, (d.tag, d.wanted).1, clocks[d.op]);
    UsableMeansCurrent(history, d.tag, d.wanted, d.used, d.at, clocks[d.op]);
  }

  /** The same for requests that name the LSN they want, whose claims need not hold any longer than that. */
  lemma RunAtRequestLsn(history: History, ops: seq<Op>, clocks: seq<Lsn>, heard: set<Response>, d: Delivery)
    requires |clocks| <= |ops| && SoundIn(history, ops, clocks, heard, d) && AllAtRequestLsn(history, ops)
    ensures Fresh(history, d)
  {
    AsksWithin(ops, d.op);
    assert (d.tag, d.used) in AsksIn(ops) && (d.tag, d.wanted) in AsksIn(ops);
    UsableAtRequestLsn(history, d.tag, d.wanted, d.used, d.at);
  }

  lemma {:induction false} AsksWithin(ops: seq<Op>, n: nat)
    requires n < |ops|
    ensures AsksIn(ops[..n + 1]) <= AsksIn(ops) && AsksOf(ops[n]) <= AsksIn(ops)
    decreases |ops| - n
  {
    AsksNext(ops, n);
    if n + 1 == |ops| {
      assert ops[..n + 1] == ops;
    } else {
      AsksWithin(ops, n + 1);
      AsksNext(ops, n + 1);
    }
  }

  // ---------- Running ----------

  /** Every block of a prefetch that a ring of `size` slots can take has been requested. */
  ghost predicate Prefetched(asked: set<(Tag, Lsns)>, size: nat, op: Op)
    requires op.Prefetch?
  {
    forall i: nat :: i < |op.lsns| && i < size && i !in op.mask ==>
      AskedFor(asked, op.base.(block := op.base.block + i))
  }

  ghost predicate AskedFor(asked: set<(Tag, Lsns)>, tag: Tag) {
    exists used :: (tag, used) in asked
  }

  lemma CoversPrefetch(asked: set<(Tag, Lsns)>, size: nat, op: Op, got: map<nat, Lsns>)
    requires op.Prefetch? && op.lsns != []
    requires Covers(asked, op.base, op.lsns, Capped(|op.lsns|, size), op.mask, true, got)
    ensures Prefetched(asked, size, op)
  {
    forall i: nat | i < |op.lsns| && i < size && i !in op.mask
      ensures AskedFor(asked, op.base.(block := op.base.block + i))
    {
      assert (op.base.(block := op.base.block + i), got[i]) in asked;
    }
  }

  /** One operation that concerns pages. A read delivers every block unless a server answers with an error or
      the query is cancelled; a lookup delivers every usable page that is buffered. */
  method StepPages(c: Communicator, op: Op, k: nat, ghost asks: set<(Tag, Lsns)>)
      returns (log: seq<Delivery>, refused: bool)
    requires c.Valid() && c.tail == Idle && OpOk(op)
    requires c.asked + AsksOf(op) <= asks && Paging(op)
    modifies c, c.buf, c.bitmap
    ensures c.bitmap == old(c.bitmap) && c.buf == old(c.buf)
    ensures c.Valid() && c.tail == Idle && c.asked <= asks
    ensures old(c.routes) <= c.routes <= old(c.routes) + RoutesOf(op, c.buf.Length)
    ensures old(c.clock) <= c.clock && old(c.cancels) <= c.cancels && old(c.heard) <= c.heard
    ensures SoundFor(c.history, Known(asks, {}, c.clock, c.heard), AsksOf(op), k, log) && (op.Prefetch? ==> log == [])
    ensures op.Prefetch? && c.cancels == old(c.cancels) ==> Prefetched(c.asked, c.buf.Length, op)
    ensures refused ==> op.Read? && Denied(asks, c.heard, op)
    ensures op.Read? && c.cancels == old(c.cancels) && !refused ==> Complete(op, k, log)
    ensures op.Lookup? ==> AllHitsLogged(old(c.View()), op, k, log)
  {
    hide Follows, Spent, LiveOf, Inv, Bitmap.Bits, ForBlocks, Same, Sound, AllDelivered, Covers, Latest, Found, Hit,
      LookedUp, ServerError, Denied, Prefetched, Routes, Capped;
    log, refused := [], false;
    match op
    case Prefetch(base, shard, lsns, mask) =>
      var o, _, got, _ := c.RegisterBufferV(base, shard, lsns, |lsns|, mask, true);
      if o == Done {
        CoversPrefetch(c.asked, c.buf.Length, op, got);
      }
    case Read(base, shards, lsns, mask) =>
      var r, used, at := c.ReadAtLsnV(base, shards, lsns, mask);
      LogSound(c.history, c.Knows(), k, base, lsns, mask, r, used, at, asks);
      log := LogOf(k, base, lsns, r, used, at);
      refused := r != [] && r[|r| - 1] == ReadFailed;
      if refused {
        ErrorHeard(c.View(), c.history, asks, op, |r| - 1);
      }
      if AllRead(r, |lsns|) {
        ReadComplete(op, k, r, used, at);
      }
    case Lookup(base, lsns) =>
      ghost var s := c.View();
      var r, used, at, _ := c.LookupV(base, lsns);
      LogSound(c.history, c.Knows(), k, base, lsns, {}, r, used, at, asks);
      LookupComplete(s, op, k, r, used, at);
      log := LogOf(k, base, lsns, r, used, at);
  }

  /** A server sent the answer to the request of the operation. */
  ghost predicate Answering(history: History, heard: set<Response>, op: Op, reply: Answer) {
    && op.Sync? && reply.sent == op.req.(reqid := reply.sent.reqid)
    && Answers(history, reply.sent, reply.resp) && reply.resp in heard
  }

  /** After a cancelled synchronous request: requests are outstanding on the connection that was closed. */
  ghost predicate Stranded(s: State, op: Op) {
    op.Sync? && s.receive <= s.unused && Pending(s, op.shard) != []
  }

  /** One operation that concerns the connections or the ring as a whole. Only a synchronous request that is
      cancelled while prefetch requests are outstanding on its shard ends the run. */
  method StepRing(c: Communicator, op: Op, k: nat) returns (alive: bool, replies: seq<Answer>)
    requires c.Valid() && c.tail == Idle && OpOk(op) && !Paging(op)
    modifies c, c.buf, c.bitmap
    ensures c.bitmap == old(c.bitmap) && (c.buf == old(c.buf) || fresh(c.buf))
    ensures c.tail == Idle && c.asked == old(c.asked) && c.routes == old(c.routes) && c.Rep()
    ensures alive ==> c.Valid()
    ensures !alive ==> Stranded(c.View(), op) && !c.Valid() && c.cancels > old(c.cancels)
    ensures old(c.clock) <= c.clock && old(c.cancels) <= c.cancels && old(c.heard) <= c.heard
    ensures forall i :: 0 <= i < |replies| ==> replies[i].op == k && Answering(c.history, c.heard, op, replies[i])
    ensures op.Sync? && c.cancels == old(c.cancels) ==> replies != []
    ensures op.ConnectionLost? ==> c.conns.Keys !! op.drops && c.ringReceive == c.ringUnused
    ensures op.Pump? && c.ringReceive != c.ringUnused ==>
      Pumped(old(c.script), c.ringReceive - old(c.ringReceive), old(c.ringFlush - c.ringReceive))
    ensures op.ResizeTo? && old(c.ringUnused) <= UINT64_MAX && c.cancels == old(c.cancels) ==> c.buf.Length == op.size
  {
    hide Follows, Spent, LiveOf, Inv, Bitmap.Bits, Contents, Kept, Pending;
    alive, replies := true, [];
    match op
    case ReceiveEarly(tag) =>
      var _ := c.PrefetchReceive(tag);
    case Sync(shard, req) =>
      var o, resp, sent := c.SyncRequest(shard, req);
      if o == Done {
        replies := [Answer(k, sent, resp)];
      } else {
        var waiting := c.Outstanding(shard);
        alive := !waiting;
      }
    case Pump =>
      c.PumpState(Poll);
    case ConnectionLost(drops) =>
      c.PsDisconnect(drops);
    case ResizeTo(size) =>
      if c.ringUnused <= UINT64_MAX {
        var _, _, _ := c.Resize(size);
      }
  }

  ghost predicate Rising(clocks: seq<Lsn>) {
    forall i, j :: 0 <= i <= j < |clocks| ==> clocks[i] <= clocks[j]
  }

  /** Every synchronous request among the first `n` operations has its reply. */
  ghost predicate AllReplied(ops: seq<Op>, n: nat, replies: seq<Answer>)
    requires n <= |ops|
  {
    forall i :: 0 <= i < n && ops[i].Sync? ==> exists k :: 0 <= k < |replies| && replies[k].op == i
  }

  ghost predicate RepliesSound(history: History, heard: set<Response>, ops: seq<Op>, n: nat, replies: seq<Answer>)
    requires n <= |ops|
  {
    forall k :: 0 <= k < |replies| ==> replies[k].op < n && Answering(history, heard, ops[replies[k].op], replies[k])
  }

  lemma MoreSound(history: History, ops: seq<Op>, clocks: seq<Lsn>, heard: set<Response>, log: seq<Delivery>,
                  clock: Lsn, now: set<Response>, more: seq<Delivery>)
    requires AllSound(history, ops, clocks, heard, log) && |clocks| < |ops| && heard <= now
    requires more != [] ==> ops[|clocks|].Read? || ops[|clocks|].Lookup?
    requires SoundFor(history, Known(AsksIn(ops[..|clocks| + 1]), {}, clock, now), AsksOf(ops[|clocks|]), |clocks|,
                      more)
    ensures AllSound(history, ops, clocks + [clock], now, log + more)
  {
    hide Sound, AsksIn, AsksOf;
    forall i | 0 <= i < |log + more| ensures SoundIn(history, ops, clocks + [clock], now, (log + more)[i]) {
      if i < |log| {
        StaysSound(history, ops, clocks, clocks + [clock], heard, now, log[i]);
      }
    }
  }

  lemma MoreReplies(history: History, heard: set<Response>, now: set<Response>, ops: seq<Op>, n: nat,
                    replies: seq<Answer>, more: seq<Answer>)
    requires n < |ops| && RepliesSound(history, heard, ops, n, replies) && heard <= now
    requires forall i :: 0 <= i < |more| ==> more[i].op == n && Answering(history, now, ops[n], more[i])
    ensures RepliesSound(history, now, ops, n + 1, replies + more)
    ensures AllReplied(ops, n, replies) && (ops[n].Sync? ==> more != []) ==> AllReplied(ops, n + 1, replies + more)
  {
    var all := replies + more;
    if AllReplied(ops, n, replies) && (ops[n].Sync? ==> more != []) {
      forall i | 0 <= i < n + 1 && ops[i].Sync? ensures exists k :: 0 <= k < |all| && all[k].op == i {
        if i == n {
          assert all[|replies|].op == n;
        } else {
          var k :| 0 <= k < |replies| && replies[k].op == i;
          assert all[k].op == i;
        }
      }
    }
  }

  /** Every read among the first `n` operations that no server refused has delivered all its blocks. */
  ghost predicate AllComplete(ops: seq<Op>, n: nat, log: seq<Delivery>, refused: set<nat>)
    requires n <= |ops|
  {
    forall k :: 0 <= k < n && ops[k].Read? && k !in refused ==> Complete(ops[k], k, log)
  }

  lemma MoreComplete(ops: seq<Op>, n: nat, log: seq<Delivery>, more: seq<Delivery>, refused: set<nat>, failed: bool)
    requires n < |ops|
    ensures AllComplete(ops, n, log, refused) && (ops[n].Read? && !failed ==> Complete(ops[n], n, more)) ==>
      AllComplete(ops, n + 1, log + more, if failed then refused + {n} else refused)
  {
    var after := if failed then refused + {n} else refused;
    if AllComplete(ops, n, log, refused) && (ops[n].Read? && !failed ==> Complete(ops[n], n, more)) {
      forall k | 0 <= k < n + 1 && ops[k].Read? && k !in after ensures Complete(ops[k], k, log + more) {
        assert Complete(ops[k], k, log) || Complete(ops[k], k, more);
        StaysComplete(ops[k], k, log, more);
      }
    }
  }

  lemma StaysComplete(op: Op, k: nat, log: seq<Delivery>, more: seq<Delivery>)
    requires op.Read? && (Complete(op, k, log) || Complete(op, k, more))
    ensures Complete(op, k, log + more)
  {
    hide Logged;
    forall i | 0 <= i < |op.lsns| && i !in op.mask
      ensures Logged(log + more, k, op.base.(block := op.base.block + i), op.lsns[i])
    {
      LoggedLater(log, more, k, op.base.(block := op.base.block + i), op.lsns[i]);
    }
  }

  /** Every read that was refused is one that a server answered with an error. */
  ghost predicate AllDenied(ops: seq<Op>, n: nat, heard: set<Response>, refused: set<nat>)
    requires n <= |ops|
  {
    forall k :: k in refused ==> k < n && ops[k].Read? && Denied(AsksIn(ops[..k + 1]), heard, ops[k])
  }

  lemma MoreDenied(ops: seq<Op>, n: nat, heard: set<Response>, now: set<Response>, refused: set<nat>, failed: bool)
    requires n < |ops| && AllDenied(ops, n, heard, refused) && heard <= now
    requires failed ==> ops[n].Read? && Denied(AsksIn(ops[..n + 1]), now, ops[n])
    ensures AllDenied(ops, n + 1, now, if failed then refused + {n} else refused)
  {
    hide AsksIn, Usable;
    forall k | k in refused ensures k < n && ops[k].Read? && Denied(AsksIn(ops[..k + 1]), now, ops[k]) {
      var i: nat, used, id: nat :| DeniedAt(AsksIn(ops[..k + 1]), heard, ops[k], i, used, id);
      assert DeniedAt(AsksIn(ops[..k + 1]), now, ops[k], i, used, id);
    }
  }

  // ---------- Runs without trouble ----------

  /** The LSN after which the request claims that its page was not modified has been written whenever a server
      is asked, and is not after the request LSN. */
  ghost predicate Timely(plan: seq<Event>, req: Request) {
    req.GetPage? ==>
      && req.notModifiedSince <= req.lsn
      && forall e :: e in plan && e.Event? ==> req.notModifiedSince <= e.now
  }

  /** No event is a cancellation or an error, and every request is timely. */
  ghost predicate Smooth(plan: seq<Event>, ops: seq<Op>) {
    && (forall e :: e in plan ==> e.Event? && !e.isError)
    && (forall ask, id: nat :: ask in AsksIn(ops) ==>
          Timely(plan, GetPage(ask.0, id, ask.1.request, ask.1.notModifiedSince)))
    && (forall i :: 0 <= i < |ops| && ops[i].Sync? ==> Timely(plan, ops[i].req))
  }

  /** A server that follows a plan without errors answers a timely request. */
  lemma TimelyAnswer(history: History, plan: seq<Event>, events: seq<Event>, clock: Lsn, req: Request)
    requires forall e :: e in events ==> e in plan
    requires forall e :: e in plan ==> e.Event? && !e.isError
    requires Timely(plan, req)
    ensures !Told(history, events, clock, ErrorResponse(req))
  {
  }

  lemma NoneDenied(history: History, plan: seq<Event>, events: seq<Event>, clock: Lsn, ops: seq<Op>, n: nat,
                   heard: set<Response>, refused: set<nat>)
    requires n <= |ops| && AllDenied(ops, n, heard, refused) && Smooth(plan, ops)
    requires forall e :: e in events ==> e in plan
    requires forall r :: r in heard ==> Told(history, events, clock, r)
    ensures refused == {}
  {
    hide Told, Usable, Smooth, AsksIn, AsksOf, Denied;
    if k :| k in refused {
      assert Denied(AsksIn(ops[..k + 1]), heard, ops[k]);
      NotDenied(history, plan, events, clock, ops, heard, k);
    }
  }

  lemma NotDenied(history: History, plan: seq<Event>, events: seq<Event>, clock: Lsn, ops: seq<Op>,
                  heard: set<Response>, k: nat)
    requires Smooth(plan, ops) && k < |ops| && ops[k].Read?
    requires forall e :: e in events ==> e in plan
    requires forall r :: r in heard ==> Told(history, events, clock, r)
    ensures !Denied(AsksIn(ops[..k + 1]), heard, ops[k])
  {
    hide Told, Usable, Smooth, AsksIn, AsksOf, WellFormed;
    AsksWithin(ops, k);
    if Denied(AsksIn(ops[..k + 1]), heard, ops[k]) {
      var i: nat, used, id: nat :| DeniedAt(AsksIn(ops[..k + 1]), heard, ops[k], i, used, id);
      NoErrorFor(history, plan, events, clock, ops, heard, ops[k].base.(block := ops[k].base.block + i), used, id);
    }
  }

  lemma NoErrorFor(history: History, plan: seq<Event>, events: seq<Event>, clock: Lsn, ops: seq<Op>,
                   heard: set<Response>, tag: Tag, used: Lsns, id: nat)
    requires Smooth(plan, ops) && (tag, used) in AsksIn(ops)
    requires forall e :: e in events ==> e in plan
    requires forall r :: r in heard ==> Told(history, events, clock, r)
    ensures ErrorResponse(GetPage(tag, id, used.request, used.notModifiedSince)) !in heard
  {
    hide Told;
    var ask := (tag, used);
    var req := GetPage(ask.0, id, ask.1.request, ask.1.notModifiedSince);
    assert Timely(plan, req);
    TimelyAnswer(history, plan, events, clock, req);
  }

  lemma NoErrorReply(history: History, plan: seq<Event>, events: seq<Event>, clock: Lsn, ops: seq<Op>, n: nat,
                     heard: set<Response>, replies: seq<Answer>)
    requires n <= |ops| && RepliesSound(history, heard, ops, n, replies) && Smooth(plan, ops)
    requires forall e :: e in events ==> e in plan
    requires forall r :: r in heard ==> Told(history, events, clock, r)
    ensures NoErrors(replies)
  {
    hide Told, AsksIn;
    forall k | 0 <= k < |replies| ensures !replies[k].resp.ErrorResponse? {
      var op := ops[replies[k].op];
      assert Answering(history, heard, op, replies[k]);
      assert Timely(plan, replies[k].sent) by { assert Timely(plan, op.req); }
      TimelyAnswer(history, plan, events, clock, replies[k].sent);
    }
  }

  ghost predicate NoErrors(replies: seq<Answer>) {
    forall k :: 0 <= k < |replies| ==> !replies[k].resp.ErrorResponse?
  }

  /** When nothing in the plan can go wrong, nothing is refused or answered with an error, and nothing is
      cancelled before the plan is used up. */
  lemma SmoothRun(history: History, plan: seq<Event>, script: seq<Event>, cancels: nat, clock: Lsn,
                  heard: set<Response>, ops: seq<Op>, n: nat, refused: set<nat>, replies: seq<Answer>)
    requires Follows(history, plan, script, cancels, clock, heard) && Smooth(plan, ops)
    requires n <= |ops| && AllDenied(ops, n, heard, refused) && RepliesSound(history, heard, ops, n, replies)
    ensures refused == {} && NoErrors(replies) && (script != [] ==> cancels == 0)
  {
    var events := Spent(plan, script);
    assert forall e :: e in events ==> e in plan;
    hide Spent, Told, AllDenied, RepliesSound, NoErrors, AsksIn;
    NoneDenied(history, plan, events, clock, ops, n, heard, refused);
    NoErrorReply(history, plan, events, clock, ops, n, heard, replies);
  }

  /** Every clock was named by an event of the plan, or is the one the run began with. */
  ghost predicate AllNamed(plan: seq<Event>, start: Lsn, clocks: seq<Lsn>) {
    forall i :: 0 <= i < |clocks| ==> clocks[i] == start || Named(plan, clocks[i])
  }

  lemma MoreNamed(history: History, plan: seq<Event>, script: seq<Event>, cancels: nat, clock: Lsn,
                  heard: set<Response>, start: Lsn, clocks: seq<Lsn>)
    requires Follows(history, plan, script, cancels, clock, heard) && AllNamed(plan, start, clocks)
    ensures AllNamed(plan, start, clocks + [clock])
  {
    assert forall e :: e in Spent(plan, script) ==> e in plan;
    hide Spent, Told;
    assert Named(plan, clock);
  }

  /** Every page delivered in any run was sent by a server, for a request of the run that is usable for the
      caller, and when the claims are true it is the page the caller asked for. Where nothing was cancelled,
      every synchronous request gets the answer that a server sent to it, and every read all its blocks,
      unless a server answered one with an error. Servers, cancellations and clocks follow the plan of the
      environment, so where nothing in it can go wrong, nothing does. The ring stays consistent to the end,
      unless a synchronous request is cancelled while prefetch requests are outstanding on its shard. */
  method Run(c: Communicator, ops: seq<Op>)
      returns (log: seq<Delivery>, replies: seq<Answer>, refused: set<nat>, clocks: seq<Lsn>, alive: bool)
    requires c.Valid() && c.tail == Idle && c.asked == {}
    requires forall i :: 0 <= i < |ops| ==> OpOk(ops[i])
    modifies c, c.buf, c.bitmap
    ensures |clocks| <= |ops| && Rising(clocks) && AllNamed(c.plan, old(c.clock), clocks)
    ensures old(c.clock) <= c.clock && (clocks != [] ==> clocks[|clocks| - 1] == c.clock)
    ensures Follows(c.history, c.plan, c.script, c.cancels, c.clock, c.heard) && old(c.heard) <= c.heard
    ensures c.routes <= old(c.routes) + ShardsIn(ops[..|clocks|])
    ensures alive ==> c.Valid() && |clocks| == |ops|
    ensures !alive ==> clocks != [] && Stranded(c.View(), ops[|clocks| - 1])
    ensures AllSound(c.history, ops, clocks, c.heard, log)
    ensures AllKeep(c.history, ops, clocks) ==> forall i :: 0 <= i < |log| ==>
      Fresh(c.history, log[i]) && log[i].page == c.history(log[i].tag, Max(log[i].wanted.effective, clocks[log[i].op]))
    ensures AllAtRequestLsn(c.history, ops) ==> forall i :: 0 <= i < |log| ==> Fresh(c.history, log[i])
    ensures RepliesSound(c.history, c.heard, ops, |clocks|, replies)
    ensures AllDenied(ops, |clocks|, c.heard, refused)
    ensures c.cancels == old(c.cancels) ==>
      alive && AllReplied(ops, |ops|, replies) && AllComplete(ops, |ops|, log, refused)
    ensures Smooth(c.plan, ops) && c.script != [] ==>
      alive && AllReplied(ops, |ops|, replies) && NoErrors(replies) && AllComplete(ops, |ops|, log, {})
  {
    hide Follows, LiveOf, Inv, Bitmap.Bits, SoundFor, SoundIn, AllSound, AsksOf, AsksIn, RoutesOf, ShardsOf, ShardsIn,
      OpOk, Answering, RepliesSound, AllReplied, Stranded, AllKeep, AllAtRequestLsn, Fresh, Rising, Complete,
      AllComplete, AllHitsLogged, Denied, Prefetched, AllDenied, AllNamed, Smooth, NoErrors;
    log, replies, refused, clocks, alive := [], [], {}, [], true;
    NothingYet(c.history, ops, c.heard, c.plan, c.clock);
    while |clocks| < |ops| && alive
      invariant |clocks| <= |ops| && Rising(clocks) && AllNamed(c.plan, old(c.clock), clocks)
      invariant c.clock == if clocks == [] then old(c.clock) else clocks[|clocks| - 1]
      invariant old(c.clock) <= c.clock && old(c.heard) <= c.heard && old(c.cancels) <= c.cancels
      invariant c.tail == Idle && c.asked <= AsksIn(ops[..|clocks|]) && c.Rep()
      invariant c.routes <= old(c.routes) + ShardsIn(ops[..|clocks|])
      invariant alive ==> c.Valid()
      invariant !alive ==> clocks != [] && Stranded(c.View(), ops[|clocks| - 1])
      invariant c.bitmap == old(c.bitmap) && (c.buf == old(c.buf) || fresh(c.buf))
      invariant AllSound(c.history, ops, clocks, c.heard, log)
      invariant RepliesSound(c.history, c.heard, ops, |clocks|, replies)
      invariant AllDenied(ops, |clocks|, c.heard, refused)
      invariant c.cancels == old(c.cancels) ==>
        alive && AllReplied(ops, |clocks|, replies) && AllComplete(ops, |clocks|, log, refused)
      decreases |ops| - |clocks|
    {
      var k := |clocks|;
      ghost var heard := c.heard;
      AsksNext(ops, k);
      ShardsNext(ops, k);
      ShardsWider(ops[k], c.buf.Length);
      var more, answers, failed := [], [], false;
      if ops[k].Prefetch? || ops[k].Read? || ops[k].Lookup? {
        more, failed := StepPages(c, ops[k], k, AsksIn(ops[..k + 1]));
      } else {
        alive, answers := StepRing(c, ops[k], k);
        NoMore(c.history, Known(AsksIn(ops[..k + 1]), {}, c.clock, c.heard), AsksOf(ops[k]), k);
      }
      StillRising(clocks, c.clock);
      MoreNamed(c.history, c.plan, c.script, c.cancels, c.clock, c.heard, old(c.clock), clocks);
      MoreSound(c.history, ops, clocks, heard, log, c.clock, c.heard, more);
      MoreReplies(c.history, heard, c.heard, ops, k, replies, answers);
      MoreDenied(ops, k, heard, c.heard, refused, failed);
      MoreComplete(ops, k, log, more, refused, failed);
      log, replies, clocks := log + more, replies + answers, clocks + [c.clock];
      refused := if failed then refused + {k} else refused;
    }
    Conclude(c.history, ops, clocks, c.heard, log);
    if Smooth(c.plan, ops) {
      SmoothRun(c.history, c.plan, c.script, c.cancels, c.clock, c.heard, ops, |clocks|, refused, replies);
    }
  }

  lemma NothingYet(history: History, ops: seq<Op>, heard: set<Response>, plan: seq<Event>, clock: Lsn)
    ensures AllSound(history, ops, [], heard, []) && RepliesSound(history, heard, ops, 0, []) && AllReplied(ops, 0, [])
    ensures AsksIn(ops[..0]) == {} && Rising([]) && AllComplete(ops, 0, [], {})
    ensures AllDenied(ops, 0, heard, {}) && AllNamed(plan, clock, [])
  {
  }

  lemma StillRising(clocks: seq<Lsn>, clock: Lsn)
    requires Rising(clocks) && (clocks != [] ==> clocks[|clocks| - 1] <= clock)
    ensures Rising(clocks + [clock])
  {
  }

  lemma NoMore(history: History, known: Known, own: set<(Tag, Lsns)>, k: nat)
    ensures SoundFor(history, known, own, k, [])
  {
  }

  lemma Conclude(history: History, ops: seq<Op>, clocks: seq<Lsn>, heard: set<Response>, log: seq<Delivery>)
    requires AllSound(history, ops, clocks, heard, log)
    ensures AllKeep(history, ops, clocks) ==> forall i :: 0 <= i < |log| ==>
      && log[i].op < |clocks| && Fresh(history, log[i])
      && log[i].page == history(log[i].tag, Max(log[i].wanted.effective, clocks[log[i].op]))
    ensures AllAtRequestLsn(history, ops) ==> forall i :: 0 <= i < |log| ==> Fresh(history, log[i])
  {
    forall i | 0 <= i < |log|
      ensures log[i].op < |clocks|
      ensures AllKeep(history, ops, clocks) ==>
        Fresh(history, log[i]) && log[i].page == history(log[i].tag, Max(log[i].wanted.effective, clocks[log[i].op]))
      ensures AllAtRequestLsn(history, ops) ==> Fresh(history, log[i])
    {
      assert SoundIn(history, ops, clocks, heard, log[i]);
      hide Sound;
      if AllKeep(history, ops, clocks) {
        RunIsCurrent(history, ops, clocks, heard, log[i]);
      }
      if AllAtRequestLsn(history, ops) {
        RunAtRequestLsn(history, ops, clocks, heard, log[i]);
      }
    }
  }
}
