/** Synchronous requests share the connections with the prefetch requests. */
module RingSync {
  import opened Options
  import opened PageTypes
  import opened Ring
  import opened RingSteps
  import RingDisconnect

  /** A synchronous request is written behind whatever is outstanding on its shard. */
  ghost function WithTail(s: State, shard: nat, req: Request): State {
    Sent(s, shard, req).(tail := Busy(shard, req, false))
  }

  ghost function NoTail(s: State): State {
    s.(tail := Idle)
  }

  lemma TailAtShard(s: State, shard: nat, req: Request, other: nat)
    requires Ordered(s) && FifoAt(s, other) && s.tail == Idle
    requires other in s.conns ==> FlushedAt(s, other)
    ensures FifoAt(WithTail(s, shard, req), other)
    ensures other in WithTail(s, shard, req).conns ==> FlushedAt(WithTail(s, shard, req), other)
  {
    hide Owed;
    OwedSplit(s.live, s.receive, s.flush, s.unused, other);
  }

  lemma TailKeeps(s: State, shard: nat, req: Request, history: History)
    requires Inv(s, history) && s.tail == Idle
    ensures Inv(WithTail(s, shard, req), history)
  {
    hide Core, Owed, FifoAt, FlushedAt;
    var t := WithTail(s, shard, req);
    CoreOrdered(s, history);
    CoreFrame(s, t, history);
    forall other ensures FifoAt(t, other) { TailAtShard(s, shard, req, other); }
    forall other | other in t.conns ensures FlushedAt(t, other) { TailAtShard(s, shard, req, other); }
  }

  ghost function TailOut(s: State): State
    requires s.tail.Busy?
  {
    s.(conns := FlushShard(s, s.tail.shard).conns, tail := s.tail.(flushed := true))
  }

  lemma TailOutAt(s: State, other: nat)
    requires Ordered(s) && FifoAt(s, other) && s.tail.Busy?
    requires other in s.conns ==> FlushedAt(s, other)
    ensures FifoAt(TailOut(s), other)
    ensures other in s.conns ==> FlushedAt(TailOut(s), other)
  {
    hide Owed;
  }

  lemma TailOutKeeps(s: State, history: History)
    requires Inv(s, history) && s.tail.Busy?
    ensures Inv(TailOut(s), history)
  {
    hide Core, Owed, FifoAt, FlushedAt;
    var t := TailOut(s);
    CoreOrdered(s, history);
    CoreFrame(s, t, history);
    forall other ensures FifoAt(t, other) { TailOutAt(s, other); }
    forall other | other in t.conns ensures FlushedAt(t, other) { TailOutAt(s, other); }
  }

  /** When the connection is gone, so is the synchronous request. */
  lemma TailGone(s: State, history: History)
    requires Inv(s, history) && s.tail.Busy? && s.tail.shard !in s.conns
    ensures Inv(NoTail(s), history)
  {
    hide Core, Owed;
    var t := NoTail(s);
    CoreOrdered(s, history);
    CoreFrame(s, t, history);
    forall other ensures FifoAt(t, other) { assert FifoAt(s, other); }
    forall other | other in t.conns ensures FlushedAt(t, other) { assert FlushedAt(s, other); }
  }

  /** Once the prefetch responses are consumed, the synchronous request is alone on its connection and
      has been flushed, so the next response answers it. */
  lemma TailIsNext(s: State, history: History)
    requires Inv(s, history) && s.receive == s.unused
    requires s.tail.Busy? && s.tail.flushed && s.tail.shard in s.conns
    ensures s.conns[s.tail.shard] == Conn([s.tail.req], 1)
  {
    assert FifoAt(s, s.tail.shard) && FlushedAt(s, s.tail.shard);
  }

  ghost function TailDone(s: State, clock: Lsn, resp: Response): State
    requires s.tail.Busy?
  {
    NoTail(s.(conns := s.conns[s.tail.shard := Conn([], 0)],
             known := s.known.(clock := clock, heard := s.known.heard + {resp})))
  }

  lemma TailDoneKeeps(s: State, clock: Lsn, resp: Response, history: History)
    requires Inv(s, history) && s.receive == s.unused && s.tail.Busy? && s.tail.shard in s.conns
    requires s.known.clock <= clock
    ensures Inv(TailDone(s, clock, resp), history)
  {
    hide Core;
    var t := TailDone(s, clock, resp);
    CoreOrdered(s, history);
    CoreFrame(s, t, history);
    forall other ensures FifoAt(t, other) { assert FifoAt(s, other); }
    forall other | other in t.conns ensures FlushedAt(t, other) { assert FlushedAt(s, other); }
  }

  /** Cancelling a synchronous request closes its connection and nothing else. */
  ghost function SyncCancelled(s: State, shard: nat): State {
    NoTail(s.(conns := s.conns - {shard}))
  }

  lemma CancelledAt(s: State, shard: nat, other: nat)
    requires Ordered(s) && FifoAt(s, other) && (shard == other ==> Pending(s, shard) == [])
    requires (s.tail == Idle || s.tail.shard == shard)
    requires other in s.conns ==> FlushedAt(s, other)
    ensures FifoAt(SyncCancelled(s, shard), other)
    ensures other in SyncCancelled(s, shard).conns ==> FlushedAt(SyncCancelled(s, shard), other)
  {
    hide Owed;
  }

  /** The ring stays consistent exactly when no prefetch request was outstanding on that connection. */
  lemma SyncCancelledKeeps(s: State, shard: nat, history: History)
    requires Inv(s, history) && (s.tail == Idle || s.tail.shard == shard)
    ensures Inv(SyncCancelled(s, shard), history) <==> s.receive <= s.unused && Pending(s, shard) == []
  {
    hide Core, Owed, FifoAt, FlushedAt;
    var t := SyncCancelled(s, shard);
    CoreOrdered(s, history);
    CoreFrame(s, t, history);
    if Pending(s, shard) == [] {
      forall other ensures FifoAt(t, other) { CancelledAt(s, shard, other); }
      forall other | other in t.conns ensures FlushedAt(t, other) { CancelledAt(s, shard, other); }
    } else {
      NotFifo(t, shard);
    }
  }

  lemma NotFifo(t: State, shard: nat)
    requires t.receive <= t.unused && shard !in t.conns && Pending(t, shard) != []
    ensures !FifoAt(t, shard)
  {
  }

  /** After the cancellation another request is sent to the shard and flushed. */
  ghost function Resent(s: State, shard: nat, req: Request): State {
    var t := Sent(SyncCancelled(s, shard), shard, req);
    t.(conns := FlushShard(t, shard).conns)
  }

  /** Otherwise the next request sent to that shard is alone on a new connection, and its answer is stored as
      the answer to the prefetch that is still waited for: it is found under that block's tag. */
  lemma SyncCancelledMisroutes(s: State, shard: nat, req: Request, resp: Response, clock: Lsn, history: History)
    requires Inv(s, history) && s.receive in s.live && s.live[s.receive].shard == shard
    requires req != RequestOf(s.live[s.receive]) && Answers(history, req, resp)
    ensures var t := Resent(s, shard, req);
      && Pending(s, shard) != [] && Receivable(t) && t.conns[shard] == Conn([req], 1)
      && var u := ReceiveStep(t, resp, clock);
         var slot := u.live[s.receive];
         && slot.response == Some(resp) && Found(u, s.live[s.receive].tag) == Some(Bare(slot))
         && RequestOf(slot) == RequestOf(s.live[s.receive]) && !Answers(history, RequestOf(slot), resp)
  {
    assert SlotFits(s, s.receive);
    OwedFront(s.live, s.receive, s.unused, shard);
  }

  /** Example: block 1 is waited for when a synchronous request on its shard is cancelled; the page of block 2,
      requested next, is then found under the tag of block 1. */
  lemma WrongPageFound(history: History)
    ensures var s := RingDisconnect.Example(history);
            var one, two := RingDisconnect.ExampleTag(1), RingDisconnect.ExampleTag(2);
            var req := GetPage(two, 4, 0, 0);
            var resp := PageResponse(req, 0, history(two, 0));
      && Inv(s, history) && Answers(history, req, resp) && Receivable(Resent(s, 0, req))
      && var found := Found(ReceiveStep(Resent(s, 0, req), resp, 0), one);
         found.Some? && found.value.tag == one && found.value.response == Some(resp)
  {
    hide RingDisconnect.Example, Inv, Resent, ReceiveStep, Receivable, Pending, Found;
    var s := RingDisconnect.Example(history);
    var two := RingDisconnect.ExampleTag(2);
    var req := GetPage(two, 4, 0, 0);
    RingDisconnect.ExampleShape(history);
    SyncCancelledMisroutes(s, 0, req, PageResponse(req, 0, history(two, 0)), 0, history);
  }
}
