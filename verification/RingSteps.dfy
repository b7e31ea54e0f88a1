/** The elementary steps of the ring and the proof that each keeps the invariant. */
module RingSteps {
  import opened Options
  import opened PageTypes
  import opened Ring

  // ---------- What a shard owes ----------

  lemma {:induction false} OwedAgree(a: map<nat, Slot>, b: map<nat, Slot>, lo: nat, hi: nat, shard: nat)
    requires lo <= hi
    requires forall i: nat :: lo <= i < hi ==> OwedFor(a, i, shard) == OwedFor(b, i, shard)
    ensures Owed(a, lo, hi, shard) == Owed(b, lo, hi, shard)
    decreases hi
  {
    if lo < hi {
      OwedAgree(a, b, lo, hi - 1, shard);
      assert OwedFor(a, hi - 1, shard) == OwedFor(b, hi - 1, shard);
    }
  }

  lemma {:induction false} OwedSplit(live: map<nat, Slot>, lo: nat, mid: nat, hi: nat, shard: nat)
    requires lo <= mid <= hi
    ensures Owed(live, lo, hi, shard) == Owed(live, lo, mid, shard) + Owed(live, mid, hi, shard)
    decreases hi
  {
    if mid < hi {
      OwedSplit(live, lo, mid, hi - 1, shard);
    }
  }

  lemma OwedFront(live: map<nat, Slot>, lo: nat, hi: nat, shard: nat)
    requires lo < hi
    ensures Owed(live, lo, hi, shard) == OwedFor(live, lo, shard) + Owed(live, lo + 1, hi, shard)
  {
    OwedSplit(live, lo, lo + 1, hi, shard);
    assert Owed(live, lo, lo + 1, shard) == Owed(live, lo, lo, shard) + OwedFor(live, lo, shard);
  }

  /** The connections do not notice changes to buffered responses. */
  lemma FifoFrame(s: State, t: State)
    requires Ordered(s) && Fifo(s) && Ordered(t)
    requires t.receive == s.receive && t.flush == s.flush && t.unused == s.unused
    requires forall i: nat :: s.receive <= i < s.unused ==> Cell(t.live, i) == Cell(s.live, i)
    requires t.conns == s.conns && t.tail == s.tail
    requires t.dirty == s.dirty && t.maxShard == s.maxShard
    ensures Fifo(t)
  {
    forall shard ensures FifoAt(t, shard) {
      assert FifoAt(s, shard);
      OwedFrame(s.live, t.live, s.receive, s.unused, shard);
    }
    forall shard | shard in t.conns ensures FlushedAt(t, shard) {
      assert FlushedAt(s, shard);
      OwedFrame(s.live, t.live, s.receive, s.flush, shard);
      OwedFrame(s.live, t.live, s.receive, s.unused, shard);
    }
  }

  lemma OwedFrame(a: map<nat, Slot>, b: map<nat, Slot>, lo: nat, hi: nat, shard: nat)
    requires lo <= hi
    requires forall i: nat :: lo <= i < hi ==> Cell(b, i) == Cell(a, i)
    ensures Owed(a, lo, hi, shard) == Owed(b, lo, hi, shard)
  {
    forall i: nat | lo <= i < hi ensures OwedFor(a, i, shard) == OwedFor(b, i, shard) {
      assert Cell(b, i) == Cell(a, i);
      if i in a {
        assert Cell(a, i)[0] == Bare(a[i]) && Cell(b, i)[0] == Bare(b[i]);
      }
    }
    OwedAgree(a, b, lo, hi, shard);
  }

  // ---------- Receiving a response ----------

  /** The oldest outstanding slot is at the head of a live connection. */
  ghost predicate HeadReady(s: State) {
    Receivable(s) && s.conns[s.live[s.receive].shard].queue[0] == RequestOf(s.live[s.receive])
  }

  /** Some response is on its way on the connection of the oldest outstanding slot. */
  ghost predicate Receivable(s: State) {
    && s.receive in s.live
    && s.live[s.receive].shard in s.conns
    && var conn := s.conns[s.live[s.receive].shard]; conn.queue != [] && conn.flushed > 0
  }

  /** The next response on that connection is stored in the slot. */
  ghost function ReceiveStep(s: State, resp: Response, clock: Lsn): State
    requires Receivable(s)
  {
    var slot := s.live[s.receive];
    var conn := s.conns[slot.shard];
    s.(live := s.live[s.receive := slot.(status := Received, response := Some(resp))],
       receive := s.receive + 1,
       buffered := s.buffered + 1,
       inflight := s.inflight - 1,
       conns := s.conns[slot.shard := Conn(conn.queue[1..], conn.flushed - 1)],
       known := s.known.(clock := clock, heard := s.known.heard + {resp}))
  }

  /** Whenever a response is awaited the request has been flushed, and the next response on that
      connection is the one to this request. */
  lemma HeadOfLine(s: State, history: History)
    requires Inv(s, history) && s.receive < s.flush
    ensures HeadReady(s)
  {
    var slot := s.live[s.receive];
    assert FifoAt(s, slot.shard);
    OwedFront(s.live, s.receive, s.unused, slot.shard);
    OwedFront(s.live, s.receive, s.flush, slot.shard);
    assert FlushedAt(s, slot.shard);
  }

  lemma ReceivePlaced(s: State, resp: Response, clock: Lsn)
    requires Ordered(s) && Placed(s) && s.receive < s.flush && HeadReady(s)
    ensures Placed(ReceiveStep(s, resp, clock))
  {
    var t := ReceiveStep(s, resp, clock);
    forall i | i in t.live ensures SlotFits(t, i) { assert SlotFits(s, i); }
  }

  lemma ReceiveKeepsCore(s: State, resp: Response, clock: Lsn, history: History)
    requires Core(s, history) && Tight(s) && s.receive < s.flush && HeadReady(s)
    requires Answers(history, RequestOf(s.live[s.receive]), resp) && Reached(resp, clock) && s.known.clock <= clock
    ensures Core(ReceiveStep(s, resp, clock), history) && Tight(ReceiveStep(s, resp, clock))
  {
    var t := ReceiveStep(s, resp, clock);
    assert t.live.Keys == s.live.Keys;
    ReceivePlaced(s, resp, clock);
    assert Hashed(t);
    assert Answered(t, history);
  }

  lemma ReceiveFifoAt(s: State, resp: Response, clock: Lsn, shard: nat)
    requires Ordered(s) && s.receive < s.flush && HeadReady(s) && FifoAt(s, shard)
    ensures FifoAt(ReceiveStep(s, resp, clock), shard)
  {
    hide Owed;
    var t := ReceiveStep(s, resp, clock);
    OwedFront(s.live, s.receive, s.unused, shard);
    OwedAgree(s.live, t.live, s.receive + 1, s.unused, shard);
  }

  lemma ReceiveFlushedAt(s: State, resp: Response, clock: Lsn, shard: nat)
    requires Ordered(s) && s.receive < s.flush && HeadReady(s)
    requires shard in s.conns && FlushedAt(s, shard)
    ensures FlushedAt(ReceiveStep(s, resp, clock), shard)
  {
    var t := ReceiveStep(s, resp, clock);
    OwedFront(s.live, s.receive, s.flush, shard);
    OwedAgree(s.live, t.live, s.receive + 1, s.flush, shard);
    OwedFront(s.live, s.receive, s.unused, shard);
    OwedAgree(s.live, t.live, s.receive + 1, s.unused, shard);
  }

  lemma ReceiveKeeps(s: State, resp: Response, clock: Lsn, history: History)
    requires Inv(s, history) && s.receive < s.flush && HeadReady(s)
    requires Answers(history, RequestOf(s.live[s.receive]), resp) && Reached(resp, clock) && s.known.clock <= clock
    ensures Inv(ReceiveStep(s, resp, clock), history)
  {
    ReceiveKeepsCore(s, resp, clock, history);
    var t := ReceiveStep(s, resp, clock);
    forall shard ensures FifoAt(t, shard) { ReceiveFifoAt(s, resp, clock, shard); }
    forall shard | shard in t.conns ensures FlushedAt(t, shard) { ReceiveFlushedAt(s, resp, clock, shard); }
  }

  // ---------- Releasing a slot ----------

  ghost function Release(s: State, i: nat): State
    requires i in s.live
  {
    s.(live := s.live - {i},
       hash := s.hash - {s.live[i].tag},
       buffered := if s.live[i].status == Received then s.buffered - 1 else s.buffered)
  }

  lemma ReleaseKeepsCore(s: State, i: nat, history: History)
    requires Core(s, history) && i in s.live && i < s.receive
    ensures Core(Release(s, i), history)
  {
    var t := Release(s, i);
    assert SlotFits(s, i);
    assert t.live.Keys == s.live.Keys - {i};
    forall j | j in t.live ensures SlotFits(t, j) { assert SlotFits(s, j); }
    assert Hashed(t);
  }

  // ---------- Dropping the oldest outstanding request ----------

  ghost function MarkDropped(s: State): State
    requires s.receive in s.live
  {
    var slot := s.live[s.receive];
    s.(live := s.live[s.receive := slot.(status := TagRemains)],
       receive := s.receive + 1,
       inflight := s.inflight - 1,
       conns := s.conns - {slot.shard})
  }

  lemma DropPlaced(s: State)
    requires Ordered(s) && Placed(s) && s.receive < s.flush
    ensures Placed(Release(MarkDropped(s), s.receive))
  {
    var t := Release(MarkDropped(s), s.receive);
    forall j | j in t.live ensures SlotFits(t, j) { assert SlotFits(s, j); }
  }

  lemma DropKeepsCore(s: State, history: History)
    requires Core(s, history) && s.receive < s.flush
    ensures Core(Release(MarkDropped(s), s.receive), history)
  {
    var r := s.receive;
    var t := Release(MarkDropped(s), r);
    assert t.live == s.live - {r};
    assert t.live.Keys == s.live.Keys - {r};
    DropPlaced(s);
    assert Hashed(t);
    assert Answered(t, history);
  }

  /** While the disconnect hook runs, only shards that are still connected agree with the ring. */
  ghost predicate LooseAt(s: State, shard: nat)
    requires s.receive <= s.unused
    requires shard in s.conns
  {
    && s.conns[shard].queue == Pending(s, shard) + TailAt(s, shard)
    && DirtyAt(s, shard)
  }

  ghost predicate LooseFifo(s: State)
    requires s.receive <= s.unused
  {
    forall shard :: shard in s.conns ==> LooseAt(s, shard)
  }

  lemma FifoIsLoose(s: State)
    requires Ordered(s) && Fifo(s)
    ensures LooseFifo(s)
  {
    forall shard | shard in s.conns ensures LooseAt(s, shard) {
      assert FifoAt(s, shard) && FlushedAt(s, shard);
    }
  }

  lemma LooseIsFifo(s: State)
    requires Ordered(s) && s.receive == s.unused && LooseFifo(s)
    ensures Fifo(s)
  {
    forall shard ensures FifoAt(s, shard) {
      if shard in s.conns { assert LooseAt(s, shard); }
    }
    forall shard | shard in s.conns ensures FlushedAt(s, shard) { assert LooseAt(s, shard); }
  }

  lemma DropKeepsLoose(s: State)
    requires s.receive < s.unused && s.receive in s.live && LooseFifo(s)
    ensures LooseFifo(Release(MarkDropped(s), s.receive))
  {
    var t := Release(MarkDropped(s), s.receive);
    forall shard | shard in t.conns ensures LooseAt(t, shard) {
      assert LooseAt(s, shard);
      OwedFront(s.live, s.receive, s.unused, shard);
      OwedAgree(s.live, t.live, s.receive + 1, s.unused, shard);
    }
  }

  lemma LooseFrame(s: State, t: State)
    requires s.receive <= s.unused && LooseFifo(s)
    requires t.receive == s.receive && t.unused == s.unused
    requires forall i: nat :: s.receive <= i < s.unused ==> Cell(t.live, i) == Cell(s.live, i)
    requires t.conns == s.conns && t.tail == s.tail
    requires t.dirty == s.dirty && t.maxShard == s.maxShard
    ensures LooseFifo(t)
  {
    forall shard | shard in t.conns ensures LooseAt(t, shard) {
      assert LooseAt(s, shard);
      OwedFrame(s.live, t.live, s.receive, s.unused, shard);
    }
  }

  // ---------- Rearranging buffered responses ----------

  lemma {:induction false} ContentsAgree(a: map<nat, Slot>, b: map<nat, Slot>, lo: nat, hi: nat)
    requires lo <= hi
    requires forall i: nat :: lo <= i < hi ==> Cell(a, i) == Cell(b, i)
    ensures Contents(a, lo, hi) == Contents(b, lo, hi)
    decreases hi
  {
    if lo < hi {
      ContentsAgree(a, b, lo, hi - 1);
      assert Cell(a, hi - 1) == Cell(b, hi - 1);
    }
  }

  lemma {:induction false} ContentsSplit(live: map<nat, Slot>, lo: nat, mid: nat, hi: nat)
    requires lo <= mid <= hi
    ensures Contents(live, lo, hi) == Contents(live, lo, mid) + Contents(live, mid, hi)
    decreases hi
  {
    if mid < hi {
      ContentsSplit(live, lo, mid, hi - 1);
    }
  }

  lemma {:induction false} ContentsGap(live: map<nat, Slot>, lo: nat, hi: nat)
    requires lo <= hi
    requires forall i: nat :: lo <= i < hi ==> i !in live
    ensures Contents(live, lo, hi) == []
    decreases hi
  {
    if lo < hi {
      ContentsGap(live, lo, hi - 1);
    }
  }

  ghost function Move(s: State, from: nat, to: nat): State
    requires from in s.live
  {
    s.(live := (s.live - {from})[to := s.live[from].(myIndex := to)],
       hash := (s.hash - {s.live[from].tag})[s.live[from].tag := to])
  }

  lemma MovePlaced(s: State, from: nat, to: nat)
    requires Ordered(s) && Placed(s)
    requires from in s.live && to !in s.live && from < to < s.receive
    ensures Placed(Move(s, from, to))
  {
    var t := Move(s, from, to);
    assert SlotFits(s, from);
    forall j | j in t.live ensures SlotFits(t, j) {
      if j != to { assert SlotFits(s, j); }
    }
  }

  lemma MoveKeepsCore(s: State, from: nat, to: nat, history: History)
    requires Core(s, history)
    requires from in s.live && to !in s.live && from < to < s.receive
    ensures Core(Move(s, from, to), history)
  {
    var t := Move(s, from, to);
    MovePlaced(s, from, to);
    assert t.live.Keys == s.live.Keys - {from} + {to};
    assert Hashed(t);
    assert Answered(t, history);
  }

  /** Moving a response up across a gap keeps the order of the buffered responses. */
  lemma MoveKeepsContents(s: State, from: nat, to: nat, lo: nat, hi: nat)
    requires lo <= from < to < hi && from in s.live
    requires forall i: nat :: from < i <= to ==> i !in s.live
    ensures Contents(Move(s, from, to).live, lo, hi) == Contents(s.live, lo, hi)
  {
    var t := Move(s, from, to);
    MoveSegment(s.live, t.live, from, to);
    ContentsAgree(s.live, t.live, lo, from);
    ContentsAgree(s.live, t.live, to + 1, hi);
    ContentsSplit(s.live, lo, from, hi);
    ContentsSplit(t.live, lo, from, hi);
    ContentsSplit(s.live, from, to + 1, hi);
    ContentsSplit(t.live, from, to + 1, hi);
  }

  lemma MoveSegment(a: map<nat, Slot>, b: map<nat, Slot>, from: nat, to: nat)
    requires from < to && from in a && to in b && Bare(b[to]) == Bare(a[from])
    requires forall i: nat :: from < i <= to ==> i !in a
    requires forall i: nat :: from <= i < to ==> i !in b
    ensures Contents(a, from, to + 1) == Contents(b, from, to + 1)
  {
    ContentsSplit(a, from, from + 1, to + 1);
    ContentsGap(a, from + 1, to + 1);
    assert Contents(a, from, from + 1) == Contents(a, from, from) + Cell(a, from);
    ContentsGap(b, from, to);
  }

  /** `t` holds the same buffered responses as `s` in the same order, and the same requests. */
  ghost predicate Rearranged(s: State, t: State)
    requires s.last <= s.receive
  {
    && t == s.(live := t.live, hash := t.hash, last := t.last)
    && s.last <= t.last <= t.receive
    && t.hash.Keys == s.hash.Keys
    && Contents(t.live, t.last, t.receive) == Contents(s.live, s.last, s.receive)
    && (forall i :: s.receive <= i ==> (i in t.live <==> i in s.live))
    && (forall i :: s.receive <= i && i in t.live ==> t.live[i] == s.live[i])
  }

  lemma RearrangedTrans(s: State, t: State, u: State)
    requires s.last <= s.receive && Rearranged(s, t) && Rearranged(t, u)
    ensures Rearranged(s, u)
  {
  }

  lemma MoveRearranges(s: State, from: nat, to: nat)
    requires s.last <= from < to < s.receive && from in s.live && s.live[from].tag in s.hash
    requires forall i: nat :: from < i <= to ==> i !in s.live
    ensures Rearranged(s, Move(s, from, to))
  {
    MoveKeepsContents(s, from, to, s.last, s.receive);
  }

  /** Skipping unused slots at the old end. */
  lemma AdvanceKeeps(s: State, last: nat, history: History)
    requires Core(s, history) && s.last <= last <= s.receive
    requires forall i: nat :: s.last <= i < last ==> i !in s.live
    ensures Core(s.(last := last), history) && Rearranged(s, s.(last := last))
  {
    AdvancePlaced(s, last);
    hide Placed, Hashed, Counted, Answered;
    ContentsSplit(s.live, s.last, last, s.receive);
    ContentsGap(s.live, s.last, last);
    hide Contents;
    assert Counted(s.(last := last)) && Hashed(s.(last := last)) && Answered(s.(last := last), history) by {
      AdvanceFrame(s, last, history);
    }
  }

  lemma AdvanceFrame(s: State, last: nat, history: History)
    requires Hashed(s) && Counted(s) && Answered(s, history)
    ensures var t := s.(last := last); Hashed(t) && Counted(t) && Answered(t, history)
  {
  }

  lemma AdvancePlaced(s: State, last: nat)
    requires Placed(s) && s.last <= last <= s.receive
    requires forall i: nat :: s.last <= i < last ==> i !in s.live
    ensures Placed(s.(last := last))
  {
    forall i | i in s.live ensures SlotFits(s.(last := last), i) { assert SlotFits(s, i); }
  }

  // ---------- Trimming and compacting ----------

  function FirstUsed(live: map<nat, Slot>, lo: nat, hi: nat): (i: nat)
    requires lo <= hi
    ensures lo <= i <= hi
    ensures forall j: nat :: lo <= j < i ==> j !in live
    ensures i < hi ==> i in live
    decreases hi - lo
  {
    if lo == hi || lo in live then lo else FirstUsed(live, lo + 1, hi)
  }

  /** Skips unused slots at the old end. */
  ghost function Trim(s: State): State
    requires s.last <= s.receive
  {
    s.(last := FirstUsed(s.live, s.last, s.receive))
  }

  lemma TrimKeeps(s: State, history: History)
    requires Core(s, history)
    ensures Core(Trim(s), history) && Tight(Trim(s)) && Rearranged(s, Trim(s))
  {
    AdvanceKeeps(s, FirstUsed(s.live, s.last, s.receive), history);
  }

  /** The newest gap of [lo, hi), or `lo` when there is none. */
  function LastGap(live: map<nat, Slot>, lo: nat, hi: nat): (i: nat)
    requires lo <= hi
    ensures lo <= i && (lo < hi ==> i < hi)
    ensures i > lo ==> i !in live
    ensures forall j: nat :: i < j < hi ==> j in live
    decreases hi
  {
    if lo == hi then lo else if hi - 1 !in live then hi - 1 else LastGap(live, lo, hi - 1)
  }

  /** Moves the used slots below `search` up against `empty`, newest first. */
  ghost function Sweep(s: State, search: nat, empty: nat): State
    requires s.last <= search <= empty
    decreases search
  {
    if search == s.last then s
    else if search - 1 !in s.live then Sweep(s, search - 1, empty)
    else Sweep(Move(s, search - 1, empty), search - 1, empty - 1)
  }

  ghost function Compacted(s: State): State
    requires s.last <= s.receive
  {
    if s.last == s.receive then s else
      var gap := LastGap(s.live, s.last, s.receive);
      var t := Sweep(s, gap, gap);
      s.(live := t.live, hash := t.hash, last := FirstUsed(t.live, s.last, s.receive))
  }

  /** Between `search` and `empty` there is a gap, above it there is none. */
  ghost predicate Sweeping(s: State, search: nat, empty: nat) {
    && s.last <= search <= empty < s.receive
    && (forall i: nat :: search <= i <= empty ==> i !in s.live)
    && (forall i: nat :: empty < i < s.receive ==> i in s.live)
  }

  ghost predicate UpClosed(live: map<nat, Slot>, lo: nat, hi: nat) {
    forall i: nat, j: nat :: lo <= i < j < hi && i in live ==> j in live
  }

  lemma {:induction false} SweepKeepsCore(s: State, search: nat, empty: nat, history: History)
    requires Core(s, history) && Sweeping(s, search, empty)
    ensures Core(Sweep(s, search, empty), history)
    ensures UpClosed(Sweep(s, search, empty).live, s.last, s.receive)
    decreases search
  {
    hide Core;
    if search == s.last {
    } else if search - 1 !in s.live {
      SweepKeepsCore(s, search - 1, empty, history);
    } else {
      MoveKeepsCore(s, search - 1, empty, history);
      SweepKeepsCore(Move(s, search - 1, empty), search - 1, empty - 1, history);
    }
  }

  lemma {:induction false} SweepKeepsContents(s: State, search: nat, empty: nat)
    requires Sweeping(s, search, empty)
    requires forall i :: i in s.live ==> s.live[i].tag in s.hash
    ensures var t := Sweep(s, search, empty);
      && t == s.(live := t.live, hash := t.hash)
      && Rearranged(s, t)
    decreases search
  {
    SweepingSelf(s, search, empty);
    if search > s.last {
      hide Contents, Move, Rearranged, Sweeping;
      if search - 1 !in s.live {
        SweepKeepsContents(s, search - 1, empty);
      } else {
        MoveRearranges(s, search - 1, empty);
        SweepingMoved(s, search, empty);
        SweepKeepsContents(Move(s, search - 1, empty), search - 1, empty - 1);
        RearrangedTrans(s, Move(s, search - 1, empty), Sweep(s, search, empty));
      }
    }
  }

  lemma SweepingSelf(s: State, search: nat, empty: nat)
    requires Sweeping(s, search, empty)
    ensures s.last <= s.receive && s.last <= search && Rearranged(s, s)
    ensures search > s.last && search - 1 !in s.live ==> Sweeping(s, search - 1, empty)
    ensures search > s.last && search - 1 in s.live ==> search <= empty < s.receive && empty !in s.live
  {
  }

  lemma SweepingMoved(s: State, search: nat, empty: nat)
    requires Sweeping(s, search, empty) && s.last < search && search - 1 in s.live
    requires forall i :: i in s.live ==> s.live[i].tag in s.hash
    ensures var t := Move(s, search - 1, empty);
      && t == s.(live := t.live, hash := t.hash)
      && Sweeping(t, search - 1, empty - 1) && forall i :: i in t.live ==> t.live[i].tag in t.hash
  {
  }

  function Range(lo: nat, hi: nat): (r: set<nat>)
    requires lo <= hi
    ensures |r| == hi - lo
    ensures forall i: nat :: i in r <==> lo <= i < hi
    decreases hi
  {
    if lo == hi then {} else Range(lo, hi - 1) + {hi - 1}
  }

  lemma GrowKeys(live: map<nat, Slot>, i: nat, slot: Slot)
    requires i !in live
    ensures |live[i := slot].Keys| == |live.Keys| + 1
  {
    assert live[i := slot].Keys == live.Keys + {i};
  }

  lemma SmallerSet(a: set<nat>, b: set<nat>)
    requires a <= b
    ensures |a| <= |b| && (a != b ==> |a| < |b|)
  {
    assert b == a + (b - a);
  }

  /** The number of gaps is what the counters say, and it is zero exactly when there is none. */
  lemma GapCount(s: State, history: History)
    requires Core(s, history)
    ensures 0 <= s.buffered <= s.receive - s.last
    ensures s.buffered == s.receive - s.last
            <==> forall i: nat :: s.last <= i < s.receive ==> i in s.live
  {
    hide Hashed, Answered, Range;
    forall i | i in s.live ensures i in Range(s.last, s.unused) { assert SlotFits(s, i); }
    var window := Range(s.last, s.unused);
    SmallerSet(s.live.Keys, window);
    SmallerSet(Range(s.receive, s.unused), s.live.Keys);
    if s.buffered == s.receive - s.last {
      assert s.live.Keys == window;
      forall i: nat | s.last <= i < s.receive ensures i in s.live { assert i in window; }
    } else {
      assert s.live.Keys != window;
    }
  }

  lemma NoGapsLeft(s: State, history: History)
    requires Core(s, history) && Tight(s) && UpClosed(s.live, s.last, s.receive)
    ensures s.receive - s.last == s.buffered
  {
    GapCount(s, history);
  }

  lemma CoreOrdered(s: State, history: History)
    requires Core(s, history)
    ensures Ordered(s)
    ensures forall i :: i in s.live ==> s.live[i].tag in s.hash
    ensures forall i :: s.receive <= i < s.unused ==> i in s.live
  {
  }

  /** Compaction closes every gap and keeps the buffered responses, their order and all requests. */
  lemma CompactedKeeps(s: State, history: History)
    requires Core(s, history) && Tight(s)
    ensures Core(Compacted(s), history) && Tight(Compacted(s))
    ensures Rearranged(s, Compacted(s))
    ensures Compacted(s).receive - Compacted(s).last == s.buffered
  {
    hide Core, Contents;
    CoreOrdered(s, history);
    if s.last < s.receive {
      var gap := LastGap(s.live, s.last, s.receive);
      var t := Sweep(s, gap, gap);
      if gap > s.last {
        assert Sweeping(s, gap, gap);
        SweepKeepsCore(s, gap, gap, history);
        SweepKeepsContents(s, gap, gap);
      }
      TrimKeeps(t, history);
      RearrangedTrans(s, t, Trim(t));
      assert Trim(t) == Compacted(s);
      NoGapsLeft(Trim(t), history);
    } else {
      NoGapsLeft(s, history);
    }
  }

  // ---------- Freeing a slot and losing the connections ----------

  predicate NeedsCompaction(s: State) {
    s.buffered / 8 < s.receive - s.last - s.buffered
  }

  /** The effect of freeing slot `i`. */
  ghost function Freed(s: State, i: nat): (t: State)
    requires s.last <= s.receive
    ensures t == s.(live := t.live, hash := t.hash, last := t.last, buffered := t.buffered)
    ensures t.last <= t.receive
  {
    if i < s.last || i !in s.live then s else
      var r := Release(s, i);
      if r.last == i then Trim(r) else if NeedsCompaction(r) then Compacted(r) else r
  }

  /** Freeing a slot keeps all other responses in order. Unless it was the oldest one, at most an eighth as many
      gaps as responses remain, and nothing moves where that is so already. */
  lemma FreedKeeps(s: State, i: nat, history: History)
    requires i in s.live && s.last <= i < s.receive && Tight(s)
    requires Core(Release(s, i), history)
    ensures Core(Freed(s, i), history) && Tight(Freed(s, i))
    ensures Rearranged(Release(s, i), Freed(s, i))
    ensures var t := Freed(s, i); i != s.last ==> t.receive - t.last - t.buffered <= t.buffered / 8
    ensures var r := Release(s, i);
      i != s.last && r.receive - r.last - r.buffered <= r.buffered / 8 ==> Freed(s, i) == r
  {
    hide Core, Contents, Compacted;
    var r := Release(s, i);
    CoreOrdered(r, history);
    if r.last == i {
      TrimKeeps(r, history);
    } else if NeedsCompaction(r) {
      CompactedKeeps(r, history);
      BufferedNonNegative(Compacted(r), history);
    }
  }

  lemma BufferedNonNegative(s: State, history: History)
    requires Core(s, history)
    ensures 0 <= s.buffered <= s.receive - s.last
  {
    GapCount(s, history);
  }

  /** The loop of the disconnect hook. */
  ghost function DropAll(s: State): State
    requires s.last <= s.receive
    decreases s.unused - s.receive
  {
    if s.receive < s.unused && s.receive in s.live then
      DropAll(Freed(MarkDropped(s), s.receive))
    else s
  }

  ghost function Disconnected(s: State): State
    requires s.last <= s.receive
  {
    DropAll(s.(flush := s.unused))
  }

  /** What losing the connections leaves: the buffered responses in order, no request, and the
      connections that carried none of the dropped requests. */
  ghost predicate KeptBuffered(s: State, t: State)
    requires s.last <= s.receive
  {
    && t == s.(live := t.live, hash := t.hash, last := t.last, receive := s.unused, flush := s.unused,
               inflight := t.inflight, conns := t.conns)
    && s.last <= t.last <= t.receive
    && Contents(t.live, t.last, t.receive) == Contents(s.live, s.last, s.receive)
    && t.hash.Keys <= s.hash.Keys
    && (forall shard :: shard in t.conns ==> shard in s.conns && t.conns[shard] == s.conns[shard])
  }

  lemma DropContents(s: State)
    requires s.last <= s.receive && s.receive in s.live
    ensures var r := Release(MarkDropped(s), s.receive);
      Contents(r.live, s.last, s.receive + 1) == Contents(s.live, s.last, s.receive)
  {
    var r := Release(MarkDropped(s), s.receive);
    ContentsAgree(s.live, r.live, s.last, s.receive);
  }

  ghost predicate DroppedOne(s: State, t: State)
    requires s.last <= s.receive
  {
    && t == s.(live := t.live, hash := t.hash, last := t.last, receive := s.receive + 1,
               inflight := s.inflight - 1, conns := t.conns)
    && s.last <= t.last <= t.receive
    && Contents(t.live, t.last, t.receive) == Contents(s.live, s.last, s.receive)
    && t.hash.Keys <= s.hash.Keys
    && (forall shard :: shard in t.conns ==> shard in s.conns && t.conns[shard] == s.conns[shard])
  }

  lemma KeptTrans(s: State, t: State, u: State)
    requires s.last <= s.receive && DroppedOne(s, t) && KeptBuffered(t, u)
    ensures KeptBuffered(s, u)
  {
    hide Contents;
  }

  /** One round of the hook's loop. */
  lemma DropStep(s: State, history: History)
    requires Core(s, history) && Tight(s) && LooseFifo(s)
    requires s.receive < s.unused == s.flush
    ensures s.receive in s.live
    ensures var t := Freed(MarkDropped(s), s.receive);
      && Core(t, history) && Tight(t) && LooseFifo(t)
      && DroppedOne(s, t)
  {
    hide Core, Contents, LooseFifo, Freed;
    CoreOrdered(s, history);
    var m := MarkDropped(s);
    var r := Release(m, s.receive);
    DropKeepsCore(s, history);
    DropKeepsLoose(s);
    DropContents(s);
    assert Tight(m);
    FreedKeeps(m, s.receive, history);
    LooseFrame(r, Freed(m, s.receive));
  }

  lemma KeptNone(s: State)
    requires s.last <= s.receive == s.flush == s.unused
    ensures KeptBuffered(s, s)
  {
  }

  lemma {:induction false} DropAllKeeps(s: State, history: History)
    requires Core(s, history) && Tight(s) && LooseFifo(s) && s.flush == s.unused
    ensures Core(DropAll(s), history) && Tight(DropAll(s)) && LooseFifo(DropAll(s))
    ensures KeptBuffered(s, DropAll(s))
    decreases s.unused - s.receive
  {
    CoreOrdered(s, history);
    hide Core, Contents, LooseFifo, Tight, Freed, KeptBuffered;
    if s.receive < s.unused {
      var t := Freed(MarkDropped(s), s.receive);
      DropStep(s, history);
      DropAllKeeps(t, history);
      KeptTrans(s, t, DropAll(t));
    } else {
      KeptNone(s);
    }
  }

  lemma FlushKeepsCore(s: State, history: History)
    requires Core(s, history)
    ensures Core(s.(flush := s.unused), history)
  {
    var f := s.(flush := s.unused);
    forall i | i in f.live ensures SlotFits(f, i) { assert SlotFits(s, i); }
  }

  lemma TightFlush(s: State)
    requires Tight(s)
    ensures Tight(s.(flush := s.unused))
  {
  }

  /** The hook starts by counting every request as flushed. */
  lemma FlushCounted(s: State, history: History)
    requires s.receive <= s.unused && Core(s, history) && Tight(s) && LooseFifo(s)
    ensures var t := s.(flush := s.unused); Core(t, history) && Tight(t) && LooseFifo(t)
  {
    FlushKeepsCore(s, history);
    LooseFrame(s, s.(flush := s.unused));
    TightFlush(s);
  }

  /** The disconnect hook re-establishes the invariant, with nothing in flight. */
  lemma DisconnectedKeeps(s: State, history: History)
    requires Core(s, history) && Tight(s) && LooseFifo(s)
    ensures Inv(Disconnected(s), history)
    ensures KeptBuffered(s, Disconnected(s))
  {
    hide Core, Contents, LooseFifo, Fifo, DropAll;
    CoreOrdered(s, history);
    var f := s.(flush := s.unused);
    FlushKeepsCore(s, history);
    LooseFrame(s, f);
    DropAllKeeps(f, history);
    CoreOrdered(DropAll(f), history);
    LooseIsFifo(DropAll(f));
  }

  // ---------- Sending a request ----------

  ghost function Sent(s: State, shard: nat, req: Request): (t: State)
    ensures t == s.(conns := t.conns)
  {
    var conn := if shard in s.conns then s.conns[shard] else Conn([], 0);
    s.(conns := s.conns[shard := Conn(conn.queue + [req], conn.flushed)])
  }

  ghost function Append(s: State, slot: Slot): State {
    Sent(s, slot.shard, RequestOf(slot)).(
    live := s.live[s.unused := slot],
    hash := s.hash[slot.tag := s.unused],
    unused := s.unused + 1,
    inflight := s.inflight + 1,
    dirty := s.dirty + {slot.shard},
    maxShard := Max(slot.shard + 1, s.maxShard),
    known := s.known.(asked := s.known.asked + {(slot.tag, slot.lsns)},
                      routes := s.known.routes + {(slot.tag, slot.shard)}))
  }

  ghost predicate Appendable(s: State, slot: Slot) {
    && s.unused < s.last + s.size
    && slot.tag !in s.hash
    && slot.shard < MAX_SHARDS
    && slot.myIndex == s.unused
    && WellFormed(slot.lsns)
    && slot.status == Requested
    && slot.response.None?
    && s.tail == Idle
  }

  lemma AppendPlaced(s: State, slot: Slot)
    requires Ordered(s) && Placed(s) && Appendable(s, slot)
    ensures Placed(Append(s, slot))
  {
    var t := Append(s, slot);
    forall j | j in t.live ensures SlotFits(t, j) {
      if j != s.unused { assert SlotFits(s, j); }
    }
  }

  lemma AppendHashed(s: State, slot: Slot)
    requires Hashed(s) && slot.tag !in s.hash && s.unused !in s.live
    ensures Hashed(Append(s, slot))
  {
  }

  lemma AppendCounted(s: State, slot: Slot)
    requires Counted(s) && s.unused !in s.live
    ensures Counted(Append(s, slot))
  {
    GrowKeys(s.live, s.unused, slot);
  }

  lemma AppendAnswered(s: State, slot: Slot, history: History)
    requires Answered(s, history) && slot.response.None?
    ensures Answered(Append(s, slot), history)
  {
  }

  lemma AppendKeepsCore(s: State, slot: Slot, history: History)
    requires Core(s, history) && Appendable(s, slot)
    ensures Core(Append(s, slot), history)
  {
    assert s.unused in s.live ==> SlotFits(s, s.unused);
    hide Placed, Hashed, Counted, Answered;
    AppendPlaced(s, slot);
    AppendHashed(s, slot);
    AppendCounted(s, slot);
    AppendAnswered(s, slot, history);
  }

  lemma AppendPending(s: State, slot: Slot, shard: nat)
    requires Ordered(s)
    ensures Pending(Append(s, slot), shard)
         == Pending(s, shard) + if slot.shard == shard then [RequestOf(slot)] else []
  {
    OwedAgree(s.live, Append(s, slot).live, s.receive, s.unused, shard);
  }

  lemma AppendFifoAt(s: State, slot: Slot, shard: nat)
    requires Ordered(s) && Appendable(s, slot) && FifoAt(s, shard)
    ensures FifoAt(Append(s, slot), shard)
  {
    AppendPending(s, slot, shard);
    hide Owed;
    assert Pending(s, shard) + [] == Pending(s, shard);
  }

  lemma AppendFlushedAt(s: State, slot: Slot, shard: nat)
    requires Ordered(s) && Appendable(s, slot)
    requires shard in s.conns ==> FlushedAt(s, shard)
    requires FifoAt(s, shard)
    requires shard in s.conns || shard == slot.shard
    ensures FlushedAt(Append(s, slot), shard)
  {
    var t := Append(s, slot);
    OwedAgree(s.live, t.live, s.receive, s.flush, shard);
    OwedAgree(s.live, t.live, s.receive, s.unused, shard);
    if shard !in s.conns {
      OwedSplit(s.live, s.receive, s.flush, s.unused, shard);
    }
  }

  lemma AppendKeeps(s: State, slot: Slot, history: History)
    requires Inv(s, history) && Appendable(s, slot)
    ensures Inv(Append(s, slot), history)
  {
    var t := Append(s, slot);
    AppendKeepsCore(s, slot, history);
    forall shard ensures FifoAt(t, shard) {
      assert FifoAt(s, shard);
      AppendFifoAt(s, slot, shard);
    }
    forall shard | shard in t.conns ensures FlushedAt(t, shard) {
      assert FifoAt(s, shard);
      AppendFlushedAt(s, slot, shard);
    }
  }

  // ---------- Flushing ----------

  ghost function FlushShard(s: State, shard: nat): State {
    if shard in s.conns then
      s.(conns := s.conns[shard := s.conns[shard].(flushed := |s.conns[shard].queue|)],
         dirty := s.dirty - {shard})
    else s.(dirty := s.dirty - {shard})
  }

  lemma FlushShardAt(s: State, shard: nat, other: nat)
    requires Ordered(s) && FifoAt(s, other)
    requires other in s.conns ==> FlushedAt(s, other)
    ensures FifoAt(FlushShard(s, shard), other)
    ensures other in s.conns ==> FlushedAt(FlushShard(s, shard), other)
  {
    hide Owed;
  }

  lemma FlushShardKeeps(s: State, shard: nat, history: History)
    requires Inv(s, history)
    ensures Inv(FlushShard(s, shard), history)
  {
    hide Core, Owed, FifoAt, FlushedAt;
    var t := FlushShard(s, shard);
    CoreOrdered(s, history);
    CoreFrame(s, t, history);
    forall other ensures FifoAt(t, other) { FlushShardAt(s, shard, other); }
    forall other | other in t.conns ensures FlushedAt(t, other) {
      FlushShardAt(s, shard, other);
    }
  }

  // ---------- Responses by tag ----------

  lemma {:induction false} ContentsHas(live: map<nat, Slot>, lo: nat, hi: nat, i: nat)
    requires lo <= i < hi && i in live
    ensures Bare(live[i]) in Contents(live, lo, hi)
    decreases hi
  {
    if i == hi - 1 {
      assert Bare(live[i]) in Cell(live, i);
    } else {
      ContentsHas(live, lo, hi - 1, i);
    }
  }

  lemma {:induction false} ContentsFrom(live: map<nat, Slot>, lo: nat, hi: nat, x: Slot) returns (i: nat)
    requires lo <= hi && x in Contents(live, lo, hi)
    ensures lo <= i < hi && i in live && Bare(live[i]) == x
    decreases hi
  {
    if x in Cell(live, hi - 1) {
      i := hi - 1;
    } else {
      i := ContentsFrom(live, lo, hi - 1, x);
    }
  }

  /** Same contents, same answer for every buffered tag: whatever compaction and disconnects did, a
      buffered response is found under its tag. */
  lemma FoundByTag(s: State, t: State, tag: Tag, history: History)
    requires Core(s, history) && Core(t, history)
    requires Contents(t.live, t.last, t.receive) == Contents(s.live, s.last, s.receive)
    requires tag in s.hash && s.hash[tag] < s.receive
    ensures tag in t.hash && t.hash[tag] < t.receive
    ensures s.hash[tag] in s.live && t.hash[tag] in t.live
    ensures Bare(t.live[t.hash[tag]]) == Bare(s.live[s.hash[tag]])
  {
    var i := s.hash[tag];
    assert SlotFits(s, i);
    ContentsHas(s.live, s.last, s.receive, i);
    var j := ContentsFrom(t.live, t.last, t.receive, Bare(s.live[i]));
    assert t.live[j].tag == tag;
  }

  /** Compaction and disconnects move responses; each is still found under its tag, and nothing else is. */
  lemma FoundSame(s: State, t: State, tag: Tag, history: History)
    requires Core(s, history) && Core(t, history)
    requires Contents(t.live, t.last, t.receive) == Contents(s.live, s.last, s.receive)
    ensures Found(t, tag) == Found(s, tag)
  {
    BufferedByPlace(s, tag, history);
    BufferedByPlace(t, tag, history);
    hide Core, Contents;
    if Found(s, tag).Some? {
      FoundByTag(s, t, tag, history);
    } else if Found(t, tag).Some? {
      FoundByTag(t, s, tag, history);
    }
  }

  lemma BufferedByPlace(s: State, tag: Tag, history: History)
    requires Core(s, history)
    ensures Found(s, tag).Some? <==> tag in s.hash && s.hash[tag] < s.receive
  {
    if tag in s.hash {
      assert SlotFits(s, s.hash[tag]);
    }
  }

  lemma ReleaseFound(s: State, i: nat, tag: Tag, history: History)
    requires Core(s, history) && i in s.live
    ensures Found(Release(s, i), tag) == if tag == s.live[i].tag then None else Found(s, tag)
  {
    assert s.hash[s.live[i].tag] == i;
  }

  // ---------- What a caller may rely on across network calls ----------

  /** No slot is added and only tags disappear; the responses that are discarded are those of `gone`. */
  ghost predicate LaterBut(s: State, t: State, gone: set<Tag>) {
    && t.size == s.size && t.known == Known(s.known.asked, s.known.routes, t.known.clock, t.known.heard)
    && Grows(s.known, t.known)
    && t.tail == s.tail
    && t.unused == s.unused && s.last <= t.last && t.hash.Keys <= s.hash.Keys
    && Kept(s, t, gone)
  }

  /** Every response that was buffered is found as before, except those of `gone`. */
  ghost predicate Kept(s: State, t: State, gone: set<Tag>) {
    forall tag :: Found(s, tag).Some? && tag !in gone ==> Found(t, tag) == Found(s, tag)
  }

  /** What network activity may do: outstanding requests may be lost, buffered responses are not. */
  ghost predicate Later(s: State, t: State) {
    LaterBut(s, t, {})
  }

  ghost predicate SameRequest(a: Slot, b: Slot) {
    a.tag == b.tag && a.shard == b.shard && a.lsns == b.lsns && a.reqid == b.reqid
  }

  /** Nothing happened to the ring except that responses were stored and requests flushed. */
  ghost predicate OnlyReceived(s: State, t: State) {
    && Later(s, t)
    && t.hash == s.hash && t.last == s.last && s.receive <= t.receive
    && t.live.Keys == s.live.Keys
    && forall i :: i in s.live ==> SameRequest(s.live[i], t.live[i])
  }

  lemma BufferedKept(s: State, t: State, history: History)
    requires Core(s, history) && Core(t, history) && s.last <= s.receive && KeptBuffered(s, t)
    ensures Later(s, t)
  {
    hide Core, Contents, Found;
    forall tag ensures Found(t, tag) == Found(s, tag) {
      FoundSame(s, t, tag, history);
    }
  }

  lemma OnlyReceivedTrans(s: State, t: State, u: State)
    requires OnlyReceived(s, t) && OnlyReceived(t, u)
    ensures OnlyReceived(s, u)
  {
  }

  lemma ReceiveOnlyReceives(s: State, resp: Response, clock: Lsn)
    requires HeadReady(s) && s.live[s.receive].status == Requested && s.known.clock <= clock
    ensures OnlyReceived(s, ReceiveStep(s, resp, clock))
  {
  }

  /** Connections without outstanding prefetch requests may be dropped. */
  lemma DropConnsKeeps(s: State, drops: set<nat>, history: History)
    requires Inv(s, history) && s.receive == s.unused
    ensures Inv(s.(conns := s.conns - drops), history)
  {
    var t := s.(conns := s.conns - drops);
    CoreFrame(s, t, history);
    hide Placed, Hashed, Counted, Answered;
    forall shard ensures FifoAt(t, shard) { assert FifoAt(s, shard); }
    forall shard | shard in t.conns ensures FlushedAt(t, shard) { assert FlushedAt(s, shard); }
  }

  /** The ring proper does not depend on the connections or the dirty marks. */
  lemma CoreFrame(s: State, t: State, history: History)
    requires Core(s, history)
    requires t.maxShard <= MAX_SHARDS && Grows(s.known, t.known)
    requires t == s.(conns := t.conns, dirty := t.dirty, maxShard := t.maxShard, known := t.known,
                     tail := t.tail)
    ensures Core(t, history)
  {
    forall i | i in t.live ensures SlotFits(t, i) { assert SlotFits(s, i); }
  }

  lemma InvOrdered(s: State, history: History)
    requires Inv(s, history)
    ensures Ordered(s)
  {
  }

  lemma SlotOutstanding(s: State, i: nat, history: History)
    requires Inv(s, history) && s.receive <= i < s.unused
    ensures i in s.live
    ensures s.live[i].status == Requested && s.live[i].response == None && s.live[i].myIndex == i
  {
    assert SlotFits(s, i);
  }

  /** A ring nobody has used yet. */
  /** A new ring. */
  function Start(size: nat): State {
    State(size, map[], map[], 0, 0, 0, 0, 0, 0, {}, 0, map[], Idle, Known({}, {}, 0, {}))
  }

  lemma StartInv(size: nat, history: History)
    requires 0 < size
    ensures Inv(Start(size), history)
  {
    assert Start(size).live.Keys == {};
  }

  lemma InvCore(s: State, history: History)
    requires Inv(s, history)
    ensures Core(s, history)
  {
  }

  lemma InvTight(s: State, history: History)
    requires Inv(s, history)
    ensures Tight(s)
  {
  }

  /** The oldest slot of a non-empty ring is in use. */
  lemma OldestUsed(s: State, history: History)
    requires Inv(s, history) && s.last < s.unused
    ensures s.last in s.live
  {
  }

  lemma HashFinds(s: State, tag: Tag, history: History)
    requires Inv(s, history) && tag in s.hash
    ensures s.hash[tag] in s.live && s.live[s.hash[tag]].tag == tag
    ensures s.last <= s.hash[tag] < s.unused <= s.last + s.size
  {
    assert SlotFits(s, s.hash[tag]);
  }

  /** A buffered slot holds the answer to its own request. */
  lemma BufferedAnswer(s: State, i: nat, history: History)
    requires Inv(s, history) && i in s.live && i < s.receive
    ensures s.live[i].status == Received && s.live[i].response.Some?
    ensures Answers(history, RequestOf(s.live[i]), s.live[i].response.value)
    ensures Reached(s.live[i].response.value, s.known.clock) && s.live[i].response.value in s.known.heard
    ensures (s.live[i].tag, s.live[i].lsns) in s.known.asked && WellFormed(s.live[i].lsns)
    ensures s.last <= i < s.last + s.size
  {
    assert SlotFits(s, i);
  }

  lemma FoundAt(s: State, i: nat, history: History)
    requires Inv(s, history) && i in s.live && i < s.receive
    ensures Found(s, s.live[i].tag) == Some(Bare(s.live[i]))
  {
    assert SlotFits(s, i);
  }

  lemma SlotAsked(s: State, i: nat, history: History)
    requires Inv(s, history) && i in s.live
    ensures (s.live[i].tag, s.live[i].lsns) in s.known.asked
  {
    assert SlotFits(s, i);
  }

  lemma SlotBuffered(s: State, i: nat, history: History)
    requires Inv(s, history) && i in s.live && s.live[i].status != Requested
    ensures i < s.receive
  {
    assert SlotFits(s, i);
  }

  lemma SlotInside(s: State, i: nat, history: History)
    requires Inv(s, history) && i in s.live
    ensures s.last <= i < s.unused
  {
    assert SlotFits(s, i);
  }

  lemma ShardLimit(s: State, history: History)
    requires Inv(s, history)
    ensures s.maxShard <= MAX_SHARDS
  {
  }

  /** Once no shard is dirty, every request in the ring has left the output buffer. */
  lemma AllFlushed(s: State, history: History)
    requires Inv(s, history)
    requires forall shard :: shard in s.dirty ==> shard >= s.maxShard
    ensures Inv(s.(flush := s.unused, maxShard := 0), history)
  {
    var t := s.(flush := s.unused, maxShard := 0);
    forall i | i in t.live ensures SlotFits(t, i) { assert SlotFits(s, i); }
    forall shard ensures FifoAt(t, shard) { assert FifoAt(s, shard); }
    forall shard | shard in t.conns ensures FlushedAt(t, shard) {
      assert FlushedAt(s, shard) && FifoAt(s, shard);
    }
  }

  // ---------- Composite steps that keep the invariant ----------

  lemma RearrangedKeepsInv(s: State, t: State, history: History)
    requires Ordered(s) && Fifo(s) && Core(t, history) && Tight(t) && Rearranged(s, t)
    ensures Inv(t, history)
  {
    hide Contents;
    CoreOrdered(t, history);
    FifoFrame(s, t);
  }

  lemma ReleaseKeepsFifo(s: State, i: nat, history: History)
    requires Inv(s, history) && i in s.live && i < s.receive
    ensures Fifo(Release(s, i))
  {
    FifoFrame(s, Release(s, i));
  }

  lemma FreedFound(s: State, i: nat, tag: Tag, history: History)
    requires Inv(s, history) && i in s.live && i < s.receive
    ensures s.last <= s.receive
    ensures Found(Freed(s, i), tag) == if tag == s.live[i].tag then None else Found(s, tag)
  {
    hide Core, Contents, Fifo, Freed, Found;
    SlotInside(s, i, history);
    CoreOrdered(s, history);
    ReleaseKeepsCore(s, i, history);
    CoreOrdered(Release(s, i), history);
    FreedKeeps(s, i, history);
    ReleaseFound(s, i, tag, history);
    FoundSame(Release(s, i), Freed(s, i), tag, history);
  }

  lemma FreedShape(s: State, i: nat, history: History)
    requires Inv(s, history) && i in s.live && i < s.receive
    ensures s.last <= s.receive && Inv(Freed(s, i), history)
    ensures Freed(s, i).hash.Keys == s.hash.Keys - {s.live[i].tag} && s.last <= Freed(s, i).last
    ensures i == s.last ==> Freed(s, i).last > s.last
  {
    hide Core, Contents, Fifo, Compacted;
    SlotInside(s, i, history);
    ReleaseKeepsCore(s, i, history);
    ReleaseKeepsFifo(s, i, history);
    CoreOrdered(Release(s, i), history);
    FreedKeeps(s, i, history);
    RearrangedKeepsInv(Release(s, i), Freed(s, i), history);
  }

  /** Discarding a buffered response takes away that response and no other. */
  lemma FreedInv(s: State, i: nat, history: History)
    requires Inv(s, history) && i in s.live && i < s.receive
    ensures Inv(Freed(s, i), history) && LaterBut(s, Freed(s, i), {s.live[i].tag})
    ensures s.live[i].tag !in Freed(s, i).hash
    ensures i == s.last ==> Freed(s, i).last > s.last
    ensures forall tag :: Found(Freed(s, i), tag) == if tag == s.live[i].tag then None else Found(s, tag)
  {
    hide Inv, Found, Freed;
    FreedShape(s, i, history);
    forall tag ensures Found(Freed(s, i), tag) == if tag == s.live[i].tag then None else Found(s, tag) {
      FreedFound(s, i, tag, history);
    }
  }

  lemma CompactedInv(s: State, history: History)
    requires Inv(s, history)
    ensures Inv(Compacted(s), history) && Later(s, Compacted(s))
    ensures NeedsCompaction(s) ==> Compacted(s).last > s.last
  {
    hide Core, Contents, Fifo, Compacted, Found;
    CoreOrdered(s, history);
    CompactedKeeps(s, history);
    BufferedNonNegative(s, history);
    RearrangedKeepsInv(s, Compacted(s), history);
    forall tag ensures Found(Compacted(s), tag) == Found(s, tag) {
      FoundSame(s, Compacted(s), tag, history);
    }
  }
}
