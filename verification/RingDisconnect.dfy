/** When does losing the connections move a buffered response to another ring index? */
module RingDisconnect {
  import opened Options
  import opened PageTypes
  import opened Ring
  import opened RingSteps

  ghost function Gaps(s: State): int {
    s.receive - s.last - s.buffered
  }

  /** Few enough requests are outstanding for the hook never to compact. */
  ghost predicate StaysPut(s: State) {
    s.buffered == 0 || s.inflight == 0 || Gaps(s) + s.inflight <= s.buffered / 8
  }

  ghost predicate Droppable(s: State, history: History) {
    Core(s, history) && Tight(s) && LooseFifo(s) && s.flush == s.unused
  }

  ghost function Dropped(s: State): State
    requires s.receive in s.live && s.last <= s.receive
  {
    Freed(MarkDropped(s), s.receive)
  }

  lemma DroppedFacts(s: State, history: History)
    requires s.receive <= s.unused && Droppable(s, history) && s.receive < s.unused
    ensures s.receive in s.live && s.last <= s.receive && Droppable(Dropped(s), history)
    ensures DroppedOne(s, Dropped(s)) && s.inflight == s.unused - s.receive
    ensures 0 <= s.buffered <= s.receive - s.last
    ensures DropAll(s) == DropAll(Dropped(s))
  {
    CoreOrdered(s, history);
    BufferedNonNegative(s, history);
    DropStep(s, history);
  }

  /** A drop that does not trigger compaction only removes the dropped slot. */
  lemma QuietDrop(s: State)
    requires s.receive in s.live && s.last < s.receive && Gaps(s) + 1 <= s.buffered / 8
    ensures Dropped(s).live == s.live - {s.receive} && Dropped(s).last == s.last
  {
  }

  lemma {:induction false} NothingMoves(s: State, history: History)
    requires s.receive <= s.unused && Droppable(s, history)
    requires 0 < s.buffered && Gaps(s) + s.inflight <= s.buffered / 8
    ensures s.last <= s.receive
    ensures forall i :: i in DropAll(s).live ==> i in s.live && DropAll(s).live[i] == s.live[i]
    decreases s.unused - s.receive
  {
    hide Core, Tight, LooseFifo, Contents, Freed;
    CoreOrdered(s, history);
    if s.receive < s.unused {
      DroppedFacts(s, history);
      QuietDrop(s);
      NothingMoves(Dropped(s), history);
    }
  }

  lemma {:induction false} NewestStays(s: State, i: nat, history: History) returns (j: nat)
    requires s.receive <= s.unused && Droppable(s, history)
    requires i in s.live && i < s.receive
    ensures s.last <= s.receive && j in DropAll(s).live && i <= j < s.unused
    decreases s.unused - s.receive
  {
    hide Core, Tight, LooseFifo, Contents, Freed;
    CoreOrdered(s, history);
    j := i;
    if s.receive < s.unused {
      DroppedFacts(s, history);
      var k := HighStays(s, i, history);
      j := NewestStays(Dropped(s), k, history);
    }
  }

  /** After one drop some response is at least as high as any was before. */
  lemma HighStays(s: State, i: nat, history: History) returns (k: nat)
    requires s.receive < s.unused && Droppable(s, history) && s.receive in s.live && s.last <= s.receive
    requires i in s.live && i < s.receive
    ensures k in Dropped(s).live && i <= k <= s.receive
    ensures Gaps(s) + 1 > s.buffered / 8 ==> k == s.receive
  {
    hide Core, LooseFifo, Contents, Compacted;
    BufferedSome(s, i, history);
    var r := Release(MarkDropped(s), s.receive);
    k := i;
    if NeedsCompaction(r) {
      DropKeepsCore(s, history);
      CompactedKeeps(r, history);
      GapCount(Compacted(r), history);
      k := s.receive;
    }
  }

  lemma BufferedSome(s: State, i: nat, history: History)
    requires Core(s, history) && i in s.live && i < s.receive
    ensures s.buffered > 0 && s.last <= i
  {
    assert SlotFits(s, i);
    var waiting := Range(s.receive, s.unused);
    SmallerSet(waiting + {i}, s.live.Keys);
  }

  /** Otherwise some response ends up where a request was waiting. */
  lemma {:induction false} SomethingLands(s: State, history: History) returns (j: nat)
    requires s.receive <= s.unused && Droppable(s, history) && !StaysPut(s)
    ensures s.last <= s.receive && j in DropAll(s).live && s.receive <= j < s.unused
    decreases s.unused - s.receive
  {
    hide Core, Tight, LooseFifo, Contents, Freed;
    CoreOrdered(s, history);
    InflightIs(s, history);
    DroppedFacts(s, history);
    if Gaps(s) + 1 <= s.buffered / 8 {
      QuietDrop(s);
      j := SomethingLands(Dropped(s), history);
    } else {
      OldestThere(s, history);
      var k := HighStays(s, s.last, history);
      j := NewestStays(Dropped(s), k, history);
    }
  }

  lemma InflightIs(s: State, history: History)
    requires Core(s, history)
    ensures s.inflight == s.unused - s.receive && 0 <= s.buffered <= s.receive - s.last
  {
    GapCount(s, history);
  }

  lemma OldestThere(s: State, history: History)
    requires Core(s, history) && Tight(s) && s.buffered > 0
    ensures s.last in s.live && s.last < s.receive
  {
    GapCount(s, history);
  }

  /** A response found at an index that used to wait for another block. */
  lemma LandedElsewhere(s: State, t: State, j: nat, history: History)
    requires Core(s, history) && Core(t, history)
    requires Contents(t.live, t.last, t.receive) == Contents(s.live, s.last, s.receive)
    requires j in t.live && j < t.receive && s.receive <= j < s.unused
    ensures j in s.live && t.live[j].tag != s.live[j].tag
  {
    assert SlotFits(t, j);
    ContentsHas(t.live, t.last, t.receive, j);
    var k := ContentsFrom(s.live, s.last, s.receive, Bare(t.live[j]));
    assert s.hash[s.live[k].tag] == k && s.hash[s.live[j].tag] == j;
  }

  lemma NothingBuffered(s: State, history: History)
    requires Core(s, history) && s.receive == s.unused && s.buffered == 0
    ensures s.live == map[]
  {
    assert s.live.Keys == {};
  }

  ghost predicate SameTags(s: State, t: State) {
    forall i :: i in s.live && i in t.live ==> t.live[i].tag == s.live[i].tag
  }

  lemma StaysPutKeepsTags(s: State, history: History)
    requires s.receive <= s.unused && Droppable(s, history) && StaysPut(s)
    ensures s.last <= s.receive && SameTags(s, DropAll(s))
  {
    hide Core, Tight, LooseFifo, Contents, Freed;
    CoreOrdered(s, history);
    InflightIs(s, history);
    if s.inflight == 0 {
    } else if s.buffered == 0 {
      DropAllKeeps(s, history);
      NothingBuffered(DropAll(s), history);
    } else {
      NothingMoves(s, history);
    }
  }

  lemma FlushedFirst(s: State, history: History)
    requires Inv(s, history)
    ensures s.last <= s.receive <= s.unused
    ensures Droppable(s.(flush := s.unused), history)
  {
    FifoIsLoose(s);
    FlushKeepsCore(s, history);
    LooseFrame(s, s.(flush := s.unused));
  }

  /** A caller that remembers a ring index across a disconnect may find another block's response there.
      That cannot happen exactly when nothing is buffered, nothing is outstanding, or the requests to be
      dropped leave no more than an eighth as many gaps as there are responses. */
  lemma DisconnectKeepsTags(s: State, history: History)
    requires Inv(s, history)
    ensures s.last <= s.receive && (SameTags(s, Disconnected(s)) <==> StaysPut(s))
  {
    hide Core, Tight, LooseFifo, Fifo, Contents, DropAll;
    FlushedFirst(s, history);
    var f := s.(flush := s.unused);
    if StaysPut(s) {
      StaysPutKeepsTags(f, history);
    } else {
      var j := SomethingLands(f, history);
      DropAllKeeps(f, history);
      LandedElsewhere(f, DropAll(f), j, history);
    }
  }

  /** Whenever the condition fails, the slot of some request that was being waited for holds, after the
      connections are lost, the response for another block. */
  lemma WaitFindsAnother(s: State, history: History) returns (j: nat, k: nat)
    requires Inv(s, history) && !StaysPut(s)
    ensures s.last <= s.receive <= j < s.unused && j in s.live && j in Disconnected(s).live
    ensures Disconnected(s).live[j].status == Received
    ensures k in s.live && k < s.receive && Disconnected(s).live[j].tag == s.live[k].tag != s.live[j].tag
  {
    hide Core, Tight, LooseFifo, Fifo, Contents, DropAll;
    FlushedFirst(s, history);
    var f := s.(flush := s.unused);
    j := SomethingLands(f, history);
    DropAllKeeps(f, history);
    LandedElsewhere(f, DropAll(f), j, history);
    k := LandedTag(f, DropAll(f), j, history);
  }

  lemma LandedTag(s: State, t: State, j: nat, history: History) returns (k: nat)
    requires Core(s, history) && Core(t, history)
    requires Contents(t.live, t.last, t.receive) == Contents(s.live, s.last, s.receive)
    requires j in t.live && j < t.receive
    ensures t.live[j].status == Received
    ensures k in s.live && k < s.receive && s.live[k].tag == t.live[j].tag
  {
    assert SlotFits(t, j);
    ContentsHas(t.live, t.last, t.receive, j);
    k := ContentsFrom(s.live, s.last, s.receive, Bare(t.live[j]));
  }

  // ---------- An index that changes hands ----------

  function ExampleTag(block: nat): Tag {
    Tag(0, 0, 0, 0, block)
  }

  /** The slot of a prefetch for block `i`, the `i`-th request of the backend counting from 1. */
  function ExampleSlot(i: nat): Slot {
    Slot(Requested, ExampleTag(i), 0, Lsns(0, 0, 0), i + 1, None, i)
  }

  ghost function FlushAll(s: State): State {
    FlushShard(s, 0).(maxShard := 0, flush := s.unused)
  }

  ghost function ExampleAnswer(history: History): Response {
    PageResponse(RequestOf(ExampleSlot(0)), 0, history(ExampleTag(0), 0))
  }

  /** From a new ring: block 0 is requested, flushed and received; then block 1 is requested and flushed. */
  ghost function Example(history: History): State {
    var sent := FlushAll(Append(Start(2), ExampleSlot(0)));
    if !Receivable(sent) then sent else
      FlushAll(Append(ReceiveStep(sent, ExampleAnswer(history), 0), ExampleSlot(1)))
  }

  lemma FlushAllKeeps(s: State, history: History)
    requires Inv(s, history) && s.dirty <= {0}
    ensures Inv(FlushAll(s), history)
  {
    hide Inv;
    FlushShardKeeps(s, 0, history);
    AllFlushed(FlushShard(s, 0), history);
  }

  lemma FirstInv(history: History)
    ensures Inv(FlushAll(Append(Start(2), ExampleSlot(0))), history)
  {
    hide Inv, Sent, FlushAll;
    StartInv(2, history);
    var t := Append(Start(2), ExampleSlot(0));
    AppendKeeps(Start(2), ExampleSlot(0), history);
    FlushAllKeeps(t, history);
  }

  lemma FirstShape()
    ensures var sent := FlushAll(Append(Start(2), ExampleSlot(0)));
      && sent.receive == 0 && sent.flush == 1 && sent.unused == 1 && sent.last == 0 && sent.size == 2
      && sent.live == map[0 := ExampleSlot(0)] && sent.hash == map[ExampleTag(0) := 0]
      && sent.tail == Idle && sent.dirty == {} && sent.known.clock == 0
      && sent.buffered == 0 && sent.inflight == 1 && HeadReady(sent) && Receivable(sent)
  {
    var t := Append(Start(2), ExampleSlot(0));
    assert t.conns[0] == Conn([] + [RequestOf(ExampleSlot(0))], 0);
    assert ({0} - {0}) == {};
  }

  /** Nothing but block 0 is in the ring, received. */
  ghost predicate OneReceived(s: State, answer: Response) {
    && s.size == 2 && s.last == 0 && s.receive == 1 && s.unused == 1 && s.buffered == 1 && s.inflight == 0
    && s.live == map[0 := ExampleSlot(0).(status := Received, response := Some(answer))]
    && s.hash == map[ExampleTag(0) := 0] && s.tail == Idle && s.dirty == {}
  }

  /** Block 0 is received and block 1 is waited for. */
  ghost predicate OneAwaited(s: State, answer: Response) {
    && s.last == 0 && s.receive == 1 && s.unused == 2 && s.buffered == 1 && s.inflight == 1 && s.tail == Idle
    && s.live == map[0 := ExampleSlot(0).(status := Received, response := Some(answer)), 1 := ExampleSlot(1)]
    && 0 in s.conns
  }

  lemma ExampleReceived(history: History)
    ensures var sent := FlushAll(Append(Start(2), ExampleSlot(0)));
      && Receivable(sent) && Inv(ReceiveStep(sent, ExampleAnswer(history), 0), history)
      && OneReceived(ReceiveStep(sent, ExampleAnswer(history), 0), ExampleAnswer(history))
  {
    hide Inv, Append, FlushAll;
    FirstInv(history);
    FirstShape();
    ReceiveKeeps(FlushAll(Append(Start(2), ExampleSlot(0))), ExampleAnswer(history), 0, history);
  }

  lemma SecondInv(got: State, answer: Response, history: History)
    requires Inv(got, history) && OneReceived(got, answer)
    ensures Inv(FlushAll(Append(got, ExampleSlot(1))), history)
  {
    hide Inv, Sent, FlushAll;
    AppendKeeps(got, ExampleSlot(1), history);
    FlushAllKeeps(Append(got, ExampleSlot(1)), history);
  }

  lemma SecondShape(got: State, answer: Response)
    requires OneReceived(got, answer)
    ensures OneAwaited(FlushAll(Append(got, ExampleSlot(1))), answer)
  {
  }

  /** The state is reached from a new ring by sending, flushing and receiving. */
  lemma ExampleShape(history: History)
    ensures Inv(Example(history), history) && OneAwaited(Example(history), ExampleAnswer(history))
  {
    hide Inv, Append, FlushAll, ReceiveStep, Receivable, OneReceived, OneAwaited;
    ExampleReceived(history);
    var got := ReceiveStep(FlushAll(Append(Start(2), ExampleSlot(0))), ExampleAnswer(history), 0);
    SecondInv(got, ExampleAnswer(history), history);
    SecondShape(got, ExampleAnswer(history));
  }

  /** Example: the backend waits for block 1 at index 1; the connection is lost; the slot at index 1 then
      holds a response, as the wait checks, but it is the response for block 0. */
  lemma WaitFindsWrongBlock(history: History)
    ensures var s := Example(history);
      && Inv(s, history) && s.last <= s.receive
      && 1 in Disconnected(s).live && Disconnected(s).live[1].status == Received
      && Disconnected(s).live[1].tag == ExampleTag(0) && 1 in s.live && s.live[1].tag == ExampleTag(1)
  {
    hide Inv, Disconnected, Example;
    var s := Example(history);
    ExampleShape(history);
    var j, k := WaitFindsAnother(s, history);
    assert j == 1 && k == 0;
  }

  lemma StatusByPlace(s: State, history: History)
    requires Inv(s, history)
    ensures forall i :: i in s.live ==> s.live[i].status == if i < s.receive then Received else Requested
    ensures forall i: nat :: s.receive <= i && i in s.live <==> s.receive <= i < s.unused
    ensures s.receive <= s.unused
    ensures s.inflight == s.unused - s.receive && s.buffered + s.inflight == |s.live.Keys|
  {
    forall i | i in s.live
      ensures i < s.unused && s.live[i].status == if i < s.receive then Received else Requested
    {
      assert SlotFits(s, i);
    }
  }

  /** The counters are the true counts. */
  lemma CountsExact(s: State, history: History)
    requires Inv(s, history)
    ensures s.buffered == |set i | i in s.live && s.live[i].status == Received|
    ensures s.inflight == |set i | i in s.live && s.live[i].status == Requested|
  {
    hide Inv, Range;
    StatusByPlace(s, history);
    var got := set i | i in s.live && s.live[i].status == Received;
    var waiting := set i | i in s.live && s.live[i].status == Requested;
    assert waiting == Range(s.receive, s.unused);
    assert s.live.Keys == got + waiting;
  }
}
