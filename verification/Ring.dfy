/** The prefetch ring as a value, its invariant, and what each elementary step keeps. */
module Ring {
  import opened Options
  import opened PageTypes

  const MAX_SHARDS := 128

  datatype Status = Unused | Requested | Received | TagRemains

  datatype Slot = Slot(status: Status, tag: Tag, shard: nat, lsns: Lsns, reqid: nat,
                       response: Option<Response>, myIndex: nat)

  /** A live connection: requests sent and not yet answered, oldest first, and how many of them have left
      the output buffer. */
  datatype Conn = Conn(queue: seq<Request>, flushed: nat)

  /** The synchronous request in flight, on which shard, and whether it has left the output buffer. */
  datatype Tail = Idle | Busy(shard: nat, req: Request, flushed: bool)

  /** `live` maps ring indices to slots that are not unused. A shard is connected when it is in `conns`.
      `tail` is the synchronous request in flight, if any. `known` is what the backend has
      learnt so far. */
  datatype State = State(
    size: nat,
    live: map<nat, Slot>,
    hash: map<Tag, nat>,
    last: nat, receive: nat, flush: nat, unused: nat,
    buffered: int, inflight: int,
    dirty: set<nat>, maxShard: nat,
    conns: map<nat, Conn>,
    tail: Tail,
    known: Known)

  // ---------- Views of the ring ----------

  /** The slots of a physical buffer that are in use, by ring index. */
  function LiveOf(slots: seq<Slot>, last: nat): map<nat, Slot> {
    map i: nat | last <= i < last + |slots| && slots[i % |slots|].status != Unused :: slots[i % |slots|]
  }

  function Bare(slot: Slot): Slot {
    slot.(myIndex := 0)
  }

  /** The used slots of [lo, hi), oldest first, without their positions. */
  function Contents(live: map<nat, Slot>, lo: nat, hi: nat): seq<Slot>
    requires lo <= hi
    decreases hi
  {
    if lo == hi then [] else Contents(live, lo, hi - 1) + Cell(live, hi - 1)
  }

  function Cell(live: map<nat, Slot>, i: nat): seq<Slot> {
    if i in live then [Bare(live[i])] else []
  }

  /** The response buffered for a block, without its position. */
  function Found(s: State, tag: Tag): Option<Slot> {
    if tag in s.hash && s.hash[tag] in s.live && s.live[s.hash[tag]].status == Received
    then Some(Bare(s.live[s.hash[tag]])) else None
  }

  function RequestOf(slot: Slot): Request {
    GetPage(slot.tag, slot.reqid, slot.lsns.request, slot.lsns.notModifiedSince)
  }

  /** The requests that the slots of [lo, hi) have outstanding at one shard, oldest first. */
  function Owed(live: map<nat, Slot>, lo: nat, hi: nat, shard: nat): seq<Request>
    requires lo <= hi
    decreases hi
  {
    if lo == hi then [] else Owed(live, lo, hi - 1, shard) + OwedFor(live, hi - 1, shard)
  }

  function OwedFor(live: map<nat, Slot>, i: nat, shard: nat): seq<Request> {
    if i in live && live[i].shard == shard then [RequestOf(live[i])] else []
  }

  function Pending(s: State, shard: nat): seq<Request>
    requires s.receive <= s.unused
  {
    Owed(s.live, s.receive, s.unused, shard)
  }

  function TailAt(s: State, shard: nat): seq<Request> {
    if s.tail.Busy? && shard == s.tail.shard then [s.tail.req] else []
  }

  // ---------- The invariant ----------

  ghost predicate Ordered(s: State) {
    && 0 < s.size && s.maxShard <= MAX_SHARDS
    && s.last <= s.receive <= s.flush <= s.unused <= s.last + s.size
  }

  ghost predicate SlotFits(s: State, i: nat)
    requires i in s.live
  {
    var slot := s.live[i];
    && s.last <= i < s.unused
    && slot.myIndex == i
    && slot.shard < MAX_SHARDS
    && WellFormed(slot.lsns)
    && (slot.tag, slot.lsns) in s.known.asked && (slot.tag, slot.shard) in s.known.routes
    && (if i < s.receive then slot.status == Received && slot.response.Some?
        else slot.status == Requested && slot.response.None?)
  }

  ghost predicate Placed(s: State) {
    && (forall i :: i in s.live ==> SlotFits(s, i))
    && (forall i :: s.receive <= i < s.unused ==> i in s.live)
  }

  ghost predicate Hashed(s: State) {
    && (forall i :: i in s.live ==> s.live[i].tag in s.hash && s.hash[s.live[i].tag] == i)
    && (forall t :: t in s.hash ==> s.hash[t] in s.live && s.live[s.hash[t]].tag == t)
  }

  ghost predicate Counted(s: State) {
    && s.inflight == s.unused - s.receive
    && s.buffered + s.inflight == |s.live.Keys|
  }

  ghost predicate Answered(s: State, history: History) {
    forall i :: i in s.live && s.live[i].response.Some? ==>
      && Answers(history, RequestOf(s.live[i]), s.live[i].response.value)
      && Reached(s.live[i].response.value, s.known.clock)
      && s.live[i].response.value in s.known.heard
  }

  /** Everything about the ring itself except where `last` stands. */
  ghost predicate Core(s: State, history: History) {
    Ordered(s) && Placed(s) && Hashed(s) && Counted(s) && Answered(s, history)
  }

  /** `last` is not a gap unless nothing is buffered. */
  ghost predicate Tight(s: State) {
    s.last < s.receive ==> s.last in s.live
  }

  /** The connection of a shard holds exactly the requests the ring waits for, in ring order, followed by
      the synchronous request. */
  ghost predicate FifoAt(s: State, shard: nat)
    requires s.receive <= s.unused
  {
    if shard in s.conns then s.conns[shard].queue == Pending(s, shard) + TailAt(s, shard)
    else Pending(s, shard) == []
  }

  /** A shard whose output buffer holds prefetch requests is marked dirty. */
  ghost predicate DirtyAt(s: State, shard: nat)
    requires s.receive <= s.unused
    requires shard in s.conns
  {
    var c := s.conns[shard];
    && c.flushed <= |c.queue|
    && (c.flushed < |Pending(s, shard)| ==> shard in s.dirty && shard < s.maxShard)
    && (s.tail.Busy? && shard == s.tail.shard && s.tail.flushed ==> c.flushed == |c.queue|)
  }

  /** Requests older than `flush` have left the output buffer. */
  ghost predicate FlushedAt(s: State, shard: nat)
    requires s.receive <= s.flush <= s.unused
    requires shard in s.conns
  {
    && |Owed(s.live, s.receive, s.flush, shard)| <= s.conns[shard].flushed
    && DirtyAt(s, shard)
  }

  ghost predicate Fifo(s: State)
    requires Ordered(s)
  {
    && (forall shard :: FifoAt(s, shard))
    && (forall shard :: shard in s.conns ==> FlushedAt(s, shard))
  }

  ghost predicate Inv(s: State, history: History) {
    Core(s, history) && Tight(s) && Fifo(s)
  }
}
