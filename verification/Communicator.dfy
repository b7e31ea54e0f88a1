/** The per-backend communicator: prefetch ring, pipelined connections and page reads. */
module Comm {
  import opened Options
  import opened PageTypes
  import opened Ring
  import opened RingSteps
  import opened RingBuffer
  import opened RingResize
  import opened RingSync
  import Bitmap

  const BLANK := Slot(Unused, Tag(0, 0, 0, 0, 0), 0, Lsns(0, 0, 0), 0, None, 0)

  datatype Reply = Good | NoData | Broken

  /** What the environment does at the next point where the backend touches a connection: the query may
      be cancelled there; connections may turn out to be lost; the call itself may succeed or fail. WAL has
      been written up to `now`, and a server that answers reads the page at `at` or as near to it as it may. */
  datatype Event =
    | Cancel
    | Event(drops: set<nat>, reply: Reply, now: Lsn, at: Lsn, isError: bool, interrupt: bool)

  datatype Outcome = Done | Lost | Cancelled

  /** What a page read gives: the page, the pageserver's error, or a report that the connection state is
      broken. */
  datatype ReadResult = PageRead(page: Page) | ReadFailed | BrokenState | ReadCancelled | Skipped

  /** How many blocks one registration takes. */
  function Capped(nblocks: nat, size: nat): nat {
    var n := if nblocks < size then nblocks else size;
    if n < 1 then 1 else n
  }

  const UINT64_MAX := 0xffff_ffff_ffff_ffff

  function Decrement(i: nat): nat {
    if i == 0 then UINT64_MAX else i - 1
  }

  /** Exactly the unmasked blocks among the first `n` have a registered request, for a read a usable one. */
  ghost predicate Covers(asked: set<(Tag, Lsns)>, base: Tag, lsns: seq<Lsns>, n: nat, mask: set<nat>,
                         isPrefetch: bool, got: map<nat, Lsns>)
    requires n <= |lsns|
  {
    && (forall i: nat :: i in got <==> i < n && i !in mask)
    && (forall i: nat :: i in got ==>
          i < n && (base.(block := base.block + i), got[i]) in asked && (isPrefetch || Usable(lsns[i], got[i])))
  }

  /** A block of a run and the slot it was registered in. */
  datatype Place = Place(block: nat, index: nat)

  /** The last unmasked block among the first `n`. */
  ghost predicate Latest(top: Option<Place>, n: nat, mask: set<nat>) {
    if top.None? then forall i: nat :: i < n ==> i in mask
    else top.value.block < n && top.value.block !in mask && forall i: nat :: top.value.block < i < n ==> i in mask
  }

  lemma CoversNone(asked: set<(Tag, Lsns)>, base: Tag, lsns: seq<Lsns>, mask: set<nat>, isPrefetch: bool)
    ensures Covers(asked, base, lsns, 0, mask, isPrefetch, map[])
  {
  }

  lemma CoversCapped(asked: set<(Tag, Lsns)>, base: Tag, lsns: seq<Lsns>, nblocks: nat, size: nat, mask: set<nat>,
                     isPrefetch: bool, got: map<nat, Lsns>)
    requires lsns != [] && nblocks <= |lsns| && 0 < size
    requires Covers(asked, base, lsns, Capped(nblocks, size), mask, isPrefetch, got)
    ensures forall i: nat :: i < nblocks && i < size && i !in mask ==> i in got
    ensures forall i: nat :: i in got ==> i < size && (i < nblocks || i == 0)
  {
  }

  lemma CoversMasked(asked: set<(Tag, Lsns)>, base: Tag, lsns: seq<Lsns>, n: nat, mask: set<nat>,
                     isPrefetch: bool, got: map<nat, Lsns>)
    requires n < |lsns| && n in mask && Covers(asked, base, lsns, n, mask, isPrefetch, got)
    ensures Covers(asked, base, lsns, n + 1, mask, isPrefetch, got)
  {
  }

  lemma CoversMore(asked: set<(Tag, Lsns)>, more: set<(Tag, Lsns)>, base: Tag, lsns: seq<Lsns>, n: nat,
                   mask: set<nat>, isPrefetch: bool, got: map<nat, Lsns>, p: Lsns)
    requires n < |lsns| && asked <= more && Covers(asked, base, lsns, n, mask, isPrefetch, got)
    requires n !in mask && (base.(block := base.block + n), p) in more && (isPrefetch || Usable(lsns[n], p))
    ensures Covers(more, base, lsns, n + 1, mask, isPrefetch, got[n := p])
  {
  }

  /** The unmasked blocks of a run, each with its own LSNs or shard. */
  ghost function ForBlocks<T>(base: Tag, xs: seq<T>, mask: set<nat>): (r: set<(Tag, T)>)
    ensures |xs| == 1 && mask == {} ==> r == {(base, xs[0])}
    ensures forall i :: 0 <= i < |xs| && i !in mask ==> (base.(block := base.block + i), xs[i]) in r
  {
    set i: nat | i < |xs| && i !in mask :: (base.(block := base.block + i), xs[i])
  }

  /** The same shard `n` times. */
  ghost function Same(shard: nat, n: nat): (r: seq<nat>)
    ensures |r| == n && forall i :: 0 <= i < n ==> r[i] == shard
  {
    seq(n, _ => shard)
  }

  /** The shards that a read of a run may turn to: that of the first block for as many as a ring of `size` slots
      can take, since these are first registered together, and for each its own. */
  ghost function Routes(base: Tag, shards: seq<nat>, mask: set<nat>, size: nat): set<(Tag, nat)>
    requires shards != []
  {
    ForBlocks(base, Same(shards[0], if |shards| < size then |shards| else size), mask) + ForBlocks(base, shards, mask)
  }

  /** A server sent the page, in answer to a request with these LSNs. */
  ghost predicate Served(heard: set<Response>, tag: Tag, used: Lsns, at: Lsn, page: Page) {
    exists id: nat :: PageResponse(GetPage(tag, id, used.request, used.notModifiedSince), at, page) in heard
  }

  /** `page` is the image of the block that a request usable for `lsns` was answered with. */
  ghost predicate Delivered(history: History, known: Known, tag: Tag, lsns: Lsns, used: Lsns,
                            at: Lsn, page: Page)
  {
    && (tag, used) in known.asked
    && WellFormed(used)
    && Usable(lsns, used)
    && used.notModifiedSince <= at <= used.request && at <= known.clock
    && page == history(tag, at) && Served(known.heard, tag, used, at, page)
  }

  /** Every page among the results of a read is delivered. */
  ghost predicate AllDelivered(history: History, known: Known, base: Tag, lsns: seq<Lsns>,
                               r: seq<ReadResult>, used: seq<Lsns>, at: seq<Lsn>)
    requires |r| == |used| == |at| <= |lsns|
  {
    forall i :: 0 <= i < |r| && r[i].PageRead? ==>
      Delivered(history, known, base.(block := base.block + i), lsns[i], used[i], at[i], r[i].page)
  }

  lemma DeliveredMore(history: History, known: Known, more: Known, base: Tag, lsns: seq<Lsns>,
                      r: seq<ReadResult>, used: seq<Lsns>, at: seq<Lsn>, x: ReadResult, u: Lsns, a: Lsn)
    requires |r| == |used| == |at| < |lsns| && Grows(known, more)
    requires AllDelivered(history, known, base, lsns, r, used, at)
    requires x.PageRead? ==> Delivered(history, more, base.(block := base.block + |r|), lsns[|r|], u, a, x.page)
    ensures AllDelivered(history, more, base, lsns, r + [x], used + [u], at + [a])
  {
    forall i | 0 <= i < |r| + 1 && (r + [x])[i].PageRead?
      ensures Delivered(history, more, base.(block := base.block + i), lsns[i], (used + [u])[i], (at + [a])[i],
                        (r + [x])[i].page)
    {
      if i < |r| {
        assert Delivered(history, known, base.(block := base.block + i), lsns[i], used[i], at[i], r[i].page);
      }
    }
  }

  lemma NoneDelivered(history: History, known: Known, base: Tag, lsns: seq<Lsns>)
    ensures AllDelivered(history, known, base, lsns, [], [], [])
  {
  }

  /** A buffered page that may be used for the request. */
  ghost predicate Hit(found: Option<Slot>, lsns: Lsns) {
    && found.Some? && Usable(lsns, found.value.lsns)
    && found.value.response.Some? && found.value.response.value.PageResponse?
  }

  /** A request that would have done was answered with an error. */
  ghost predicate ServerError(found: Option<Slot>, lsns: Lsns) {
    && found.Some? && Usable(lsns, found.value.lsns)
    && found.value.response.Some? && found.value.response.value.ErrorResponse?
  }

  ghost predicate AllRead(r: seq<ReadResult>, n: nat) {
    |r| == n && forall i :: 0 <= i < |r| ==> r[i].PageRead? || r[i] == Skipped
  }

  /** The last block read was answered with an error, which stays buffered. */
  ghost predicate Refused(s: State, base: Tag, lsns: seq<Lsns>, r: seq<ReadResult>)
    requires |r| <= |lsns|
  {
    r != [] && r[|r| - 1] == ReadFailed && ServerError(Found(s, base.(block := base.block + |r| - 1)), lsns[|r| - 1])
  }

  /** The page was read exactly when a usable one was buffered, and is that one. */
  ghost predicate LookedUp(s: State, tag: Tag, lsns: Lsns, r: ReadResult) {
    && (r.PageRead? <==> Hit(Found(s, tag), lsns))
    && (r.PageRead? ==> r.page == Found(s, tag).value.response.value.page)
  }

  ghost predicate Taken(base: Tag, r: seq<ReadResult>, t: Tag) {
    exists i :: 0 <= i < |r| && r[i].PageRead? && t == base.(block := base.block + i)
  }

  lemma TakenMore(base: Tag, r: seq<ReadResult>, x: ReadResult)
    ensures var next := base.(block := base.block + |r|);
      && !Taken(base, r, next)
      && forall t :: Taken(base, r + [x], t) <==> Taken(base, r, t) || (x.PageRead? && t == next)
  {
    var more, next := r + [x], base.(block := base.block + |r|);
    forall t ensures Taken(base, more, t) <==> Taken(base, r, t) || (x.PageRead? && t == next) {
      if Taken(base, r, t) {
        var i :| 0 <= i < |r| && r[i].PageRead? && t == base.(block := base.block + i);
        assert more[i].PageRead?;
      }
      if x.PageRead? && t == next {
        assert more[|r|].PageRead?;
      }
    }
  }

  /** The ring already holds a request or response for the block that is good enough. */
  ghost predicate Reusable(s: State, tag: Tag, lsns: Lsns, isPrefetch: bool) {
    tag in s.hash && s.hash[tag] in s.live && (isPrefetch || Usable(lsns, s.live[s.hash[tag]].lsns))
  }

  /** The block of the oldest slot. */
  ghost function OldestTag(s: State): set<Tag> {
    if s.last in s.live then {s.live[s.last].tag} else {}
  }

  /** The places of the pages read. */
  ghost function ReadAt(r: seq<ReadResult>): set<nat> {
    set i: nat | i < |r| && r[i].PageRead?
  }

  lemma ReadAtNext(r: seq<ReadResult>, x: ReadResult)
    ensures |ReadAt(r + [x])| == |ReadAt(r)| + if x.PageRead? then 1 else 0
  {
    assert ReadAt(r + [x]) == if x.PageRead? then ReadAt(r) + {|r|} else ReadAt(r);
  }

  /** The next call succeeds. */
  ghost predicate Fine(script: seq<Event>) {
    script != [] && script[0].Event? && script[0].reply != Broken
  }

  /** How many responses can be taken before something else happens. */
  function Ready(script: seq<Event>): nat {
    if script != [] && script[0].Event? && script[0].reply == Good then 1 + Ready(script[1..]) else 0
  }

  /** Responses were taken as long as there were any, at most `limit`. */
  ghost predicate Pumped(script: seq<Event>, k: int, limit: int) {
    && 0 <= k <= limit && k <= |script|
    && (forall j :: 0 <= j < k ==> script[j].Event? && script[j].reply == Good)
    && (k == limit || k == |script| || !(script[k].Event? && script[k].reply == Good))
  }

  lemma {:induction false} ReadyPumped(script: seq<Event>, limit: nat)
    ensures Pumped(script, if Ready(script) < limit then Ready(script) else limit, limit)
  {
    if Ready(script) > 0 && limit > 0 {
      ReadyPumped(script[1..], limit - 1);
    }
  }

  /** How long a receive waits, and whether it may find the connection broken. */
  datatype Mode = Wait | Poll | PollSteady

  /** What a server answers when WAL has been written up to `clock`: an error if it has to, or the page as
      of an LSN between the two of the request that has been reached. */
  function Respond(history: History, req: Request, e: Event, clock: Lsn): (resp: Response)
    requires e.Event?
    ensures Answers(history, req, resp) && Reached(resp, clock)
  {
    if e.isError then ErrorResponse(req)
    else match req
      case GetPage(tag, _, lsn, since) =>
        var latest := if clock < lsn then clock else lsn;
        if since > latest then ErrorResponse(req) else
          var at := if e.at < since then since else if e.at > latest then latest else e.at;
          PageResponse(req, at, history(tag, at))
      case Metadata(_, _, _, _) => MetadataResponse(req, e.at)
  }

  /** One of the events told the server that sent the response what to do, at a time when WAL had been written at
      least as far as the event says. */
  ghost predicate Told(history: History, events: seq<Event>, clock: Lsn, resp: Response) {
    exists e, now: Lsn :: e in events && e.Event? && e.now <= now <= clock && resp == Respond(history, resp.req, e, now)
  }

  /** The part of a plan that is used up when `script` is left of it. */
  ghost function Spent(plan: seq<Event>, script: seq<Event>): seq<Event> {
    if |script| <= |plan| then plan[..|plan| - |script|] else plan
  }

  /** An LSN that one of the events names. */
  ghost predicate Named(events: seq<Event>, clock: Lsn) {
    clock == 0 || exists e :: e in events && e.Event? && e.now == clock
  }

  /** Whatever the backend has seen of the environment was planned: a cancellation is one of the events used up,
      or there are none left; one of them named the clock; every response was sent by a server that followed
      one of them. */
  ghost predicate Follows(history: History, plan: seq<Event>, script: seq<Event>, cancels: nat, clock: Lsn,
                          heard: set<Response>)
  {
    && plan == Spent(plan, script) + script
    && (cancels > 0 ==> script == [] || Cancel in Spent(plan, script))
    && Named(Spent(plan, script), clock)
    && (forall r :: r in heard ==> Told(history, Spent(plan, script), clock, r))
  }

  lemma FollowsNext(history: History, plan: seq<Event>, script: seq<Event>, cancels: nat, clock: Lsn,
                    heard: set<Response>)
    requires Follows(history, plan, script, cancels, clock, heard)
    ensures script == [] ==> Follows(history, plan, [], cancels + 1, clock, heard)
    ensures script != [] ==> script[0] in Spent(plan, script[1..])
    ensures script != [] ==>
      Follows(history, plan, script[1..], if script[0] == Cancel then cancels + 1 else cancels, clock, heard)
  {
    if script != [] {
      var spent, more := Spent(plan, script), Spent(plan, script[1..]);
      assert more == spent + [script[0]];
      assert plan == more + script[1..];
      assert script[0] in more;
      forall r | r in heard ensures Told(history, more, clock, r) {
        assert Told(history, spent, clock, r);
      }
    }
  }

  lemma FollowsReceive(history: History, plan: seq<Event>, script: seq<Event>, cancels: nat, clock: Lsn,
                       heard: set<Response>, req: Request, e: Event)
    requires Follows(history, plan, script, cancels, clock, heard) && e in Spent(plan, script) && e.Event?
    ensures var now := Max(clock, e.now);
      Follows(history, plan, script, cancels, now, heard + {Respond(history, req, e, now)})
  {
    hide Spent;
    var now := Max(clock, e.now);
    var resp := Respond(history, req, e, now);
    assert resp == Respond(history, resp.req, e, now);
    assert Told(history, Spent(plan, script), now, resp);
    forall r | r in heard ensures Told(history, Spent(plan, script), now, r) {
      assert Told(history, Spent(plan, script), clock, r);
    }
  }

  class Communicator {
    const history: History
    const protocolVersion: nat
    const flushEvery: int

    var buf: array<Slot>
    var ringLast: nat
    var ringReceive: nat
    var ringFlush: nat
    var ringUnused: nat
    var nBuffered: int
    var nInflight: int
    var hash: map<Tag, nat>
    var maxShard: nat
    var bitmap: array<bv8>
    var conns: map<nat, Conn>
    var requestCounter: nat
    var script: seq<Event>
    var clock: Lsn

    // The whole plan of the environment; the synchronous request in flight, the page requests registered so
    // far and where they were sent, the responses received and the cancellations seen.
    ghost const plan: seq<Event>
    ghost var tail: Tail
    ghost var asked: set<(Tag, Lsns)>
    ghost var routes: set<(Tag, nat)>
    ghost var heard: set<Response>
    ghost var cancels: nat

    ghost predicate Rep()
      reads this
    {
      && 0 < buf.Length
      && bitmap.Length == 16
      && buf as object != bitmap as object
      && Follows(history, plan, script, cancels, clock, heard)
    }

    ghost function Knows(): Known
      reads this
    {
      Known(asked, routes, clock, heard)
    }

    ghost function View(): State
      reads this, buf, bitmap
    {
      State(buf.Length, LiveOf(buf[..], ringLast), hash, ringLast, ringReceive, ringFlush, ringUnused,
            nBuffered, nInflight, Bitmap.Bits(bitmap[..]), maxShard, conns, tail,
            Known(asked, routes, clock, heard))
    }

    ghost predicate Valid()
      reads this, buf, bitmap
    {
      Rep() && Inv(View(), history)
    }

    /** The script is used up and the clock goes forward. */
    twostate predicate Onward()
      reads this
    {
      |script| <= |old(script)| && cancels >= old(cancels) && clock >= old(clock) && old(heard) <= heard
    }

    constructor (history: History, protocolVersion: nat, flushEvery: int, size: nat, script: seq<Event>)
      requires 0 < size
      ensures Valid() && fresh(buf) && fresh(bitmap)
      ensures View() == Start(size) && cancels == 0
      ensures this.history == history && plan == script && this.script == script
    {
      this.history, this.protocolVersion, this.flushEvery := history, protocolVersion, flushEvery;
      this.script, plan, requestCounter, clock := script, script, 0, 0;
      buf := new Slot[size](_ => BLANK);
      bitmap := new bv8[16](_ => 0);
      ringLast, ringReceive, ringFlush, ringUnused, nBuffered, nInflight := 0, 0, 0, 0, 0, 0;
      hash, conns, maxShard := map[], map[], 0;
      tail, asked, routes, heard, cancels := Idle, {}, {}, {}, 0;
      new;
      Bitmap.ZeroBits(bitmap[..]);
      assert LiveOf(buf[..], 0) == map[];
      StartInv(size, history);
      assert View() == Start(size);
    }

    // ---------- Slots ----------

    method ReadSlot(i: nat) returns (slot: Slot)
      requires Rep() && ringLast <= i < ringLast + buf.Length
      ensures slot.status == Unused <==> i !in View().live
      ensures i in View().live ==> slot == View().live[i]
    {
      slot := buf[i % buf.Length];
    }

    method PutSlot(i: nat, slot: Slot)
      requires Rep() && ringLast <= i < ringLast + buf.Length && slot.status != Unused
      modifies buf
      ensures View() == old(View()).(live := old(View()).live[i := slot])
    {
      LivePut(buf[..], ringLast, i, slot);
      ghost var was := buf[..];
      buf[i % buf.Length] := slot;
      assert buf[..] == was[i % buf.Length := slot];
    }

    method ClearSlot(i: nat)
      requires Rep() && ringLast <= i < ringLast + buf.Length
      modifies buf
      ensures View() == old(View()).(live := old(View()).live - {i})
    {
      LiveClear(buf[..], ringLast, i, BLANK);
      ghost var was := buf[..];
      buf[i % buf.Length] := BLANK;
      assert buf[..] == was[i % buf.Length := BLANK];
    }

    method AdvanceLast()
      requires Rep() && ringLast !in View().live
      modifies `ringLast
      ensures View() == old(View()).(last := old(ringLast) + 1)
    {
      LiveAdvance(buf[..], ringLast);
      ringLast := ringLast + 1;
    }

    // ---------- Trailing slots and compaction ----------

    method CleanupTrailingUnused()
      requires Rep() && ringLast <= ringReceive
      modifies `ringLast
      ensures View() == Trim(old(View()))
    {
      hide Follows, Spent, LiveOf;
      ghost var s := View();
      while ringLast < ringReceive
        invariant s.last <= ringLast <= ringReceive
        invariant View() == s.(last := ringLast)
        invariant FirstUsed(s.live, ringLast, ringReceive) == FirstUsed(s.live, s.last, ringReceive)
      {
        var slot := ReadSlot(ringLast);
        if slot.status == Unused {
          AdvanceLast();
        } else {
          break;
        }
      }
    }

    /** The newest gap between `ringLast` and `ringReceive`, or `ringLast`. */
    method FindGap() returns (gap: nat)
      requires Rep() && ringLast < ringReceive <= ringLast + buf.Length
      ensures gap == LastGap(View().live, ringLast, ringReceive)
    {
      hide Follows, Spent, LiveOf;
      gap := ringLast;
      var search := ringReceive;
      while search > ringLast
        invariant ringLast <= search <= ringReceive
        invariant gap == ringLast
        invariant LastGap(View().live, ringLast, search) == LastGap(View().live, ringLast, ringReceive)
      {
        search := search - 1;
        var slot := ReadSlot(search);
        if slot.status == Unused {
          gap := search;
          break;
        }
      }
    }

    method MoveSlot(from: nat, to: nat)
      requires Rep() && ringLast <= from < to < ringLast + buf.Length && from in View().live
      modifies `hash, buf
      ensures View() == Move(old(View()), from, to)
    {
      hide Follows, Spent, LiveOf;
      var slot := ReadSlot(from);
      PutSlot(to, slot.(myIndex := to));
      hash := (hash - {slot.tag})[slot.tag := to];
      ClearSlot(from);
      assert old(View().live)[to := slot.(myIndex := to)] - {from}
          == (old(View().live) - {from})[to := slot.(myIndex := to)];
    }

    /** Closes the gaps between buffered responses by moving them towards `ringReceive`. */
    method Compact() returns (moved: bool)
      requires Rep() && ringLast <= ringReceive <= ringLast + buf.Length && Tight(View())
      modifies `ringLast, `hash, buf
      ensures View() == Compacted(old(View()))
      ensures moved <==> LastGap(old(View()).live, old(ringLast), ringReceive) > old(ringLast)
      ensures !moved ==> View() == old(View())
    {
      hide Follows, Spent, LiveOf, Move;
      ghost var s := View();
      if ringReceive == ringLast {
        return false;
      }
      var empty := FindGap();
      var search := empty;
      var nMoved := 0;
      ghost var gap := empty;
      while search > ringLast
        invariant s.last == ringLast <= search <= empty <= gap < ringReceive
        invariant View() == s.(live := View().live, hash := View().hash)
        invariant Sweep(View(), search, empty) == Sweep(s, gap, gap)
        invariant nMoved == 0 ==> View() == s && forall i: nat :: search <= i < gap ==> i !in s.live
        invariant nMoved > 0 ==> gap > s.last
        invariant nMoved >= 0
      {
        search := search - 1;
        var source := ReadSlot(search);
        if source.status == Unused {
          continue;
        }
        MoveSlot(search, empty);
        empty := empty - 1;
        nMoved := nMoved + 1;
      }
      if nMoved > 0 {
        CleanupTrailingUnused();
        return true;
      }
      return false;
    }

    method SetUnused(i: nat)
      requires Rep() && ringLast <= ringReceive <= ringLast + buf.Length && Tight(View())
      requires i < ringReceive
      modifies `ringLast, `hash, `nBuffered, buf
      ensures View() == Freed(old(View()), i)
    {
      hide Follows, Spent, LiveOf, Compacted;
      if i < ringLast {
        return;
      }
      var slot := ReadSlot(i);
      if slot.status == Unused {
        return;
      }
      if slot.status == Received {
        nBuffered := nBuffered - 1;
      }
      hash := hash - {slot.tag};
      ClearSlot(i);
      assert View() == Release(old(View()), i);
      if ringLast == i {
        CleanupTrailingUnused();
      } else if nBuffered / 8 < ringReceive - ringLast - nBuffered {
        var _ := Compact();
      }
    }

    // ---------- Connections ----------

    method Next() returns (e: Event)
      requires Rep()
      modifies `script, `cancels
      ensures Rep() && (e != Cancel ==> e in Spent(plan, script))
      ensures cancels == old(cancels) + if e == Cancel then 1 else 0
      ensures old(script) == [] ==> e == Cancel && script == []
      ensures old(script) != [] ==> e == old(script)[0] && script == old(script)[1..]
    {
      hide Follows, Spent;
      FollowsNext(history, plan, script, cancels, clock, heard);
      e := Cancel;
      if script != [] {
        e := script[0];
        script := script[1..];
      }
      cancels := cancels + if e == Cancel then 1 else 0;
    }

    /** Gives up the oldest outstanding request, and with it the connection it was sent on. */
    method DropOldest()
      requires Rep() && ringLast <= ringReceive < ringUnused <= ringLast + buf.Length
      requires Tight(View()) && ringReceive in View().live
      modifies `ringLast, `ringReceive, `hash, `nBuffered, `nInflight, `conns, buf
      ensures View() == Freed(MarkDropped(old(View())), old(ringReceive))
    {
      hide Follows, Spent, LiveOf, Freed;
      var i := ringReceive;
      var slot := ReadSlot(i);
      conns := conns - {slot.shard};
      PutSlot(i, slot.(status := TagRemains));
      nInflight := nInflight - 1;
      ringReceive := ringReceive + 1;
      assert View() == MarkDropped(old(View()));
      SetUnused(i);
    }

    /** The disconnect hook. */
    method OnDisconnect()
      requires Rep() && Core(View(), history) && Tight(View()) && LooseFifo(View())
      modifies `ringLast, `ringReceive, `ringFlush, `hash, `nBuffered, `nInflight, `conns, buf
      ensures View() == Disconnected(old(View()))
      ensures Valid() && KeptBuffered(old(View()), View())
    {
      hide Follows, Spent, LiveOf, Core, Tight, LooseFifo, Contents, Fifo, Freed, KeptBuffered;
      CoreOrdered(View(), history);
      DisconnectedKeeps(View(), history);
      FlushCounted(View(), history);
      ghost var s := View().(flush := ringUnused);
      ringFlush := ringUnused;
      assert View() == s;
      while ringReceive < ringUnused
        invariant ringLast <= ringReceive <= ringUnused == ringFlush
        invariant Core(View(), history) && Tight(View()) && LooseFifo(View())
        invariant DropAll(View()) == DropAll(s)
      {
        CoreOrdered(View(), history);
        DropStep(View(), history);
        DropOldest();
      }
    }

    /** Losing a connection drops the whole prefetch queue. */
    method PsDisconnect(drops: set<nat>)
      requires Valid()
      modifies `ringLast, `ringReceive, `ringFlush, `hash, `nBuffered, `nInflight, `conns, buf
      ensures Valid() && Later(old(View()), View())
      ensures ringReceive == ringUnused && conns.Keys !! drops
    {
      hide Follows, Spent, LiveOf, Core, Tight, LooseFifo, Contents, Fifo, Disconnected;
      CoreOrdered(View(), history);
      FifoIsLoose(View());
      ghost var s := View();
      OnDisconnect();
      BufferedKept(s, View(), history);
      DropConnsKeeps(View(), drops, history);
      conns := conns - drops;
    }

    /** Connections that are found to be lost, if any. */
    method LoseConnections(drops: set<nat>)
      requires Valid()
      modifies `ringLast, `ringReceive, `ringFlush, `hash, `nBuffered, `nInflight, `conns, buf
      ensures Valid() && Later(old(View()), View()) && conns.Keys !! drops
    {
      if drops != {} {
        PsDisconnect(drops);
      }
    }

    method Enqueue(shard: nat, req: Request)
      modifies `conns
      ensures View() == Sent(old(View()), shard, req)
    {
      var conn := if shard in conns then conns[shard] else Conn([], 0);
      conns := conns[shard := Conn(conn.queue + [req], conn.flushed)];
    }

    /** Gets a connection ready for one more request; connections found to be lost are dropped. */
    method Connect(shard: nat) returns (o: Outcome)
      requires Valid()
      modifies `ringLast, `ringReceive, `ringFlush, `hash, `nBuffered, `nInflight, `conns, buf
      modifies `script, `cancels, `requestCounter
      ensures Valid() && Later(old(View()), View())
      ensures o == Done ==> Fine(old(script)) && conns.Keys !! old(script)[0].drops
      ensures o == Lost ==> !Fine(old(script)) && shard !in conns && ringReceive == ringUnused
      ensures o == Cancelled ==> View() == old(View()) && cancels > old(cancels)
      ensures requestCounter == old(requestCounter) + if o == Cancelled then 0 else 1
      ensures o != Cancelled ==> |script| < |old(script)|
      ensures |script| <= |old(script)| && cancels >= old(cancels)
    {
      hide Follows, Spent, LiveOf, Inv, Bitmap.Bits;
      var e := Next();
      if e.Cancel? {
        return Cancelled;
      }
      requestCounter := requestCounter + 1;
      if e.reply == Broken {
        PsDisconnect(e.drops + {shard});
        return Lost;
      }
      LoseConnections(e.drops);
      return Done;
    }

    /** Writes a request into the output buffer of a shard, reconnecting first where needed. `mid` is the
        state in which it is written. */
    method Send(shard: nat, draft: Request) returns (o: Outcome, req: Request, ghost mid: State)
      requires Valid()
      modifies `ringLast, `ringReceive, `ringFlush, `hash, `nBuffered, `nInflight, `conns, buf
      modifies `script, `cancels, `requestCounter
      ensures Rep() && Inv(mid, history) && Later(old(View()), mid)
      ensures o == Done ==> View() == Sent(mid, shard, req) && req == draft.(reqid := requestCounter)
      ensures o == Done ==> Fine(old(script)) && mid.conns.Keys !! old(script)[0].drops
      ensures o == Lost ==> !Fine(old(script)) && shard !in conns && ringReceive == ringUnused
      ensures requestCounter == old(requestCounter) + if o == Cancelled then 0 else 1
      ensures o != Done ==> View() == mid
      ensures o != Cancelled ==> |script| < |old(script)|
      ensures |script| <= |old(script)| && cancels >= old(cancels)
      ensures o == Cancelled ==> cancels > old(cancels)
    {
      hide Follows, Spent, LiveOf, Inv, Bitmap.Bits, Sent, Later, Fine;
      o := Connect(shard);
      mid := View();
      req := draft.(reqid := requestCounter);
      if o == Done {
        Enqueue(shard, req);
      }
    }

    /** Pushes the output buffer of a shard to the server. */
    method FlushConn(shard: nat) returns (ok: bool)
      requires Valid()
      modifies `ringLast, `ringReceive, `ringFlush, `hash, `nBuffered, `nInflight, `conns, buf, `script, `cancels
      ensures Rep() && |script| <= |old(script)| && cancels >= old(cancels)
      ensures ok ==> View() == old(View()).(conns := FlushShard(old(View()), shard).conns)
      ensures ok <==> shard !in old(conns) || old(script) == [] || old(script)[0] == Cancel || Fine(old(script))
      ensures !ok ==> Valid() && Later(old(View()), View()) && ringReceive == ringUnused && shard !in conns
      ensures !ok ==> |script| < |old(script)|
    {
      hide Follows, Spent, LiveOf, Inv;
      if shard !in conns {
        return true;
      }
      var e := Next();
      if e.Event? && e.reply == Broken {
        PsDisconnect({shard});
        return false;
      }
      conns := conns[shard := conns[shard].(flushed := |conns[shard].queue|)];
      return true;
    }

    /** The server of the oldest request answers it. */
    method Accept(shard: nat, e: Event) returns (resp: Response)
      requires Rep() && shard in conns && conns[shard].queue != [] && conns[shard].flushed > 0
      requires e.Event? && e in Spent(plan, script)
      modifies `conns, `clock, `heard
      ensures Rep() && clock == Max(old(clock), e.now)
      ensures resp == Respond(history, old(conns)[shard].queue[0], e, clock)
      ensures View() == old(View()).(known := Known(asked, routes, clock, old(heard) + {resp}),
                                     conns := old(conns)[shard := Conn(old(conns)[shard].queue[1..],
                                                                       old(conns)[shard].flushed - 1)])
    {
      hide Follows, Spent, LiveOf;
      var conn := conns[shard];
      FollowsReceive(history, plan, script, cancels, clock, heard, conn.queue[0], e);
      clock := Max(clock, e.now);
      resp := Respond(history, conn.queue[0], e, clock);
      heard := heard + {resp};
      conns := conns[shard := Conn(conn.queue[1..], conn.flushed - 1)];
    }

    /** The next response on a shard's connection, which is the answer to the oldest request on it. */
    method Receive(shard: nat, mode: Mode) returns (o: Outcome, resp: Response)
      requires Valid() && shard in conns && conns[shard].queue != [] && conns[shard].flushed > 0
      modifies `ringLast, `ringReceive, `ringFlush, `hash, `nBuffered, `nInflight, `conns, buf
      modifies `script, `cancels, `clock, `heard
      ensures Rep()
      ensures o == Done ==>
        && old(script) != [] && old(script)[0].Event? && old(script)[0].reply == Good
        && clock == Max(old(clock), old(script)[0].now)
        && resp == Respond(history, old(conns)[shard].queue[0], old(script)[0], clock)
        && View() == old(View()).(known := Known(asked, routes, clock, old(heard) + {resp}),
                                  conns := old(conns)[shard := Conn(old(conns)[shard].queue[1..],
                                                                       old(conns)[shard].flushed - 1)])
      ensures o == Done <==> Ready(old(script)) > 0
      ensures old(script) != [] ==> script == old(script)[1..]
      ensures o == Cancelled ==> View() == old(View())
      ensures o == Lost ==> mode != PollSteady
      ensures o == Lost ==>
        && Valid() && Later(old(View()), View())
        && ringReceive == ringUnused && shard !in conns
      ensures o != Cancelled ==> |script| < |old(script)|
      ensures Onward()
      ensures o == Cancelled && mode == Wait ==> cancels > old(cancels)
    {
      hide Follows, Spent, LiveOf, Inv;
      resp := ErrorResponse(conns[shard].queue[0]);
      var e := Next();
      if e.Cancel? || (mode == Poll && e.reply == NoData) || (mode == PollSteady && e.reply != Good) {
        return Cancelled, resp;
      }
      if e.reply != Good {
        PsDisconnect({shard});
        return Lost, resp;
      }
      resp := Accept(shard, e);
      return Done, resp;
    }

    // ---------- Flushing and receiving ----------

    method FlushIfDirty(shard: nat) returns (ok: bool)
      requires Valid() && shard < MAX_SHARDS
      modifies `ringLast, `ringReceive, `ringFlush, `hash, `nBuffered, `nInflight, `conns, buf, `script, `cancels
      modifies bitmap
      ensures Valid() && |script| <= |old(script)| && cancels >= old(cancels)
      ensures ok ==> View() == old(View()).(conns := conns, dirty := old(View()).dirty - {shard})
      ensures !ok ==> Later(old(View()), View()) && ringReceive == ringUnused
      ensures !ok ==> |script| < |old(script)|
    {
      hide Follows, Spent, LiveOf, Inv, Bitmap.Bits;
      ghost var s := View();
      var isSet := Bitmap.Test(bitmap, shard);
      ok := true;
      if isSet {
        ok := FlushConn(shard);
        if ok {
          Bitmap.Clear(bitmap, shard);
          FlushShardKeeps(s, shard, history);
          assert View() == FlushShard(s, shard);
        }
      } else {
        assert s.dirty - {shard} == s.dirty;
      }
    }

    /** Flushes every shard that is marked dirty. */
    method FlushRequests() returns (ok: bool)
      requires Valid()
      modifies `ringLast, `ringReceive, `ringFlush, `hash, `nBuffered, `nInflight, `conns, buf, `script, `cancels
      modifies `maxShard, bitmap
      ensures Rep() && |script| <= |old(script)| && cancels >= old(cancels)
      ensures ok ==> View() == old(View()).(conns := conns, dirty := View().dirty, maxShard := 0)
      ensures ok ==> Inv(View().(flush := ringUnused), history)
      ensures !ok ==> Valid() && Later(old(View()), View()) && ringReceive == ringUnused
      ensures !ok ==> |script| < |old(script)|
    {
      hide Follows, Spent, LiveOf, Inv, Bitmap.Bits;
      ghost var s := View();
      var shard := 0;
      ShardLimit(s, history);
      while shard < maxShard
        invariant shard <= maxShard == s.maxShard <= MAX_SHARDS
        invariant View() == s.(conns := conns, dirty := View().dirty)
        invariant Valid()
        invariant forall k :: k in View().dirty && k < shard ==> k >= maxShard
        invariant |script| <= |old(script)| && cancels >= old(cancels)
      {
        var flushed := FlushIfDirty(shard);
        if !flushed {
          return false;
        }
        shard := shard + 1;
      }
      AllFlushed(View(), history);
      maxShard := 0;
      return true;
    }

    /** Stores the response just taken off the connection in the slot that waits for it. */
    method StoreResponse(resp: Response, ghost s: State)
      requires Rep() && HeadReady(s) && s.last <= s.receive < s.last + s.size
      requires View() == s.(conns := ReceiveStep(s, resp, clock).conns, known := ReceiveStep(s, resp, clock).known)
      modifies `ringReceive, `nBuffered, `nInflight, buf
      ensures View() == ReceiveStep(s, resp, clock)
    {
      hide Follows, Spent, LiveOf, Bitmap.Bits;
      var slot := ReadSlot(ringReceive);
      nBuffered := nBuffered + 1;
      nInflight := nInflight - 1;
      PutSlot(ringReceive, slot.(status := Received, response := Some(resp)));
      ringReceive := ringReceive + 1;
    }

    /** Takes the response for the oldest outstanding request off its connection. */
    method PrefetchRead(mode: Mode) returns (o: Outcome)
      requires Valid() && ringReceive < ringFlush
      modifies `ringLast, `ringReceive, `ringFlush, `hash, `nBuffered, `nInflight, `conns, buf
      modifies `script, `cancels, `clock, `heard
      ensures Valid()
      ensures o == Done ==> OnlyReceived(old(View()), View()) && ringReceive == old(ringReceive) + 1
      ensures o == Done ==> ringFlush == old(ringFlush)
      ensures o == Done <==> Ready(old(script)) > 0
      ensures old(script) != [] ==> script == old(script)[1..]
      ensures o == Cancelled ==> View() == old(View())
      ensures o == Lost ==> Later(old(View()), View()) && ringReceive == ringUnused && mode != PollSteady
      ensures o != Cancelled ==> |script| < |old(script)|
      ensures Onward()
      ensures o == Cancelled && mode == Wait ==> cancels > old(cancels)
    {
      hide Follows, Spent, LiveOf, Inv, Bitmap.Bits, Later, LaterBut, OnlyReceived;
      ghost var s := View();
      HeadOfLine(s, history);
      InvOrdered(s, history);
      var slot := ReadSlot(ringReceive);
      assert slot.status == Requested && slot.response == None && slot.myIndex == ringReceive by {
        SlotOutstanding(s, ringReceive, history);
      }
      var resp;
      o, resp := Receive(slot.shard, mode);
      if o == Done {
        StoreResponse(resp, s);
        ReceiveKeeps(s, resp, clock, history);
        ReceiveOnlyReceives(s, resp, clock);
      }
    }

    /** Picks up responses that have already arrived: all of them, up to the last flushed request, unless a
        connection turns out to be broken. */
    method PumpState(mode: Mode)
      requires Valid() && mode != Wait
      modifies `ringLast, `ringReceive, `ringFlush, `hash, `nBuffered, `nInflight, `conns, buf
      modifies `script, `cancels, `clock, `heard
      ensures Valid() && Later(old(View()), View()) && Onward()
      ensures mode == PollSteady ==> OnlyReceived(old(View()), View()) && ringFlush == old(ringFlush)
      ensures
        || Pumped(old(script), ringReceive - old(ringReceive), old(ringFlush - ringReceive))
        || (mode == Poll && ringReceive == ringUnused)
    {
      hide Follows, Spent, LiveOf, Inv, Bitmap.Bits, Pumped;
      ghost var s := View();
      InvOrdered(s, history);
      ReadyPumped(script, ringFlush - ringReceive);
      while ringReceive != ringFlush
        invariant Valid() && OnlyReceived(s, View()) && ringFlush == s.flush && ringReceive <= ringFlush
        invariant ringReceive - s.receive + Ready(script) == Ready(old(script)) && Onward()
        decreases |script|
      {
        InvOrdered(View(), history);
        ghost var v := View();
        var o := PrefetchRead(mode);
        if o != Done {
          break;
        }
        OnlyReceivedTrans(s, v, View());
      }
    }

    /** Makes sure that the request of slot `i` has left the output buffer. */
    method FlushUpTo(i: nat) returns (ok: bool)
      requires Valid() && i < ringUnused
      modifies `ringLast, `ringReceive, `ringFlush, `hash, `nBuffered, `nInflight, `conns, buf, `script, `cancels
      modifies `maxShard, bitmap
      ensures Valid() && |script| <= |old(script)| && cancels >= old(cancels)
      ensures ok ==> OnlyReceived(old(View()), View()) && i < ringFlush
      ensures i < old(ringFlush) ==> ok && View() == old(View())
      ensures !ok ==> Later(old(View()), View()) && ringReceive == ringUnused
      ensures !ok ==> |script| < |old(script)|
    {
      hide Follows, Spent, LiveOf, Inv, Bitmap.Bits;
      InvOrdered(View(), history);
      ok := true;
      if ringFlush <= i && ringUnused > ringFlush {
        ok := FlushRequests();
        if ok {
          ringFlush := ringUnused;
        }
      }
    }

    /** One more response, and whatever an interrupt picks up after it. */
    method ReceiveNext() returns (o: Outcome)
      requires Valid() && ringReceive < ringFlush
      modifies `ringLast, `ringReceive, `ringFlush, `hash, `nBuffered, `nInflight, `conns, buf
      modifies `script, `cancels, `clock, `heard
      ensures Valid() && Later(old(View()), View())
      ensures o == Done ==> OnlyReceived(old(View()), View()) && ringFlush == old(ringFlush)
      ensures o == Lost ==> ringReceive == ringUnused
      ensures o != Cancelled ==> |script| < |old(script)|
      ensures Onward()
      ensures o == Cancelled ==> cancels > old(cancels)
    {
      hide Follows, Spent, LiveOf, Inv, Bitmap.Bits;
      ghost var s := View();
      o := PrefetchRead(Wait);
      if o == Done {
        var e := Next();
        if e.Cancel? {
          return Cancelled;
        }
        if e.interrupt {
          ghost var v := View();
          PumpState(PollSteady);
          OnlyReceivedTrans(s, v, View());
        }
      }
    }

    /** Waits until slot `i` has its response. */
    method WaitFor(i: nat) returns (o: Outcome)
      requires Valid() && i in View().live
      modifies `ringLast, `ringReceive, `ringFlush, `hash, `nBuffered, `nInflight, `conns, buf
      modifies `script, `cancels, `clock, `heard, `maxShard, bitmap
      ensures Valid() && Later(old(View()), View())
      ensures o == Done ==> OnlyReceived(old(View()), View()) && i < ringReceive
      ensures o == Lost ==> ringReceive == ringUnused && |script| < |old(script)|
      ensures Onward()
      ensures o == Cancelled ==> cancels > old(cancels)
    {
      hide Follows, Spent, LiveOf, Inv, Bitmap.Bits;
      ghost var s := View();
      SlotInside(s, i, history);
      var flushed := FlushUpTo(i);
      if !flushed {
        return Lost;
      }
      while ringReceive <= i
        invariant Valid() && OnlyReceived(s, View()) && i < ringFlush
        invariant Onward()
        decreases |script|
      {
        ghost var v := View();
        o := ReceiveNext();
        if o != Done {
          return;
        }
        OnlyReceivedTrans(s, v, View());
      }
      return Done;
    }

    /** Receives every response still outstanding. */
    method ConsumeResponses() returns (o: Outcome)
      requires Valid()
      modifies `ringLast, `ringReceive, `ringFlush, `hash, `nBuffered, `nInflight, `conns, buf
      modifies `script, `cancels, `clock, `heard, `maxShard, bitmap
      ensures Valid() && Later(old(View()), View())
      ensures o != Cancelled ==> ringReceive == ringUnused
      ensures Onward()
      ensures o == Cancelled ==> cancels > old(cancels)
    {
      hide Follows, Spent, LiveOf, Inv, Bitmap.Bits;
      o := Done;
      InvOrdered(View(), history);
      if ringReceive < ringUnused {
        SlotOutstanding(View(), ringUnused - 1, history);
        o := WaitFor(ringUnused - 1);
        InvOrdered(View(), history);
      }
    }

    // ---------- Registering and reading pages ----------

    /** Tries again until the request is in the output buffer. */
    method SendRetrying(shard: nat, draft: Request) returns (o: Outcome, req: Request, ghost mid: State)
      requires Valid()
      modifies `ringLast, `ringReceive, `ringFlush, `hash, `nBuffered, `nInflight, `conns, buf
      modifies `script, `cancels, `requestCounter
      ensures o != Lost
      ensures Rep() && Inv(mid, history) && Later(old(View()), mid)
      ensures o == Done ==> View() == Sent(mid, shard, req) && req == draft.(reqid := req.reqid)
      ensures o != Done ==> View() == mid
      ensures |script| <= |old(script)| && cancels >= old(cancels)
      ensures o == Cancelled ==> cancels > old(cancels)
    {
      hide Follows, Spent, LiveOf, Inv, Bitmap.Bits, Sent;
      ghost var s := View();
      o, req, mid := Send(shard, draft);
      while o == Lost
        invariant Rep() && Inv(mid, history) && Later(s, mid)
        invariant o == Done ==> View() == Sent(mid, shard, req) && req == draft.(reqid := req.reqid)
        invariant o != Done ==> View() == mid
        invariant |script| <= |old(script)| && cancels >= old(cancels)
        invariant o == Cancelled ==> cancels > old(cancels)
        decreases |script|, o == Lost
      {
        o, req, mid := Send(shard, draft);
      }
    }

    /** Remembers that the output buffer of a shard holds a request. */
    method MarkDirty(shard: nat)
      requires Rep() && shard < MAX_SHARDS
      modifies `maxShard, bitmap
      ensures View() == old(View()).(dirty := old(View()).dirty + {shard}, maxShard := Max(shard + 1, old(maxShard)))
    {
      hide Follows, Spent, LiveOf, Bitmap.Bits;
      Bitmap.Set(bitmap, shard);
      maxShard := Max(shard + 1, maxShard);
    }

    /** Enters a request that was just sent into the ring. */
    method FillSlot(slot: Slot, ghost mid: State)
      requires Rep() && Appendable(mid, slot) && mid.last <= mid.unused
      requires View() == Sent(mid, slot.shard, RequestOf(slot))
      modifies `hash, `nInflight, `ringUnused, `maxShard, `asked, `routes, buf, bitmap
      ensures View() == Append(mid, slot)
    {
      hide Follows, Spent, LiveOf, Bitmap.Bits, Sent, RequestOf;
      PutSlot(ringUnused, slot);
      nInflight := nInflight + 1;
      ringUnused := ringUnused + 1;
      MarkDirty(slot.shard);
      hash := hash[slot.tag := slot.myIndex];
      asked, routes := asked + {(slot.tag, slot.lsns)}, routes + {(slot.tag, slot.shard)};
    }

    /** The request of a slot is the last one sent to the shard. */
    ghost predicate SentTo(index: nat, shard: nat)
      reads this, buf, bitmap
    {
      && index in View().live && View().live[index].shard == shard && shard in conns && conns[shard].queue != []
      && conns[shard].queue[|conns[shard].queue| - 1] == RequestOf(View().live[index])
    }

    /** Sends one page request and puts it into the next free slot. */
    method DoRequest(tag: Tag, shard: nat, lsns: Lsns) returns (o: Outcome)
      requires Valid() && WellFormed(lsns) && shard < MAX_SHARDS
      requires tag !in hash && ringUnused < ringLast + buf.Length && tail == Idle
      modifies `ringLast, `ringReceive, `ringFlush, `hash, `nBuffered, `nInflight, `conns, buf, `script, `cancels
      modifies `ringUnused, `maxShard, `requestCounter, `asked, `routes, bitmap
      ensures Valid() && |script| <= |old(script)| && cancels >= old(cancels)
      ensures o == Done ==>
        && old(ringUnused) in View().live
        && View().live[old(ringUnused)].tag == tag && View().live[old(ringUnused)].lsns == lsns
        && ringUnused == old(ringUnused) + 1
        && asked == old(asked) + {(tag, lsns)} && routes == old(routes) + {(tag, shard)}
        && SentTo(old(ringUnused), shard)
      ensures o != Done ==> Later(old(View()), View()) && o == Cancelled
      ensures o == Cancelled ==> cancels > old(cancels)
    {
      hide Follows, Spent, LiveOf, Inv, Bitmap.Bits;
      var req;
      ghost var mid;
      o, req, mid := SendRetrying(shard, GetPage(tag, 0, lsns.request, lsns.notModifiedSince));
      if o == Done {
        var slot := Slot(Requested, tag, shard, lsns, req.reqid, None, ringUnused);
        InvOrdered(mid, history);
        AppendKeeps(mid, slot, history);
        FillSlot(slot, mid);
      }
    }

    /** Discards the buffered response of slot `i`. */
    method Discard(i: nat)
      requires Valid() && i in View().live && i < ringReceive
      modifies `ringLast, `hash, `nBuffered, buf
      ensures Valid() && LaterBut(old(View()), View(), {old(View()).live[i].tag})
      ensures forall t :: Found(View(), t) == if t == old(View()).live[i].tag then None else Found(old(View()), t)
      ensures old(View()).live[i].tag !in hash
      ensures i == old(ringLast) ==> ringLast > old(ringLast)
    {
      hide Follows, Spent, LiveOf, Inv, Bitmap.Bits, Freed;
      InvOrdered(View(), history);
      InvTight(View(), history);
      FreedInv(View(), i, history);
      SetUnused(i);
    }

    /** Waits for slot `i` and discards its response. */
    method WaitAndDiscard(i: nat) returns (o: Outcome)
      requires Valid() && i in View().live
      modifies `ringLast, `ringReceive, `ringFlush, `hash, `nBuffered, `nInflight, `conns, buf
      modifies `script, `cancels, `clock, `heard, `maxShard, bitmap
      ensures Valid() && LaterBut(old(View()), View(), {old(View()).live[i].tag})
      ensures o == Done ==> old(View()).live[i].tag !in hash
      ensures o == Done && i == old(ringLast) ==> ringLast > old(ringLast)
      ensures o == Lost ==> |script| < |old(script)| && ringReceive == ringUnused
      ensures Onward()
      ensures o == Cancelled ==> cancels > old(cancels)
    {
      hide Follows, Spent, LiveOf, Inv, Bitmap.Bits;
      o := WaitFor(i);
      if o == Done {
        Discard(i);
      }
    }

    /** Makes room for one more request when the ring is full; at most the oldest response is lost. */
    method MakeRoom() returns (o: Outcome)
      requires Valid()
      modifies `ringLast, `ringReceive, `ringFlush, `hash, `nBuffered, `nInflight, `conns, buf
      modifies `script, `cancels, `clock, `heard, `maxShard, bitmap
      ensures Valid() && LaterBut(old(View()), View(), OldestTag(old(View())))
      ensures o == Done ==> ringUnused < ringLast + buf.Length
      ensures old(ringUnused) < old(ringLast) + buf.Length ==> View() == old(View()) && o == Done
      ensures old(ringReceive - ringLast - nBuffered) > old(nBuffered) / 8 ==> Later(old(View()), View()) && o == Done
      ensures o == Lost ==> |script| < |old(script)|
      ensures Onward()
      ensures o == Cancelled ==> cancels > old(cancels)
    {
      hide Follows, Spent, LiveOf, Inv, Bitmap.Bits, Compacted;
      InvOrdered(View(), history);
      if ringLast + buf.Length != ringUnused {
        return Done;
      }
      OldestUsed(View(), history);
      var compacted := false;
      if nBuffered / 8 < ringReceive - ringLast - nBuffered {
        CompactedInv(View(), history);
        InvTight(View(), history);
        compacted := Compact();
      }
      o := Done;
      if !compacted {
        var slot := ReadSlot(ringLast);
        if slot.status == Requested {
          o := WaitAndDiscard(ringLast);
        } else {
          SlotBuffered(View(), ringLast, history);
          Discard(ringLast);
        }
      }
    }

    /** The slot that already holds a good enough request or response for the block; one that is not good
        enough is discarded. */
    method Reuse(tag: Tag, lsns: Lsns, isPrefetch: bool) returns (o: Outcome, found: Option<nat>)
      requires Valid()
      modifies `ringLast, `ringReceive, `ringFlush, `hash, `nBuffered, `nInflight, `conns, buf
      modifies `script, `cancels, `clock, `heard, `maxShard, bitmap
      ensures Valid() && LaterBut(old(View()), View(), {tag})
      ensures found.Some? ==> o == Done && Registered(found, tag, lsns, isPrefetch)
      ensures found.Some? ==> Reusable(old(View()), tag, lsns, isPrefetch)
      ensures Reusable(old(View()), tag, lsns, isPrefetch) ==> found == Some(old(hash)[tag]) && View() == old(View())
      ensures o == Done && found.None? ==> tag !in hash
      ensures o == Lost ==> |script| < |old(script)|
      ensures Onward()
      ensures o == Cancelled ==> cancels > old(cancels)
    {
      hide Follows, Spent, LiveOf, Inv, Bitmap.Bits;
      o, found := Done, None;
      if tag in hash {
        HashFinds(View(), tag, history);
        var slot := ReadSlot(hash[tag]);
        if isPrefetch || Usable(lsns, slot.lsns) {
          return Done, Some(hash[tag]);
        }
        o := WaitAndDiscard(hash[tag]);
      }
    }

    /** Makes room for a request and sends it. */
    method AddRequest(tag: Tag, shard: nat, lsns: Lsns) returns (o: Outcome, index: nat)
      requires Valid() && WellFormed(lsns) && shard < MAX_SHARDS && tail == Idle && tag !in hash
      modifies `ringLast, `ringReceive, `ringFlush, `hash, `nBuffered, `nInflight, `conns, buf
      modifies `script, `cancels, `clock, `heard, `ringUnused, `maxShard, `requestCounter, `asked, `routes, bitmap
      ensures Valid() && old(asked) <= asked <= old(asked) + {(tag, lsns)}
      ensures old(routes) <= routes <= old(routes) + {(tag, shard)}
      ensures o == Done ==> Registered(Some(index), tag, lsns, false) && (tag, View().live[index].lsns) in asked
      ensures o == Done ==> SentTo(index, shard) && View().live[index].lsns == lsns
      ensures o == Lost ==> |script| < |old(script)|
      ensures Onward()
      ensures o == Cancelled ==> cancels > old(cancels)
    {
      hide Follows, Spent, LiveOf, Inv, Bitmap.Bits, Kept, Found;
      index := 0;
      o := MakeRoom();
      if o == Done {
        index := ringUnused;
        o := DoRequest(tag, shard, lsns);
      }
    }

    /** Registers one block: returns the slot that already holds a good enough request or response, or
        sends a new request. `Lost` means that the whole registration starts over. */
    method RegisterBlock(tag: Tag, shard: nat, lsns: Lsns, isPrefetch: bool)
        returns (o: Outcome, index: nat)
      requires Valid() && WellFormed(lsns) && shard < MAX_SHARDS && tail == Idle
      modifies `ringLast, `ringReceive, `ringFlush, `hash, `nBuffered, `nInflight, `conns, buf
      modifies `script, `cancels, `clock, `heard, `ringUnused, `maxShard, `requestCounter, `asked, `routes, bitmap
      ensures Valid() && old(asked) <= asked <= old(asked) + {(tag, lsns)}
      ensures old(routes) <= routes <= old(routes) + {(tag, shard)}
      ensures o == Done ==> Registered(Some(index), tag, lsns, isPrefetch)
      ensures o == Done ==> (tag, View().live[index].lsns) in asked
      ensures o == Done && !Reusable(old(View()), tag, lsns, isPrefetch) ==>
        SentTo(index, shard) && View().live[index].lsns == lsns
      ensures o == Lost ==> |script| < |old(script)|
      ensures Onward()
      ensures o == Cancelled ==> cancels > old(cancels)
    {
      hide Follows, Spent, LiveOf, Inv, Bitmap.Bits, Kept, Found;
      index := 0;
      var found;
      o, found := Reuse(tag, lsns, isPrefetch);
      if found.Some? {
        SlotAsked(View(), found.value, history);
        return Done, found.value;
      }
      if o == Done {
        o, index := AddRequest(tag, shard, lsns);
      }
    }

    /** One pass over the blocks of a registration; `got` says which request stands for each block. The index
        returned is not after the slot that holds the last block. */
    method RegisterPass(base: Tag, shard: nat, lsns: seq<Lsns>, nblocks: nat, mask: set<nat>,
                        isPrefetch: bool)
        returns (o: Outcome, index: Option<nat>, ghost got: map<nat, Lsns>, ghost top: Option<Place>)
      requires Valid() && shard < MAX_SHARDS && tail == Idle
      requires nblocks <= |lsns| && forall i :: 0 <= i < nblocks ==> WellFormed(lsns[i])
      modifies `ringLast, `ringReceive, `ringFlush, `hash, `nBuffered, `nInflight, `conns, buf
      modifies `script, `cancels, `clock, `heard, `ringUnused, `maxShard, `requestCounter, `asked, `routes, bitmap
      ensures Valid() && old(asked) <= asked <= old(asked) + ForBlocks(base, lsns, mask)
      ensures old(routes) <= routes <= old(routes) + ForBlocks(base, Same(shard, nblocks), mask)
      ensures o == Done ==> Covers(asked, base, lsns, nblocks, mask, isPrefetch, got)
      ensures o == Done ==> Latest(top, nblocks, mask) && LastHeld(index, top, base, lsns, isPrefetch)
      ensures o == Done && nblocks == 1 && mask == {} ==> Registered(index, base, lsns[0], isPrefetch)
      ensures o == Lost ==> |script| < |old(script)|
      ensures Onward()
      ensures o == Cancelled ==> cancels > old(cancels)
    {
      hide Follows, Spent, LiveOf, Inv, Bitmap.Bits, Covers, ForBlocks, Same, Usable, SentTo, Reusable, Found, Kept;
      o, index, got, top := Done, None, map[], None;
      CoversNone(asked, base, lsns, mask, isPrefetch);
      for i := 0 to nblocks
        invariant Valid() && Onward()
        invariant old(asked) <= asked <= old(asked) + ForBlocks(base, lsns, mask)
        invariant old(routes) <= routes <= old(routes) + ForBlocks(base, Same(shard, nblocks), mask)
        invariant o == Done && Covers(asked, base, lsns, i, mask, isPrefetch, got)
        invariant Latest(top, i, mask) && LastHeld(index, top, base, lsns, isPrefetch)
        invariant i == 0 ==> index == None
        invariant i == 1 && mask == {} ==> Registered(index, base, lsns[0], isPrefetch)
      {
        if i in mask {
          CoversMasked(asked, base, lsns, i, mask, isPrefetch, got);
        } else {
          ghost var was := asked;
          var k;
          o, k := RegisterBlock(base.(block := base.block + i), shard, lsns[i], isPrefetch);
          if o != Done {
            return;
          }
          ghost var used := View().live[k].lsns;
          CoversMore(was, asked, base, lsns, i, mask, isPrefetch, got, used);
          index := Some(if index.Some? && index.value < k then index.value else k);
          got, top := got[i := used], Some(Place(i, k));
        }
      }
    }

    /** Slot `index` holds a request or response for the block; for a synchronous read it is usable. */
    ghost predicate Registered(index: Option<nat>, tag: Tag, lsns: Lsns, isPrefetch: bool)
      reads this, buf, bitmap
    {
      && index.Some?
      && index.value in View().live
      && View().live[index.value].tag == tag
      && (!isPrefetch ==> Usable(lsns, View().live[index.value].lsns))
    }

    /** The slot of the last block is still there, and `index` is not after it. */
    ghost predicate LastHeld(index: Option<nat>, top: Option<Place>, base: Tag, lsns: seq<Lsns>, isPrefetch: bool)
      reads this, buf, bitmap
    {
      && (index.Some? <==> top.Some?)
      && (top.Some? ==>
            && index.value <= top.value.index && top.value.block < |lsns|
            && Registered(Some(top.value.index), base.(block := base.block + top.value.block),
                          lsns[top.value.block], isPrefetch))
    }

    /** Flushes once enough requests have piled up. */
    method FlushSometimes() returns (o: Outcome)
      requires Valid()
      modifies `ringLast, `ringReceive, `ringFlush, `hash, `nBuffered, `nInflight, `conns, buf, `script, `cancels
      modifies `maxShard, bitmap
      ensures Valid() && tail == old(tail) && |script| <= |old(script)| && cancels >= old(cancels)
      ensures o == Done ==> OnlyReceived(old(View()), View())
      ensures o == Done && flushEvery > 0 ==> ringUnused - ringFlush < flushEvery
      ensures flushEvery <= 0 || old(ringUnused - ringFlush) < flushEvery ==> o == Done && View() == old(View())
      ensures o != Done ==> o == Lost && |script| < |old(script)|
    {
      hide Follows, Spent, LiveOf, Inv, Bitmap.Bits;
      o := Done;
      if flushEvery > 0 && ringUnused - ringFlush >= flushEvery {
        var flushed := FlushRequests();
        if !flushed {
          return Lost;
        }
        ringFlush := ringUnused;
      }
    }

    /** One attempt at a registration. */
    method TryRegister(base: Tag, shard: nat, lsns: seq<Lsns>, n: nat, mask: set<nat>, isPrefetch: bool)
        returns (o: Outcome, index: Option<nat>, ghost got: map<nat, Lsns>, ghost top: Option<Place>)
      requires Valid() && shard < MAX_SHARDS && tail == Idle
      requires n <= |lsns| && forall l :: l in lsns ==> WellFormed(l)
      modifies `ringLast, `ringReceive, `ringFlush, `hash, `nBuffered, `nInflight, `conns, buf
      modifies `script, `cancels, `clock, `heard, `ringUnused, `maxShard, `requestCounter, `asked, `routes, bitmap
      ensures Valid() && old(asked) <= asked <= old(asked) + ForBlocks(base, lsns, mask)
      ensures old(routes) <= routes <= old(routes) + ForBlocks(base, Same(shard, n), mask)
      ensures o == Done ==> Covers(asked, base, lsns, n, mask, isPrefetch, got)
      ensures o == Done ==> Latest(top, n, mask) && LastHeld(index, top, base, lsns, isPrefetch)
      ensures o == Done && flushEvery > 0 ==> ringUnused - ringFlush < flushEvery
      ensures o == Done && n == 1 && mask == {} ==> Registered(index, base, lsns[0], isPrefetch)
      ensures o == Lost ==> |script| < |old(script)|
      ensures Onward()
      ensures o == Cancelled ==> cancels > old(cancels)
    {
      hide Follows, Spent, LiveOf, Inv, Bitmap.Bits, Covers, Latest, Later, ForBlocks, Same;
      o, index, got, top := RegisterPass(base, shard, lsns, n, mask, isPrefetch);
      if o == Done {
        o := FlushSometimes();
      }
    }

    /** Registers up to a ring's worth of blocks, starting over whenever connections were lost. */
    method RegisterBufferV(base: Tag, shard: nat, lsns: seq<Lsns>, nblocks: nat, mask: set<nat>,
                           isPrefetch: bool)
        returns (o: Outcome, index: Option<nat>, ghost got: map<nat, Lsns>, ghost top: Option<Place>)
      requires Valid() && shard < MAX_SHARDS && tail == Idle
      requires 1 <= |lsns| && nblocks <= |lsns| && forall l :: l in lsns ==> WellFormed(l)
      modifies `ringLast, `ringReceive, `ringFlush, `hash, `nBuffered, `nInflight, `conns, buf
      modifies `script, `cancels, `clock, `heard, `ringUnused, `maxShard, `requestCounter, `asked, `routes, bitmap
      ensures Valid() && o != Lost
      ensures old(asked) <= asked <= old(asked) + ForBlocks(base, lsns, mask)
      ensures old(routes) <= routes <= old(routes) + ForBlocks(base, Same(shard, Capped(nblocks, buf.Length)), mask)
      ensures o == Done ==> Covers(asked, base, lsns, Capped(nblocks, buf.Length), mask, isPrefetch, got)
      ensures o == Done ==> forall i: nat :: i < nblocks && i < buf.Length && i !in mask ==> i in got
      ensures o == Done ==> forall i: nat :: i in got ==> i < buf.Length && (i < nblocks || i == 0)
      ensures o == Done ==>
        Latest(top, Capped(nblocks, buf.Length), mask) && LastHeld(index, top, base, lsns, isPrefetch)
      ensures o == Done && flushEvery > 0 ==> ringUnused - ringFlush < flushEvery
      ensures o == Done && nblocks == 1 && mask == {} ==> Registered(index, base, lsns[0], isPrefetch)
      ensures Onward()
      ensures o == Cancelled ==> cancels > old(cancels)
    {
      hide Follows, Spent, LiveOf, Inv, Bitmap.Bits, Covers, Latest, LastHeld, ForBlocks, Same, Registered, View;
      var n := Capped(nblocks, buf.Length);
      o, index, got, top := TryRegister(base, shard, lsns, n, mask, isPrefetch);
      while o == Lost
        invariant Valid() && Onward()
        invariant old(asked) <= asked <= old(asked) + ForBlocks(base, lsns, mask)
        invariant old(routes) <= routes <= old(routes) + ForBlocks(base, Same(shard, n), mask)
        invariant o == Done ==> Covers(asked, base, lsns, n, mask, isPrefetch, got)
        invariant o == Done ==> Latest(top, n, mask) && LastHeld(index, top, base, lsns, isPrefetch)
        invariant o == Done && flushEvery > 0 ==> ringUnused - ringFlush < flushEvery
        invariant o == Done && n == 1 && mask == {} ==> Registered(index, base, lsns[0], isPrefetch)
        invariant o == Cancelled ==> cancels > old(cancels)
        decreases |script|, o == Lost
      {
        o, index, got, top := TryRegister(base, shard, lsns, n, mask, isPrefetch);
      }
      if o == Done {
        CoversCapped(asked, base, lsns, nblocks, buf.Length, mask, isPrefetch, got);
      }
    }

    /** Looks for a slot whose request is usable, discarding one that is not. */
    method FindUsable(tag: Tag, lsns: Lsns) returns (o: Outcome, found: Option<nat>)
      requires Valid()
      modifies `ringLast, `ringReceive, `ringFlush, `hash, `nBuffered, `nInflight, `conns, buf
      modifies `script, `cancels, `clock, `heard, `maxShard, bitmap
      ensures Valid() && LaterBut(old(View()), View(), {tag}) && o != Lost
      ensures found.Some? ==> Registered(found, tag, lsns, false)
      ensures o == Done && found.None? ==> tag !in hash
      ensures Onward()
      ensures o == Cancelled ==> cancels > old(cancels)
    {
      hide Follows, Spent, LiveOf, Inv, Bitmap.Bits, Found;
      o := Lost;
      found := None;
      while o == Lost
        invariant Valid() && LaterBut(old(View()), View(), {tag})
        invariant Onward()
        invariant found.Some? ==> Registered(found, tag, lsns, false)
        invariant o == Done && found.None? ==> tag !in hash
        invariant o == Cancelled ==> cancels > old(cancels)
        decreases |script|, o == Lost
      {
        o := Done;
        found := None;
        if tag in hash {
          var i := hash[tag];
          HashFinds(View(), tag, history);
          var slot := ReadSlot(i);
          if Usable(lsns, slot.lsns) {
            found := Some(i);
          } else if slot.status == Requested {
            o := WaitAndDiscard(i);
          } else {
            SlotBuffered(View(), i, history);
            Discard(i);
          }
        }
      }
    }

    /** Waits for the slot found, or registers the block and waits for its slot. */
    method AwaitOnce(tag: Tag, shard: nat, lsns: Lsns, found: Option<nat>) returns (o: Outcome, index: nat)
      requires Valid() && shard < MAX_SHARDS && WellFormed(lsns) && tail == Idle
      requires found.Some? ==> Registered(found, tag, lsns, false)
      modifies `ringLast, `ringReceive, `ringFlush, `hash, `nBuffered, `nInflight, `conns, buf
      modifies `script, `cancels, `clock, `heard, `ringUnused, `maxShard, `requestCounter, `asked, `routes, bitmap
      ensures Valid() && old(asked) <= asked <= old(asked) + {(tag, lsns)}
      ensures old(routes) <= routes <= old(routes) + {(tag, shard)}
      ensures o == Done ==> Registered(Some(index), tag, lsns, false) && index < ringReceive
      ensures o == Lost ==> |script| < |old(script)|
      ensures Onward()
      ensures o == Cancelled ==> cancels > old(cancels)
    {
      hide Follows, Spent, LiveOf, Inv, Bitmap.Bits, Covers, Latest, LastHeld, Found, Kept;
      var slot := found;
      if found.None? {
        ghost var got, top;
        o, slot, got, top := RegisterBufferV(tag, shard, [lsns], 1, {}, false);
        if o != Done {
          return o, 0;
        }
      }
      index := slot.value;
      o := WaitFor(index);
    }

    /** Waits until some slot holds a response that is usable for the block. */
    method AwaitBlock(tag: Tag, shard: nat, lsns: Lsns) returns (o: Outcome, index: nat)
      requires Valid() && shard < MAX_SHARDS && WellFormed(lsns) && tail == Idle
      modifies `ringLast, `ringReceive, `ringFlush, `hash, `nBuffered, `nInflight, `conns, buf
      modifies `script, `cancels, `clock, `heard, `ringUnused, `maxShard, `requestCounter, `asked, `routes, bitmap
      ensures Valid() && o != Lost
      ensures old(asked) <= asked <= old(asked) + {(tag, lsns)}
      ensures old(routes) <= routes <= old(routes) + {(tag, shard)}
      ensures o == Done ==> Registered(Some(index), tag, lsns, false) && index < ringReceive
      ensures Onward()
      ensures o == Cancelled ==> cancels > old(cancels)
    {
      hide Follows, Spent, LiveOf, Inv, Bitmap.Bits, Found, Kept;
      index := 0;
      var found;
      o, found := FindUsable(tag, lsns);
      if o != Done {
        return;
      }
      o, index := AwaitOnce(tag, shard, lsns, found);
      while o == Lost
        invariant Valid() && Onward()
        invariant old(asked) <= asked <= old(asked) + {(tag, lsns)}
        invariant old(routes) <= routes <= old(routes) + {(tag, shard)}
        invariant o == Done ==> Registered(Some(index), tag, lsns, false) && index < ringReceive
        invariant o == Cancelled ==> cancels > old(cancels)
        decreases |script|, o == Lost
      {
        o, index := AwaitOnce(tag, shard, lsns, None);
      }
    }

    /** Hands out the response buffered in slot `i` and releases the slot; an error stays where it is. */
    method TakeResponse(i: nat, tag: Tag, lsns: Lsns) returns (r: ReadResult, used: Lsns, at: Lsn)
      requires Valid() && i < ringReceive && i in View().live && View().live[i].tag == tag
      requires Usable(lsns, View().live[i].lsns)
      modifies `ringLast, `hash, `nBuffered, buf
      ensures Valid()
      ensures r.PageRead? ==> Delivered(history, Knows(), tag, lsns, used, at, r.page) && tag !in hash
      ensures !r.PageRead? ==> r == ReadFailed && ServerError(Found(View(), tag), lsns)
    {
      hide Follows, Spent, LiveOf, Inv, Bitmap.Bits, Found;
      used, at := lsns, 0;
      BufferedAnswer(View(), i, history);
      FoundAt(View(), i, history);
      var slot := ReadSlot(i);
      var resp := slot.response.value;
      if resp.ErrorResponse? {
        return ReadFailed, used, at;
      }
      if !resp.PageResponse? || (protocolVersion >= 3 && resp.req != GetPage(tag, slot.reqid,
                                   slot.lsns.request, slot.lsns.notModifiedSince)) {
        return BrokenState, used, at;
      }
      used, at := slot.lsns, resp.at;
      r := PageRead(resp.page);
      Discard(i);
      InvOrdered(View(), history);
      InvTight(View(), history);
      CleanupTrailingUnused();
    }

    /** Reads one block. */
    method ReadBlock(tag: Tag, shard: nat, lsns: Lsns)
        returns (r: ReadResult, used: Lsns, at: Lsn)
      requires Valid() && shard < MAX_SHARDS && WellFormed(lsns) && tail == Idle
      modifies `ringLast, `ringReceive, `ringFlush, `hash, `nBuffered, `nInflight, `conns, buf
      modifies `script, `cancels, `clock, `heard, `ringUnused, `maxShard, `requestCounter, `asked, `routes, bitmap
      ensures Valid() && old(asked) <= asked <= old(asked) + {(tag, lsns)}
      ensures old(routes) <= routes <= old(routes) + {(tag, shard)}
      ensures r.PageRead? ==> Delivered(history, Knows(), tag, lsns, used, at, r.page) && tag !in hash
      ensures r != BrokenState && r != Skipped && Onward()
      ensures r == ReadCancelled ==> cancels > old(cancels)
      ensures r == ReadFailed ==> ServerError(Found(View(), tag), lsns)
    {
      hide Follows, Spent, LiveOf, Inv, Bitmap.Bits, Found, Delivered, ServerError;
      var o, i := AwaitBlock(tag, shard, lsns);
      if o != Done {
        return ReadCancelled, lsns, 0;
      }
      r, used, at := TakeResponse(i, tag, lsns);
    }

    /** Reads the next block of a run, unless it is masked. */
    method ReadNext(base: Tag, shard: nat, lsns: seq<Lsns>, mask: set<nat>,
                    r: seq<ReadResult>, used: seq<Lsns>, at: seq<Lsn>)
        returns (x: ReadResult, u: Lsns, a: Lsn)
      requires Valid() && shard < MAX_SHARDS && tail == Idle
      requires |r| == |used| == |at| < |lsns| && WellFormed(lsns[|r|])
      requires AllDelivered(history, Knows(), base, lsns, r, used, at)
      modifies `ringLast, `ringReceive, `ringFlush, `hash, `nBuffered, `nInflight, `conns, buf
      modifies `script, `cancels, `clock, `heard, `ringUnused, `maxShard, `requestCounter, `asked, `routes, bitmap
      ensures Valid() && old(asked) <= asked && (|r| in mask ==> asked == old(asked) && routes == old(routes))
      ensures old(routes) <= routes <= old(routes) + {(base.(block := base.block + |r|), shard)}
      ensures asked <= old(asked) + {(base.(block := base.block + |r|), lsns[|r|])}
      ensures x == Skipped <==> |r| in mask
      ensures AllDelivered(history, Knows(), base, lsns, r + [x], used + [u], at + [a])
      ensures x.PageRead? || x == Skipped || x == ReadFailed || x == ReadCancelled
      ensures Onward() && (x == ReadCancelled ==> cancels > old(cancels))
      ensures x == ReadFailed ==> ServerError(Found(View(), base.(block := base.block + |r|)), lsns[|r|])
    {
      hide Follows, Spent, LiveOf, Inv, Bitmap.Bits, AllDelivered, Delivered, Found, Usable;
      x, u, a := Skipped, lsns[|r|], 0;
      if |r| !in mask {
        x, u, a := ReadBlock(base.(block := base.block + |r|), shard, lsns[|r|]);
      }
      DeliveredMore(history, old(Knows()), Knows(), base, lsns, r, used, at, x, u, a);
    }

    /** Reads the blocks of a run one after the other, each from its own shard when it has to be requested. */
    method ReadEach(base: Tag, shards: seq<nat>, lsns: seq<Lsns>, mask: set<nat>)
        returns (r: seq<ReadResult>, used: seq<Lsns>, at: seq<Lsn>)
      requires Valid() && |shards| == |lsns| && tail == Idle
      requires forall i :: 0 <= i < |shards| ==> shards[i] < MAX_SHARDS
      requires forall l :: l in lsns ==> WellFormed(l)
      modifies `ringLast, `ringReceive, `ringFlush, `hash, `nBuffered, `nInflight, `conns, buf
      modifies `script, `cancels, `clock, `heard, `ringUnused, `maxShard, `requestCounter, `asked, `routes, bitmap
      ensures Valid() && old(asked) <= asked <= old(asked) + ForBlocks(base, lsns, mask)
      ensures old(routes) <= routes <= old(routes) + ForBlocks(base, shards, mask)
      ensures |r| == |used| == |at| <= |lsns| && Onward()
      ensures forall i :: 0 <= i < |r| ==> (r[i] == Skipped <==> i in mask)
      ensures forall i :: 0 <= i < |r| ==> r[i].PageRead? || r[i] == Skipped || i == |r| - 1
      ensures cancels == old(cancels) ==> AllRead(r, |lsns|) || Refused(View(), base, lsns, r)
      ensures r != [] && r[|r| - 1] == ReadFailed ==> Refused(View(), base, lsns, r)
      ensures AllDelivered(history, Knows(), base, lsns, r, used, at)
    {
      hide Follows, Spent, LiveOf, Inv, Bitmap.Bits, ForBlocks, AllDelivered, Found, View, ServerError;
      r, used, at := [], [], [];
      NoneDelivered(history, Knows(), base, lsns);
      for i := 0 to |lsns|
        invariant Valid() && old(asked) <= asked <= old(asked) + ForBlocks(base, lsns, mask)
        invariant old(routes) <= routes <= old(routes) + ForBlocks(base, shards, mask)
        invariant Onward()
        invariant |r| == |used| == |at| == i && AllRead(r, i)
        invariant forall k :: 0 <= k < |r| ==> (r[k] == Skipped <==> k in mask)
        invariant AllDelivered(history, Knows(), base, lsns, r, used, at)
      {
        var x, u, a := ReadNext(base, shards[i], lsns, mask, r, used, at);
        r, used, at := r + [x], used + [u], at + [a];
        if !x.PageRead? && x != Skipped {
          return;
        }
      }
    }

    /** Reads a run of blocks: all are registered with the shard of the first, as far as the ring can take them,
        and then read one by one. Blocks in `mask` are left alone. Every block gets its page, unless the server
        answers one with an error or the query is cancelled. */
    method ReadAtLsnV(base: Tag, shards: seq<nat>, lsns: seq<Lsns>, mask: set<nat>)
        returns (r: seq<ReadResult>, used: seq<Lsns>, at: seq<Lsn>)
      requires Valid() && |shards| == |lsns| && tail == Idle
      requires forall i :: 0 <= i < |shards| ==> shards[i] < MAX_SHARDS
      requires 1 <= |lsns| && forall l :: l in lsns ==> WellFormed(l)
      modifies `ringLast, `ringReceive, `ringFlush, `hash, `nBuffered, `nInflight, `conns, buf
      modifies `script, `cancels, `clock, `heard, `ringUnused, `maxShard, `requestCounter, `asked, `routes, bitmap
      ensures Valid() && old(asked) <= asked <= old(asked) + ForBlocks(base, lsns, mask)
      ensures old(routes) <= routes <= old(routes) + Routes(base, shards, mask, buf.Length)
      ensures |r| == |used| == |at| <= |lsns| && Onward()
      ensures forall i :: 0 <= i < |r| ==> (r[i] == Skipped <==> i in mask)
      ensures forall i :: 0 <= i < |r| ==> r[i].PageRead? || r[i] == Skipped || i == |r| - 1
      ensures cancels == old(cancels) ==> AllRead(r, |lsns|) || Refused(View(), base, lsns, r)
      ensures r != [] && r[|r| - 1] == ReadFailed ==> Refused(View(), base, lsns, r)
      ensures AllDelivered(history, Knows(), base, lsns, r, used, at)
    {
      hide Follows, Spent, LiveOf, Inv, Bitmap.Bits, ForBlocks, Same, AllDelivered, AllRead, Refused, Covers, Latest,
        LastHeld, Registered, Found, View, ServerError;
      r, used, at := [], [], [];
      var o, _, _, _ := RegisterBufferV(base, shards[0], lsns, |lsns|, mask, false);
      NoneDelivered(history, Knows(), base, lsns);
      if o == Done {
        r, used, at := ReadEach(base, shards, lsns, mask);
      }
    }

    // ---------- Resizing ----------

    static method StoreCopy(nbuf: array<Slot>, nfree: nat, slot: Slot, ghost n: State)
      requires Holds(nbuf[..], n.live) && slot.status != Unused
      requires nfree + 1 == n.last <= nbuf.Length && n.last <= n.receive
      modifies nbuf
      ensures Holds(nbuf[..], Prepend(n, slot).live)
    {
      ghost var was := nbuf[..];
      nbuf[nfree] := slot.(myIndex := nfree);
      assert nbuf[..] == was[nfree := slot.(myIndex := nfree)];
    }

    /** Copies entries into a fresh buffer, newest first, until it is full or all are copied. `end` runs
        down as an unsigned 64-bit number, so that 0 is followed by UINT64_MAX. */
    method CopyNewest(size: nat)
        returns (nbuf: array<Slot>, nhash: map<Tag, nat>, nfree: nat, nreceive: nat, nb: int, ni: int,
                 end: nat, ghost n: State, ghost e: nat)
      requires Valid() && 0 < size && ringUnused <= UINT64_MAX
      ensures fresh(nbuf) && nbuf.Length == size && Holds(nbuf[..], n.live)
      ensures ringLast <= e <= ringUnused && CopyOf(View(), n, e, history) && n.size == size
      ensures nhash == n.hash && nfree == n.last && nreceive == n.receive
      ensures nb == n.buffered && ni == n.inflight
      ensures e == ringLast || nfree == 0
      ensures end == Decrement(e)
    {
      hide Follows, Spent, LiveOf, Inv, Core, Bitmap.Bits, CopyOf, Holds;
      ghost var s := View();
      InvOrdered(s, history);
      InvCore(s, history);
      CopyStart(s, size, history);
      nbuf := new Slot[size](_ => BLANK);
      NothingHeld(nbuf[..]);
      nhash, nfree, nreceive, nb, ni := map[], size, size, 0, 0;
      n, e := Empty(s, size), ringUnused;
      end := Decrement(ringUnused);
      while end >= ringLast && end != UINT64_MAX && nfree != 0
        invariant nbuf.Length == size && fresh(nbuf) && Holds(nbuf[..], n.live) && n.size == size
        invariant View() == s
        invariant ringLast <= e <= ringUnused && CopyOf(s, n, e, history)
        invariant nhash == n.hash && nfree == n.last <= size && nreceive == n.receive
        invariant nb == n.buffered && ni == n.inflight
        invariant end == Decrement(e)
        decreases e
      {
        assert end == e - 1;
        var slot := ReadSlot(end);
        if slot.status == Unused {
          CopyGap(s, n, e, history);
        } else {
          CopyEntry(s, n, e, history);
          nfree := nfree - 1;
          StoreCopy(nbuf, nfree, slot, n);
          nhash := nhash[slot.tag := nfree];
          if slot.status == Requested {
            ni := ni + 1;
            nreceive := nreceive - 1;
          } else {
            nb := nb + 1;
          }
          n := Prepend(n, slot);
        }
        e := e - 1;
        end := Decrement(end);
      }
    }

    /** Frees the responses that were not copied. */
    method FreeRest(start: nat, ghost e: nat) returns (freed: nat)
      requires Valid() && ringLast <= e <= ringReceive && ringUnused <= UINT64_MAX
      requires start == Decrement(e)
      ensures freed == |Contents(View().live, ringLast, e)|
    {
      hide Follows, Spent, LiveOf, Inv, Bitmap.Bits, Contents;
      InvOrdered(View(), history);
      var end := start;
      ghost var k := e;
      freed := 0;
      ContentsEmpty(View().live, e);
      while end >= ringLast && end != UINT64_MAX
        invariant ringLast <= k <= e && end == Decrement(k)
        invariant freed == |Contents(View().live, k, e)|
        decreases k
      {
        var slot := ReadSlot(end);
        ContentsBack(View().live, ringLast, k, e);
        if slot.status != Unused {
          assert slot.status == Received by { BufferedAnswer(View(), end, history); }
          freed := freed + 1;
        }
        k := k - 1;
        end := Decrement(end);
      }
    }

    /** Waits for the requests that would not fit a ring of `size` slots. */
    method WaitUntilFits(size: nat) returns (o: Outcome)
      requires Valid()
      modifies `ringLast, `ringReceive, `ringFlush, `hash, `nBuffered, `nInflight, `conns, buf
      modifies `script, `cancels, `clock, `heard, `maxShard, bitmap
      ensures Valid() && Later(old(View()), View()) && o != Lost
      ensures old(nInflight) <= size ==> View() == old(View()) && o == Done
      ensures o == Done ==> nInflight <= size
      ensures Onward()
      ensures o == Cancelled ==> cancels > old(cancels)
    {
      hide Follows, Spent, LiveOf, Inv, Core, Bitmap.Bits;
      o := Done;
      InvCore(View(), history);
      InvOrdered(View(), history);
      InflightCount(View(), history);
      if nInflight > size {
        SlotOutstanding(View(), ringUnused - size - 1, history);
        o := WaitFor(ringUnused - size - 1);
        InvCore(View(), history);
        InflightCount(View(), history);
        if o == Lost {
          o := Done;
        }
      }
    }

    /** Replaces the ring by the copy `n`. */
    method Install(nbuf: array<Slot>, nhash: map<Tag, nat>, nfree: nat, nreceive: nat, nb: int, ni: int,
                   ghost n: State)
      requires Rep() && 0 < nbuf.Length && nbuf as object != bitmap as object
      requires LiveOf(nbuf[..], nfree) == n.live
      requires n == View().(size := nbuf.Length, live := n.live, hash := nhash, last := nfree,
                            receive := nreceive, flush := nreceive, unused := nbuf.Length,
                            buffered := nb, inflight := ni)
      modifies `buf, `hash, `ringLast, `ringReceive, `ringFlush, `ringUnused, `nBuffered, `nInflight
      ensures Rep() && buf == nbuf
      ensures View() == n
    {
      hide Follows, Spent, LiveOf, Bitmap.Bits;
      assert Bitmap.Bits(bitmap[..]) == n.dirty && conns == n.conns && maxShard == n.maxShard;
      buf := nbuf;
      hash := nhash;
      ringLast, ringReceive, ringFlush, ringUnused := nfree, nreceive, nreceive, nbuf.Length;
      nBuffered, nInflight := nb, ni;
    }

    /** Changes the size of the ring. `mid` is the state after waiting for the requests that would not fit. */
    method Resize(size: nat) returns (o: Outcome, freed: nat, ghost mid: State)
      requires Valid() && 0 < size && ringUnused <= UINT64_MAX
      modifies this, buf, bitmap
      ensures bitmap == old(bitmap) && (o == Done ==> fresh(buf)) && (o != Done ==> buf == old(buf))
      ensures Valid() && Inv(mid, history) && Later(old(View()), mid)
      ensures old(nInflight) <= size ==> mid == old(View()) && o == Done
      ensures o != Lost
      ensures o != Done ==> View() == mid
      ensures o == Done ==> mid.last <= mid.unused && ringLast <= ringUnused && Resized(mid, View())
      ensures o == Done ==> buf.Length == size && freed == mid.buffered - nBuffered
      ensures Onward()
      ensures o == Cancelled ==> cancels > old(cancels)
    {
      hide Follows, Spent, LiveOf, Inv, Core, Bitmap.Bits, CopyOf, Contents, Holds, Resized;
      freed := 0;
      o := WaitUntilFits(size);
      mid := View();
      if o != Done {
        return;
      }
      InvCore(mid, history);
      InvOrdered(mid, history);
      var nbuf, nhash, nfree, nreceive, nb, ni, end;
      ghost var n, e;
      nbuf, nhash, nfree, nreceive, nb, ni, end, n, e := CopyNewest(size);
      OutstandingCopied(mid, n, e, history);
      CopyIsResized(mid, n, e, history);
      ResizedInv(mid, n, e, history);
      LeftBehind(mid, n, e, history);
      freed := FreeRest(end, e);
      InvOrdered(n, history);
      CopyShape(mid, n, e, history);
      FirstRound(nbuf[..], nfree, n.live);
      Install(nbuf, nhash, nfree, nreceive, nb, ni, n);
    }

    // ---------- Synchronous requests ----------

    ghost method BeginTail(shard: nat, req: Request, mid: State)
      requires Rep() && Inv(mid, history) && mid.tail == Idle
      requires View() == Sent(mid, shard, req)
      modifies `tail
      ensures Valid() && tail == Busy(shard, req, false)
      ensures Kept(mid, View(), {})
    {
      hide Follows, Spent, LiveOf, Inv, Bitmap.Bits, Sent;
      TailKeeps(mid, shard, req, history);
      tail := Busy(shard, req, false);
      assert View() == WithTail(mid, shard, req);
    }

    ghost method ForgetTail()
      requires Valid() && tail.Busy? && tail.shard !in conns
      modifies `tail
      ensures Valid() && tail == Idle
      ensures Kept(old(View()), View(), {})
    {
      hide Follows, Spent, LiveOf, Inv, Bitmap.Bits;
      TailGone(View(), history);
      tail := Idle;
    }

    ghost method EndTail(s: State, resp: Response)
      requires Rep() && s.tail.Busy? && Inv(TailDone(s, clock, resp), history)
      requires View() == s.(conns := TailDone(s, clock, resp).conns, known := TailDone(s, clock, resp).known)
      modifies `tail
      ensures Valid() && tail == Idle
      ensures Kept(old(View()), View(), {})
    {
      hide Follows, Spent, LiveOf, Inv, Bitmap.Bits;
      tail := Idle;
      assert View() == TailDone(s, clock, resp);
    }

    /** Flushes the synchronous request that was just written. */
    method FlushSync(shard: nat) returns (o: Outcome)
      requires Valid() && tail.Busy? && tail.shard == shard && !tail.flushed
      modifies `ringLast, `ringReceive, `ringFlush, `hash, `nBuffered, `nInflight, `conns, buf, `script, `cancels
      modifies `tail
      ensures Valid() && Kept(old(View()), View(), {})
      ensures o == Done ==> tail == Busy(shard, old(tail).req, true)
      ensures o != Done ==> o == Lost && tail == Idle
      ensures |script| <= |old(script)| && cancels >= old(cancels)
    {
      hide Follows, Spent, LiveOf, Inv, Bitmap.Bits, FlushShard, Fine;
      TailOutKeeps(View(), history);
      var flushed := FlushConn(shard);
      if flushed {
        tail := tail.(flushed := true);
        return Done;
      }
      ForgetTail();
      return Lost;
    }

    /** Sends a synchronous request and flushes it. */
    method SendSync(shard: nat, draft: Request) returns (o: Outcome, req: Request)
      requires Valid() && tail == Idle
      modifies `ringLast, `ringReceive, `ringFlush, `hash, `nBuffered, `nInflight, `conns, buf, `script, `cancels
      modifies `requestCounter, `tail
      ensures Valid() && asked == old(asked)
      ensures o == Done ==> tail == Busy(shard, req, true)
      ensures o == Done ==> req == draft.(reqid := req.reqid)
      ensures o != Done ==> tail == Idle
      ensures o != Cancelled ==> |script| < |old(script)|
      ensures |script| <= |old(script)| && cancels >= old(cancels)
      ensures o == Cancelled ==> cancels > old(cancels)
      ensures Kept(old(View()), View(), {})
    {
      hide Follows, Spent, LiveOf, Inv, Bitmap.Bits, Sent, Fine, Found;
      ghost var mid;
      o, req, mid := Send(shard, draft);
      if o == Done {
        BeginTail(shard, req, mid);
        o := FlushSync(shard);
      }
    }

    /** Receives the response to the synchronous request after everything queued before it. */
    method AwaitSync(shard: nat) returns (o: Outcome, resp: Response)
      requires Valid() && tail.Busy? && tail.shard == shard && tail.flushed
      modifies `ringLast, `ringReceive, `ringFlush, `hash, `nBuffered, `nInflight, `conns, buf
      modifies `script, `cancels, `clock, `heard, `maxShard, bitmap, `tail
      ensures Valid() && asked == old(asked)
      ensures o == Done ==> Answers(history, old(tail).req, resp) && resp in heard
      ensures o != Cancelled ==> tail == Idle
      ensures Onward()
      ensures o == Cancelled ==> cancels > old(cancels)
      ensures Kept(old(View()), View(), {})
      ensures o == Cancelled ==> tail == old(tail)
    {
      hide Follows, Spent, LiveOf, Inv, Bitmap.Bits;
      resp := ErrorResponse(Metadata(0, 0, 0, 0));
      o := ConsumeResponses();
      if o == Cancelled {
        return;
      }
      if shard !in conns {
        ForgetTail();
        return Lost, resp;
      }
      TailIsNext(View(), history);
      ghost var s := View();
      o, resp := Receive(shard, Wait);
      if o == Done {
        assert s.conns[shard].queue[1..] == [];
        TailDoneKeeps(s, clock, resp, history);
        EndTail(s, resp);
      } else if o == Lost {
        ForgetTail();
      }
    }

    /** Is a prefetch request outstanding on the shard? */
    method Outstanding(shard: nat) returns (r: bool)
      requires Rep() && ringLast <= ringReceive <= ringUnused <= ringLast + buf.Length
      ensures r <==> Pending(View(), shard) != []
    {
      hide Follows, Spent, LiveOf, Bitmap.Bits;
      for i := ringReceive to ringUnused
        invariant Owed(View().live, ringReceive, i, shard) == []
      {
        var slot := ReadSlot(i);
        if slot.status != Unused && slot.shard == shard {
          OwedSplit(View().live, ringReceive, i + 1, ringUnused, shard);
          return true;
        }
      }
      return false;
    }

    /** What is done when a synchronous request is cancelled: only its own connection is closed. */
    method CloseAfterCancel(shard: nat)
      requires Valid() && (tail == Idle || tail.shard == shard)
      modifies `conns, `tail
      ensures Rep() && tail == Idle
      ensures ringLast <= ringReceive <= ringUnused <= ringLast + buf.Length
      ensures Valid() <==> Pending(View(), shard) == []
      ensures Kept(old(View()), View(), {})
    {
      hide Follows, Spent, LiveOf, Inv, Bitmap.Bits, Owed;
      InvOrdered(View(), history);
      SyncCancelledKeeps(View(), shard, history);
      conns := conns - {shard};
      tail := Idle;
    }

    /** One attempt at a request outside the prefetch ring. */
    method TrySync(shard: nat, draft: Request) returns (o: Outcome, resp: Response, req: Request)
      requires Valid() && tail == Idle
      modifies `ringLast, `ringReceive, `ringFlush, `hash, `nBuffered, `nInflight, `conns, buf
      modifies `script, `cancels, `clock, `heard, `maxShard, bitmap, `requestCounter, `tail
      ensures Valid() && asked == old(asked) && Kept(old(View()), View(), {})
      ensures o == Done ==> Answers(history, req, resp) && resp in heard && req == draft.(reqid := req.reqid)
      ensures o != Cancelled ==> tail == Idle
      ensures (tail == Idle || tail.shard == shard)
      ensures o == Lost ==> |script| < |old(script)|
      ensures Onward()
      ensures o == Cancelled ==> cancels > old(cancels)
    {
      hide Follows, Spent, LiveOf, Inv, Bitmap.Bits, Found;
      resp := ErrorResponse(draft);
      o, req := SendSync(shard, draft);
      if o == Done {
        o, resp := AwaitSync(shard);
      }
    }

    /** A request outside the prefetch ring. A cancelled request leaves a consistent ring exactly when no
        prefetch request is outstanding on the shard whose connection it closes. */
    method SyncRequest(shard: nat, draft: Request) returns (o: Outcome, resp: Response, req: Request)
      requires Valid() && tail == Idle
      modifies `ringLast, `ringReceive, `ringFlush, `hash, `nBuffered, `nInflight, `conns, buf
      modifies `script, `cancels, `clock, `heard, `maxShard, bitmap, `requestCounter, `tail
      ensures o != Lost && tail == Idle && asked == old(asked) && Rep()
      ensures o == Done ==> Valid() && Answers(history, req, resp) && resp in heard
      ensures o == Done ==> req == draft.(reqid := req.reqid)
      ensures o == Cancelled ==> ringLast <= ringReceive <= ringUnused <= ringLast + buf.Length
      ensures o == Cancelled ==> (Valid() <==> Pending(View(), shard) == [])
      ensures Onward()
      ensures o == Cancelled ==> cancels > old(cancels)
      ensures Kept(old(View()), View(), {})
    {
      hide Follows, Spent, LiveOf, Inv, Bitmap.Bits, Pending, Found;
      o, resp, req := TrySync(shard, draft);
      while o == Lost
        invariant Valid() && asked == old(asked) && Kept(old(View()), View(), {}) && Onward()
        invariant o == Done ==> Answers(history, req, resp) && resp in heard && req == draft.(reqid := req.reqid)
        invariant o != Cancelled ==> tail == Idle
        invariant (tail == Idle || tail.shard == shard)
        invariant o == Cancelled ==> cancels > old(cancels)
        decreases |script|, o == Lost
      {
        o, resp, req := TrySync(shard, draft);
      }
      if o == Cancelled {
        CloseAfterCancel(shard);
      }
    }

    // ---------- Lookups ----------

    /** Takes a usable response that has already been received: exactly when there is one. */
    method LookupBlock(tag: Tag, lsns: Lsns) returns (r: ReadResult, used: Lsns, at: Lsn)
      requires Valid()
      modifies `ringLast, `hash, `nBuffered, buf
      ensures Valid() && LaterBut(old(View()), View(), {tag})
      ensures r.PageRead? <==> Hit(Found(old(View()), tag), lsns)
      ensures r.PageRead? ==> r.page == Found(old(View()), tag).value.response.value.page
      ensures forall t :: Found(View(), t) == if t == tag && r.PageRead? then None else Found(old(View()), t)
      ensures r.PageRead? ==> Delivered(history, Knows(), tag, lsns, used, at, r.page)
    {
      hide Follows, Spent, LiveOf, Inv, Bitmap.Bits;
      r, used, at := Skipped, lsns, 0;
      if tag !in hash {
        return;
      }
      var i := hash[tag];
      HashFinds(View(), tag, history);
      var slot := ReadSlot(i);
      if slot.status != Received || !Usable(lsns, slot.lsns) {
        return;
      }
      SlotBuffered(View(), i, history);
      BufferedAnswer(View(), i, history);
      var resp := slot.response.value;
      if resp.PageResponse? {
        r, used, at := PageRead(resp.page), slot.lsns, resp.at;
        Discard(i);
      }
    }

    /** Takes the responses already received for a run of blocks: every block that has a usable one gets its
        page, and no other response is touched. */
    method LookupV(base: Tag, lsns: seq<Lsns>)
        returns (r: seq<ReadResult>, used: seq<Lsns>, at: seq<Lsn>, hits: nat)
      requires Valid()
      modifies `ringLast, `hash, `nBuffered, buf
      ensures Valid() && old(asked) == asked && old(tail) == tail
      ensures |r| == |used| == |at| == |lsns| && hits == |ReadAt(r)|
      ensures forall i :: 0 <= i < |r| ==> LookedUp(old(View()), base.(block := base.block + i), lsns[i], r[i])
      ensures forall t :: Found(View(), t) == if Taken(base, r, t) then None else Found(old(View()), t)
      ensures AllDelivered(history, Knows(), base, lsns, r, used, at)
    {
      hide Follows, Spent, LiveOf, Inv, Bitmap.Bits, AllDelivered, Delivered, Found;
      r, used, at, hits := [], [], [], 0;
      NoneDelivered(history, Knows(), base, lsns);
      for i := 0 to |lsns|
        invariant Valid() && old(asked) == asked && old(tail) == tail
        invariant |r| == |used| == |at| == i && hits == |ReadAt(r)|
        invariant forall k :: 0 <= k < |r| ==> LookedUp(old(View()), base.(block := base.block + k), lsns[k], r[k])
        invariant forall t :: Found(View(), t) == if Taken(base, r, t) then None else Found(old(View()), t)
        invariant AllDelivered(history, Knows(), base, lsns, r, used, at)
      {
        var x, u, a := LookupBlock(base.(block := base.block + i), lsns[i]);
        DeliveredMore(history, Knows(), Knows(), base, lsns, r, used, at, x, u, a);
        TakenMore(base, r, x);
        ReadAtNext(r, x);
        r, used, at := r + [x], used + [u], at + [a];
        if x.PageRead? {
          hits := hits + 1;
        }
      }
    }

    /** Waits for an earlier prefetch of the block and gives the slot back. It fails only for a block that was
        not prefetched, after a cancellation, or when the connections were lost. */
    method PrefetchReceive(tag: Tag) returns (ok: bool)
      requires Valid()
      modifies `ringLast, `ringReceive, `ringFlush, `hash, `nBuffered, `nInflight, `conns, buf
      modifies `script, `cancels, `clock, `heard, `maxShard, bitmap
      ensures Valid() && LaterBut(old(View()), View(), {tag})
      ensures ok ==> tag in old(hash) && tag !in hash
      ensures !ok && tag in old(hash) ==> cancels > old(cancels) || ringReceive == ringUnused
      ensures Onward()
    {
      hide Follows, Spent, LiveOf, Inv, Bitmap.Bits;
      ok := false;
      if tag in hash {
        HashFinds(View(), tag, history);
        var o := WaitAndDiscard(hash[tag]);
        ok := o == Done;
      }
    }
  }
}
