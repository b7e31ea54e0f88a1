/** Resizing the ring: the newest entries are copied, newest first, into a fresh ring. */
module RingResize {
  import opened Options
  import opened PageTypes
  import opened Ring
  import opened RingSteps

  /** A ring of `size` slots with nothing in it, standing at the far end of its first round. */
  ghost function Empty(s: State, size: nat): State {
    s.(size := size, live := map[], hash := map[], last := size, receive := size, flush := size,
       unused := size, buffered := 0, inflight := 0)
  }

  /** Puts an entry in front of the oldest one. */
  ghost function Prepend(n: State, slot: Slot): State
    requires 0 < n.last <= n.receive
  {
    var i := n.last - 1;
    var t := n.(live := n.live[i := slot.(myIndex := i)], hash := n.hash[slot.tag := i], last := i);
    if slot.status == Requested then
      t.(receive := n.receive - 1, flush := n.receive - 1, inflight := n.inflight + 1)
    else t.(buffered := n.buffered + 1)
  }

  /** `n` holds the entries of `s` from ring index `e` on. */
  ghost predicate CopyOf(s: State, n: State, e: nat, history: History)
    requires s.last <= e <= s.unused
  {
    && Core(n, history) && Tight(n)
    && n.flush == n.receive && n.unused == n.size && n.last <= n.unused
    && n == s.(size := n.size, live := n.live, hash := n.hash, last := n.last, receive := n.receive,
               flush := n.flush, unused := n.unused, buffered := n.buffered, inflight := n.inflight)
    && Contents(n.live, n.last, n.unused) == Contents(s.live, e, s.unused)
    && n.inflight == s.unused - Max(e, s.receive)
    && n.buffered == n.receive - n.last
    && (e >= s.receive ==> n.last == n.receive)
    && (forall t :: t in n.hash ==> t in s.hash && s.hash[t] >= e)
  }

  lemma CopyStart(s: State, size: nat, history: History)
    requires Core(s, history) && 0 < size
    ensures CopyOf(s, Empty(s, size), s.unused, history)
  {
    var n := Empty(s, size);
    assert n.live.Keys == {};
  }

  ghost predicate Prependable(n: State, slot: Slot, history: History) {
    && 0 < n.last <= n.receive
    && slot.tag !in n.hash
    && slot.shard < MAX_SHARDS && WellFormed(slot.lsns) && (slot.tag, slot.lsns) in n.known.asked
    && (slot.tag, slot.shard) in n.known.routes
    && (slot.status == Requested ==> slot.response.None? && n.last == n.receive)
    && (slot.status != Requested ==> slot.status == Received && slot.response.Some?
                                     && Answers(history, RequestOf(slot), slot.response.value)
                                     && Reached(slot.response.value, n.known.clock)
                                     && slot.response.value in n.known.heard)
    && n.flush == n.receive && n.unused == n.size
  }

  lemma PrependPlaced(n: State, slot: Slot, history: History)
    requires Ordered(n) && Placed(n) && Prependable(n, slot, history)
    ensures Placed(Prepend(n, slot))
  {
    var t := Prepend(n, slot);
    forall i | i in t.live ensures SlotFits(t, i) {
      if i != t.last { assert SlotFits(n, i); }
    }
  }

  lemma PrependHashed(n: State, slot: Slot)
    requires Hashed(n) && 0 < n.last <= n.receive && slot.tag !in n.hash && n.last - 1 !in n.live
    ensures Hashed(Prepend(n, slot))
  {
  }

  lemma PrependCounted(n: State, slot: Slot)
    requires Counted(n) && 0 < n.last <= n.receive && n.last - 1 !in n.live
    ensures Counted(Prepend(n, slot))
  {
    GrowKeys(n.live, n.last - 1, slot.(myIndex := n.last - 1));
  }

  lemma CoreWindow(n: State, history: History)
    requires Core(n, history)
    ensures forall i :: i in n.live ==> n.last <= i < n.unused
  {
    forall i | i in n.live ensures n.last <= i < n.unused { assert SlotFits(n, i); }
  }

  lemma PrependAnswered(n: State, slot: Slot, history: History)
    requires Answered(n, history) && Prependable(n, slot, history)
    ensures Answered(Prepend(n, slot), history)
  {
  }

  lemma PrependKeepsCore(n: State, slot: Slot, history: History)
    requires Core(n, history) && Prependable(n, slot, history)
    ensures Core(Prepend(n, slot), history) && Tight(Prepend(n, slot))
  {
    CoreWindow(n, history);
    hide Placed, Hashed, Counted, Answered;
    PrependPlaced(n, slot, history);
    PrependHashed(n, slot);
    PrependCounted(n, slot);
    PrependAnswered(n, slot, history);
  }

  lemma PrependContents(n: State, slot: Slot)
    requires 0 < n.last <= n.receive <= n.unused
    ensures Contents(Prepend(n, slot).live, n.last - 1, n.unused)
         == [Bare(slot)] + Contents(n.live, n.last, n.unused)
  {
    var t := Prepend(n, slot);
    ContentsSplit(t.live, n.last - 1, n.last, n.unused);
    assert Contents(t.live, n.last - 1, n.last) == Contents(t.live, n.last - 1, n.last - 1) + Cell(t.live, n.last - 1);
    ContentsAgree(n.live, t.live, n.last, n.unused);
  }

  lemma ContentsStep(live: map<nat, Slot>, e: nat, hi: nat)
    requires 0 < e <= hi
    ensures Contents(live, e - 1, hi) == Cell(live, e - 1) + Contents(live, e, hi)
  {
    ContentsSplit(live, e - 1, e, hi);
    assert Contents(live, e - 1, e) == Contents(live, e - 1, e - 1) + Cell(live, e - 1);
  }

  lemma SlotFacts(s: State, i: nat, history: History)
    requires Core(s, history) && i in s.live
    ensures var slot := s.live[i];
      && slot.shard < MAX_SHARDS && WellFormed(slot.lsns) && (slot.tag, slot.lsns) in s.known.asked
      && (slot.tag, slot.shard) in s.known.routes
      && slot.tag in s.hash && s.hash[slot.tag] == i
      && (i >= s.receive ==> slot.status == Requested && slot.response.None?)
      && (i < s.receive ==> slot.status == Received && slot.response.Some?
                            && Answers(history, RequestOf(slot), slot.response.value)
                            && Reached(slot.response.value, s.known.clock)
                            && slot.response.value in s.known.heard)
  {
    assert SlotFits(s, i);
  }

  lemma EntryPrependable(s: State, n: State, e: nat, history: History)
    requires Core(s, history) && s.last < e <= s.unused && CopyOf(s, n, e, history)
    requires e - 1 in s.live && 0 < n.last
    ensures Prependable(n, s.live[e - 1], history)
  {
    hide Core, Contents;
    CoreOrdered(n, history);
    SlotFacts(s, e - 1, history);
  }

  /** Copying one more entry. */
  lemma CopyEntry(s: State, n: State, e: nat, history: History)
    requires Core(s, history) && s.last < e <= s.unused && CopyOf(s, n, e, history)
    requires e - 1 in s.live && 0 < n.last
    ensures n.last <= n.receive && CopyOf(s, Prepend(n, s.live[e - 1]), e - 1, history)
  {
    hide Core, Contents, Prependable;
    var slot := s.live[e - 1];
    EntryPrependable(s, n, e, history);
    CoreOrdered(n, history);
    SlotFacts(s, e - 1, history);
    PrependKeepsCore(n, slot, history);
    PrependContents(n, slot);
    ContentsStep(s.live, e, s.unused);
  }

  /** Skipping a gap. */
  lemma CopyGap(s: State, n: State, e: nat, history: History)
    requires Core(s, history) && s.last < e <= s.unused && CopyOf(s, n, e, history)
    requires e - 1 !in s.live
    ensures CopyOf(s, n, e - 1, history)
  {
    hide Core, Contents;
    CoreOrdered(s, history);
    ContentsStep(s.live, e, s.unused);
  }

  // ---------- The resized ring ----------

  lemma {:induction false} ContentsFull(live: map<nat, Slot>, lo: nat, hi: nat)
    requires lo <= hi
    requires forall i: nat :: lo <= i < hi ==> i in live
    ensures |Contents(live, lo, hi)| == hi - lo
    decreases hi
  {
    if lo < hi {
      ContentsFull(live, lo, hi - 1);
    }
  }

  lemma {:induction false} ContentsAtMost(live: map<nat, Slot>, lo: nat, hi: nat)
    requires lo <= hi
    ensures |Contents(live, lo, hi)| <= hi - lo
    decreases hi
  {
    if lo < hi {
      ContentsAtMost(live, lo, hi - 1);
    }
  }

  function OwedBy(entries: seq<Slot>, shard: nat): seq<Request> {
    if entries == [] then [] else
      OwedBy(entries[..|entries| - 1], shard)
      + (if entries[|entries| - 1].shard == shard then [RequestOf(entries[|entries| - 1])] else [])
  }

  lemma {:induction false} OwedIsOwedBy(live: map<nat, Slot>, lo: nat, hi: nat, shard: nat)
    requires lo <= hi
    ensures Owed(live, lo, hi, shard) == OwedBy(Contents(live, lo, hi), shard)
    decreases hi
  {
    if lo < hi {
      OwedIsOwedBy(live, lo, hi - 1, shard);
      if hi - 1 in live {
        assert Contents(live, lo, hi)[..|Contents(live, lo, hi)| - 1] == Contents(live, lo, hi - 1);
      } else {
        assert Contents(live, lo, hi) == Contents(live, lo, hi - 1);
      }
    }
  }

  /** The newest `|newest|` entries survive, in order, and every outstanding request among them. */
  ghost predicate Resized(s: State, n: State)
    requires s.last <= s.unused && n.last <= n.unused
  {
    var all := Contents(s.live, s.last, s.unused);
    var kept := if |all| < n.size then |all| else n.size;
    && Contents(n.live, n.last, n.unused) == all[|all| - kept..]
    && n.inflight == s.inflight
    && n == s.(size := n.size, live := n.live, hash := n.hash, last := n.last, receive := n.receive,
               flush := n.flush, unused := n.unused, buffered := n.buffered)
  }

  lemma ContentsBack(live: map<nat, Slot>, lo: nat, mid: nat, hi: nat)
    requires lo < mid <= hi
    ensures |Contents(live, mid - 1, hi)| == |Contents(live, mid, hi)| + (if mid - 1 in live then 1 else 0)
  {
    ContentsStep(live, mid, hi);
  }

  lemma ContentsEmpty(live: map<nat, Slot>, e: nat)
    ensures Contents(live, e, e) == []
  {
  }

  lemma CopyShape(s: State, n: State, e: nat, history: History)
    requires s.last <= e <= s.unused && CopyOf(s, n, e, history)
    ensures n.flush == n.receive && n.unused == n.size && n.last <= n.unused
    ensures n == s.(size := n.size, live := n.live, hash := n.hash, last := n.last, receive := n.receive,
               flush := n.flush, unused := n.unused, buffered := n.buffered, inflight := n.inflight)
    ensures forall i :: i in n.live ==> n.last <= i
  {
    CoreWindow(n, history);
  }

  lemma CopyLength(s: State, n: State, e: nat, history: History)
    requires s.last <= e <= s.unused && CopyOf(s, n, e, history)
    ensures |Contents(s.live, e, s.unused)| == n.size - n.last
  {
    CoreOrdered(n, history);
    GapCount(n, history);
    hide Core;
    ContentsFull(n.live, n.last, n.unused);
  }

  /** When the new ring is full before the old end is reached, nothing outstanding is left behind. */
  lemma OutstandingCopied(s: State, n: State, e: nat, history: History)
    requires s.last <= e <= s.unused && CopyOf(s, n, e, history)
    requires Core(s, history) && s.inflight <= n.size && (e == s.last || n.last == 0)
    ensures e <= s.receive && n.inflight == s.inflight
  {
    CopyLength(s, n, e, history);
    ContentsAtMost(s.live, e, s.unused);
  }

  lemma CopyIsResized(s: State, n: State, e: nat, history: History)
    requires s.last <= e <= s.unused && CopyOf(s, n, e, history)
    requires Core(s, history) && s.inflight <= n.size && (e == s.last || n.last == 0)
    ensures s.last <= s.receive && Resized(s, n)
  {
    OutstandingCopied(s, n, e, history);
    CopyLength(s, n, e, history);
    CoreOrdered(s, history);
    hide Core;
    ContentsSplit(s.live, s.last, e, s.unused);
    if e == s.last {
      assert Contents(s.live, s.last, s.unused)[0..] == Contents(s.live, s.last, s.unused);
    }
  }

  lemma InflightContents(s: State, n: State, e: nat, history: History)
    requires s.last <= e <= s.receive <= s.unused && CopyOf(s, n, e, history)
    requires Core(s, history) && n.inflight == s.inflight
    ensures Contents(n.live, n.receive, n.unused) == Contents(s.live, s.receive, s.unused)
  {
    hide Core, Contents;
    CoreOrdered(s, history);
    CoreOrdered(n, history);
    InflightCount(s, history);
    InflightCount(n, history);
    ContentsFull(s.live, s.receive, s.unused);
    ContentsFull(n.live, n.receive, n.unused);
    ContentsSplit(s.live, e, s.receive, s.unused);
    ContentsSplit(n.live, n.last, n.receive, n.unused);
    SameSuffix(Contents(s.live, e, s.receive), Contents(s.live, s.receive, s.unused),
               Contents(n.live, n.last, n.receive), Contents(n.live, n.receive, n.unused));
  }

  lemma SameSuffix<T>(a: seq<T>, x: seq<T>, b: seq<T>, y: seq<T>)
    requires a + x == b + y && |x| == |y|
    ensures x == y
  {
    assert x == (a + x)[|a|..] && y == (b + y)[|b|..];
  }

  lemma InflightCount(s: State, history: History)
    requires Core(s, history)
    ensures s.inflight == s.unused - s.receive
  {
  }

  lemma ResizedAt(s: State, n: State, shard: nat)
    requires Ordered(s) && Ordered(n) && FifoAt(s, shard) && (shard in s.conns ==> FlushedAt(s, shard))
    requires Contents(n.live, n.receive, n.unused) == Contents(s.live, s.receive, s.unused)
    requires n.flush == n.receive
    requires n == s.(size := n.size, live := n.live, hash := n.hash, last := n.last, receive := n.receive,
               flush := n.flush, unused := n.unused, buffered := n.buffered, inflight := n.inflight)
    ensures FifoAt(n, shard) && (shard in n.conns ==> FlushedAt(n, shard))
  {
    hide Contents;
    OwedIsOwedBy(s.live, s.receive, s.unused, shard);
    OwedIsOwedBy(n.live, n.receive, n.unused, shard);
  }

  /** The resized ring satisfies the invariant at its new size. */
  lemma ResizedInv(s: State, n: State, e: nat, history: History)
    requires s.last <= e <= s.unused && CopyOf(s, n, e, history)
    requires Inv(s, history) && s.inflight <= n.size && (e == s.last || n.last == 0)
    ensures Inv(n, history)
  {
    hide Core, Contents, Owed, FifoAt, FlushedAt;
    OutstandingCopied(s, n, e, history);
    CoreOrdered(s, history);
    CoreOrdered(n, history);
    InflightContents(s, n, e, history);
    forall shard ensures FifoAt(n, shard) { ResizedAt(s, n, shard); }
    forall shard | shard in n.conns ensures FlushedAt(n, shard) { ResizedAt(s, n, shard); }
  }

  // ---------- Responses left behind ----------

  lemma SizeNone(live: map<nat, Slot>, lo: nat)
    requires forall i :: i !in live
    ensures |Contents(live, lo, lo)| == |live.Keys|
  {
    assert live.Keys == {};
  }

  lemma SizeStep(live: map<nat, Slot>, lo: nat, hi: nat)
    requires lo < hi
    requires var rest := live - {hi - 1}; |Contents(rest, lo, hi - 1)| == |rest.Keys|
    ensures |Contents(live, lo, hi)| == |live.Keys|
  {
    var rest := live - {hi - 1};
    ContentsAgree(rest, live, lo, hi - 1);
    if hi - 1 in live {
      assert live.Keys == rest.Keys + {hi - 1};
    } else {
      assert live.Keys == rest.Keys;
    }
  }

  ghost predicate Within(live: map<nat, Slot>, lo: nat, hi: nat) {
    forall i :: i in live ==> lo <= i < hi
  }

  lemma WithinStep(live: map<nat, Slot>, lo: nat, hi: nat)
    requires lo < hi && Within(live, lo, hi)
    ensures Within(live - {hi - 1}, lo, hi - 1)
  {
  }

  lemma {:induction false} ContentsSize(live: map<nat, Slot>, lo: nat, hi: nat)
    requires lo <= hi && Within(live, lo, hi)
    ensures |Contents(live, lo, hi)| == |live.Keys|
    decreases hi
  {
    if lo == hi {
      SizeNone(live, lo);
    } else {
      hide Within;
      WithinStep(live, lo, hi);
      ContentsSize(live - {hi - 1}, lo, hi - 1);
      SizeStep(live, lo, hi);
    }
  }

  /** Every entry is either copied or left behind, and what is left behind is a response. */
  lemma LeftBehind(s: State, n: State, e: nat, history: History)
    requires s.last <= e <= s.unused && CopyOf(s, n, e, history)
    requires Core(s, history) && n.inflight == s.inflight
    ensures |Contents(s.live, s.last, e)| == s.buffered - n.buffered
  {
    CopyLength(s, n, e, history);
    InflightCount(n, history);
    CoreWindow(s, history);
    ContentsSize(s.live, s.last, s.unused);
    AllCounted(s, history);
    hide Core;
    ContentsSplit(s.live, s.last, e, s.unused);
  }

  lemma AllCounted(s: State, history: History)
    requires Core(s, history)
    ensures s.buffered + s.inflight == |s.live.Keys|
  {
  }
}
