/** The physical buffer, indexed modulo its size, refines the map from ring indices to slots. */
module RingBuffer {
  import opened Options
  import opened PageTypes
  import opened Ring

  lemma NotMultiple(n: nat, k: int, d: nat)
    requires 0 < d < n
    ensures n * k != d
  {
    if k <= 0 {
      assert n * k <= 0;
    } else {
      assert n * k >= n;
    }
  }

  lemma ModDistinct(i: nat, j: nat, n: nat)
    requires 0 < n && i < j < i + n
    ensures i % n != j % n
  {
    var q, p := i / n, j / n;
    NotMultiple(n, p - q, j - i);
    assert n * (p - q) == n * p - n * q;
    assert i == n * q + i % n && j == n * p + j % n;
  }

  lemma ModSame(i: nat, n: nat)
    requires 0 < n
    ensures (i + n) % n == i % n
  {
    var q, p := i / n, (i + n) / n;
    assert i == n * q + i % n && i + n == n * p + (i + n) % n;
    var d := i % n - (i + n) % n;
    assert d == n * (p - q - 1) by {
      assert n * (p - q - 1) == n * p - n * q - n;
    }
    if d > 0 {
      NotMultiple(n, p - q - 1, d);
    } else if d < 0 {
      assert n * (q + 1 - p) == -(n * (p - q - 1));
      NotMultiple(n, q + 1 - p, -d);
    }
  }

  /** Filling a slot of the window touches no other ring index. */
  lemma LivePut(slots: seq<Slot>, last: nat, i: nat, slot: Slot)
    requires last <= i < last + |slots| && slot.status != Unused
    ensures LiveOf(slots[i % |slots| := slot], last) == LiveOf(slots, last)[i := slot]
  {
    OthersUntouched(slots, last, i);
  }

  /** Clearing a slot of the window touches no other ring index. */
  lemma LiveClear(slots: seq<Slot>, last: nat, i: nat, slot: Slot)
    requires last <= i < last + |slots| && slot.status == Unused
    ensures LiveOf(slots[i % |slots| := slot], last) == LiveOf(slots, last) - {i}
  {
    OthersUntouched(slots, last, i);
  }

  lemma OthersUntouched(slots: seq<Slot>, last: nat, i: nat)
    requires last <= i < last + |slots|
    ensures forall j: nat :: last <= j < last + |slots| && j != i ==> j % |slots| != i % |slots|
  {
    forall j: nat | last <= j < last + |slots| && j != i ensures j % |slots| != i % |slots| {
      ModDistinct(if i < j then i else j, if i < j then j else i, |slots|);
    }
  }

  /** The window may slide past an unused slot: the physical slot that enters at the far end is the one
      that left. */
  lemma LiveAdvance(slots: seq<Slot>, last: nat)
    requires 0 < |slots| && slots[last % |slots|].status == Unused
    ensures LiveOf(slots, last + 1) == LiveOf(slots, last)
  {
    ModSame(last, |slots|);
  }

  /** Slot `j` of a buffer that is in its first round holds ring index `j`. */
  ghost predicate Holds(slots: seq<Slot>, live: map<nat, Slot>) {
    && (forall j :: 0 <= j < |slots| ==>
          if j in live then slots[j] == live[j] else slots[j].status == Unused)
    && (forall i :: i in live ==> i < |slots| && live[i].status != Unused)
  }

  lemma NothingHeld(slots: seq<Slot>)
    requires forall j :: 0 <= j < |slots| ==> slots[j].status == Unused
    ensures Holds(slots, map[])
  {
  }

  lemma FirstRound(slots: seq<Slot>, last: nat, live: map<nat, Slot>)
    requires 0 < |slots| && last <= |slots| && Holds(slots, live)
    requires forall i :: i in live ==> last <= i
    ensures LiveOf(slots, last) == live
  {
    forall i: nat | last <= i < last + |slots|
      ensures i in live <==> slots[i % |slots|].status != Unused
      ensures i in live ==> slots[i % |slots|] == live[i]
    {
      if i < |slots| {
        assert i % |slots| == i by { SmallMod(i, |slots|); }
      } else {
        ModSame(i - |slots|, |slots|);
        SmallMod(i - |slots|, |slots|);
      }
    }
  }

  lemma SmallMod(i: nat, n: nat)
    requires i < n
    ensures i % n == i
  {
  }
}
