/** The sliding HyperLogLog sketch: a window query gives what a plain HyperLogLog sketch built from the
    elements of the window alone would give. */
module Hll {

  const BIT_WIDTH := 10
  const C_BITS := 22
  const REGISTERS := 1024
  const LOW := 0x40_0000

  type Hash = h: nat | h < 0x1_0000_0000

  type Timestamp = int

  datatype Added = Added(hash: Hash, time: Timestamp)

  // ---------- Bit positions ----------

  function Pow2(n: nat): nat {
    if n == 0 then 1 else 2 * Pow2(n - 1)
  }

  /** The position of the leftmost one bit. */
  function LeftmostOne(x: nat): (p: nat)
    requires x > 0
    ensures Pow2(p) <= x < Pow2(p + 1)
  {
    if x == 1 then 0 else LeftmostOne(x / 2) + 1
  }

  function Rho(x: nat, b: nat): int
  {
    if x == 0 then b + 1 else
      var j := 32 - LeftmostOne(x);
      if j > b then b + 1 else j
  }

  /** hash >> C_BITS */
  function Index(h: Hash): nat {
    h / LOW
  }

  /** hash << BIT_WIDTH in 32 bits */
  function Shifted(h: Hash): nat {
    h * REGISTERS % 0x1_0000_0000
  }

  function Count(h: Hash): int {
    Rho(Shifted(h), C_BITS) - 1
  }

  lemma {:induction false} Pow2Mono(a: nat, b: nat)
    requires a <= b
    ensures Pow2(a) <= Pow2(b)
    decreases b
  {
    if a < b {
      Pow2Mono(a, b - 1);
    }
  }

  lemma LeftmostUnique(x: nat, p: nat)
    requires x > 0 && Pow2(p) <= x < Pow2(p + 1)
    ensures LeftmostOne(x) == p
  {
    var q := LeftmostOne(x);
    if p < q {
      Pow2Mono(p + 1, q);
    } else if q < p {
      Pow2Mono(q + 1, p);
    }
  }

  lemma ShiftedIsLow(h: Hash)
    ensures Shifted(h) == (h % LOW) * REGISTERS
  {
    var q, r := h / LOW, h % LOW;
    assert h == LOW * q + r;
    assert h * REGISTERS == 0x1_0000_0000 * q + r * REGISTERS;
  }

  lemma LeftmostShifted(x: nat)
    requires x > 0
    ensures LeftmostOne(x * REGISTERS) == LeftmostOne(x) + 10
  {
    var p := LeftmostOne(x);
    Pow2Ten(p);
    Pow2Ten(p + 1);
    LeftmostUnique(x * REGISTERS, p + 10);
  }

  lemma Pow2Ten(p: nat)
    ensures Pow2(p + 10) == Pow2(p) * REGISTERS
  {
    assert Pow2(p + 10) == 2 * Pow2(p + 9) == 4 * Pow2(p + 8) == 8 * Pow2(p + 7) == 16 * Pow2(p + 6);
    assert Pow2(p + 6) == 2 * Pow2(p + 5) == 4 * Pow2(p + 4) == 8 * Pow2(p + 3) == 16 * Pow2(p + 2);
    assert Pow2(p + 2) == 4 * Pow2(p);
  }

  /** The register is the number in the high 10 bits; the rank is the number of leading zeros of the low 22
      bits. */
  lemma RankMeaning(h: Hash)
    ensures Index(h) < 1024 && h == Index(h) * 0x40_0000 + h % 0x40_0000 && 0 <= Count(h) <= 22
    ensures Count(h) == 22 <==> h % 0x40_0000 == 0
    ensures Count(h) < 22 ==> Pow2(21 - Count(h)) <= h % 0x40_0000 < Pow2(22 - Count(h))
  {
    ShiftedIsLow(h);
    var x := h % LOW;
    if x > 0 {
      LeftmostShifted(x);
      var p := LeftmostOne(x);
      assert Pow2(22) == LOW by { Pow2Ten(2); Pow2Ten(12); }
      if p >= 22 {
        Pow2Mono(22, p);
      }
    }
  }

  lemma InBounds(h: Hash)
    ensures Index(h) < REGISTERS && 0 <= Count(h) <= C_BITS
  {
    RankMeaning(h);
  }

  // ---------- History and window ----------

  ghost predicate InOrder(history: seq<Added>) {
    && (forall i :: 0 <= i < |history| ==> history[i].time >= 1)
    && (forall i, j :: 0 <= i < j < |history| ==> history[i].time <= history[j].time)
  }

  /** When an element with this register and rank was last added; 0 if never. */
  function LastSeen(history: seq<Added>, index: nat, count: int): Timestamp {
    if history == [] then 0 else
      var last := history[|history| - 1];
      if Index(last.hash) == index && Count(last.hash) == count then last.time
      else LastSeen(history[..|history| - 1], index, count)
  }

  /** The elements added at or after `since`. */
  function Window(history: seq<Added>, since: Timestamp): seq<Added> {
    if history == [] then [] else
      Window(history[..|history| - 1], since)
      + (if history[|history| - 1].time >= since then [history[|history| - 1]] else [])
  }

  /** A register of a plain HyperLogLog sketch: the highest rank plus one. */
  function Plain(elements: seq<Added>, index: nat): nat {
    if elements == [] then 0 else
      var last := elements[|elements| - 1];
      var rest := Plain(elements[..|elements| - 1], index);
      if Index(last.hash) == index && Count(last.hash) + 1 > rest then Count(last.hash) + 1 else rest
  }

  /** The highest slot of a register stamped at or after `since`, plus one. */
  function Highest(reg: seq<Timestamp>, since: Timestamp): (r: nat)
    ensures r <= |reg|
    ensures r > 0 ==> reg[r - 1] >= since
    ensures forall c :: r <= c < |reg| ==> reg[c] < since
  {
    if reg == [] then 0
    else if reg[|reg| - 1] >= since then |reg|
    else Highest(reg[..|reg| - 1], since)
  }

  lemma {:induction false} LastSeenIff(history: seq<Added>, index: nat, count: int, since: Timestamp)
    requires InOrder(history) && since >= 1
    ensures LastSeen(history, index, count) >= since
       <==> exists i :: 0 <= i < |history| && Index(history[i].hash) == index
                        && Count(history[i].hash) == count && history[i].time >= since
  {
    if history != [] {
      var n := |history| - 1;
      LastSeenIff(history[..n], index, count, since);
      assert forall i :: 0 <= i < n ==> history[..n][i] == history[i];
    }
  }

  lemma {:induction false} WindowHas(history: seq<Added>, since: Timestamp, x: Added)
    ensures x in Window(history, since) <==> x in history && x.time >= since
  {
    if history != [] {
      WindowHas(history[..|history| - 1], since, x);
      assert history == history[..|history| - 1] + [history[|history| - 1]];
    }
  }

  lemma {:induction false} PlainIsMax(elements: seq<Added>, index: nat)
    ensures forall x :: x in elements && Index(x.hash) == index ==> Count(x.hash) + 1 <= Plain(elements, index)
    ensures Plain(elements, index) > 0 ==>
      exists x :: x in elements && Index(x.hash) == index && Count(x.hash) + 1 == Plain(elements, index)
  {
    if elements != [] {
      var front, last := elements[..|elements| - 1], elements[|elements| - 1];
      PlainIsMax(front, index);
      assert elements == front + [last];
      assert last in elements;
    }
  }

  /** What the sketch stores for one register. */
  ghost predicate Stores(reg: seq<Timestamp>, history: seq<Added>, index: nat) {
    |reg| == C_BITS + 1 && forall c :: 0 <= c <= C_BITS ==> reg[c] == LastSeen(history, index, c)
  }

  /** The window query equals the plain sketch of the window. */
  lemma QueryIsPlain(reg: seq<Timestamp>, history: seq<Added>, index: nat, since: Timestamp)
    requires Stores(reg, history, index) && InOrder(history) && since >= 1
    ensures Highest(reg, since) == Plain(Window(history, since), index)
  {
    hide Count, Index;
    var r, w := Highest(reg, since), Window(history, since);
    var p := Plain(w, index);
    PlainIsMax(w, index);
    if r > 0 {
      LastSeenIff(history, index, r - 1, since);
      var i :| 0 <= i < |history| && Index(history[i].hash) == index && Count(history[i].hash) == r - 1
               && history[i].time >= since;
      WindowHas(history, since, history[i]);
    }
    if p > 0 {
      var x :| x in w && Index(x.hash) == index && Count(x.hash) + 1 == p;
      WindowHas(history, since, x);
      var i :| 0 <= i < |history| && history[i] == x;
      InBounds(x.hash);
      LastSeenIff(history, index, p - 1, since);
    }
  }

  lemma {:induction false} LastSeenNonNegative(history: seq<Added>, index: nat, count: int)
    requires InOrder(history)
    ensures LastSeen(history, index, count) >= 0
  {
    if history != [] {
      LastSeenNonNegative(history[..|history| - 1], index, count);
    }
  }

  /** A window that reaches back to 0 counts slots that were never stamped: every register then reads as
      full, whatever was added. */
  lemma WindowMustStartAfterZero(reg: seq<Timestamp>, history: seq<Added>, index: nat, since: Timestamp)
    requires Stores(reg, history, index) && InOrder(history) && since <= 0
    ensures Highest(reg, since) == C_BITS + 1
  {
    LastSeenNonNegative(history, index, C_BITS);
  }

  /** Widening the window never lowers a register. */
  lemma WiderIsHigher(history: seq<Added>, index: nat, since: Timestamp, earlier: Timestamp)
    requires earlier <= since
    ensures Plain(Window(history, since), index) <= Plain(Window(history, earlier), index)
  {
    hide Count, Index;
    var narrow, wide := Window(history, since), Window(history, earlier);
    PlainIsMax(narrow, index);
    PlainIsMax(wide, index);
    if Plain(narrow, index) > 0 {
      var x :| x in narrow && Index(x.hash) == index && Count(x.hash) + 1 == Plain(narrow, index);
      WindowHas(history, since, x);
      WindowHas(history, earlier, x);
    }
  }

  /** The registers of the plain sketch of a window. */
  function Registers(history: seq<Added>, since: Timestamp): seq<nat> {
    seq(REGISTERS, i requires 0 <= i < REGISTERS => Plain(Window(history, since), i))
  }

  // ---------- The raw estimate ----------

  const ALPHA_MM := (0.7213 / (1.0 + 1.079 / 1024.0)) * 1024.0 * 1024.0

  function Weight(r: nat): (w: real)
    ensures 0.0 < w <= 1.0
  {
    if r == 0 then 1.0 else Weight(r - 1) / 2.0
  }

  function Sum(rs: seq<nat>): (s: real)
    ensures s >= 0.0 && (rs != [] ==> s > 0.0)
  {
    if rs == [] then 0.0 else Sum(rs[..|rs| - 1]) + Weight(rs[|rs| - 1])
  }

  /** The weight of a register is 2 to the power of minus its value. */
  lemma {:induction false} WeightMeaning(r: nat)
    ensures Weight(r) * Pow2(r) as real == 1.0
  {
    if r > 0 {
      WeightMeaning(r - 1);
    }
  }

  /** The sum is that of the weights of all registers. */
  lemma {:induction false} SumAdds(a: seq<nat>, b: seq<nat>)
    ensures Sum(a + b) == Sum(a) + Sum(b) && Sum([]) == 0.0
    ensures forall r: nat :: Sum([r]) == Weight(r)
  {
    forall r: nat ensures Sum([r]) == Weight(r) {
      assert [r][..0] == [];
    }
    if b == [] {
      assert a + b == a;
    } else {
      var n := |b| - 1;
      SumAdds(a, b[..n]);
      assert (a + b)[..|a| + n] == a + b[..n];
    }
  }

  lemma {:induction false} WeightFalls(a: nat, b: nat)
    requires a <= b
    ensures Weight(b) <= Weight(a)
    decreases b
  {
    if a < b {
      WeightFalls(a, b - 1);
    }
  }

  lemma {:induction false} SumFalls(a: seq<nat>, b: seq<nat>)
    requires |a| == |b| && forall i :: 0 <= i < |a| ==> a[i] <= b[i]
    ensures Sum(b) <= Sum(a)
  {
    if a != [] {
      var n := |a| - 1;
      SumFalls(a[..n], b[..n]);
      WeightFalls(a[n], b[n]);
    }
  }

  function Raw(rs: seq<nat>): real
    requires rs != []
  {
    ALPHA_MM / Sum(rs)
  }

  /** The raw estimate times the sum of the weights is the constant of the algorithm for 1024 registers. */
  lemma RawMeaning(rs: seq<nat>)
    requires rs != []
    ensures Raw(rs) * Sum(rs) == 0.7213 / (1.0 + 1.079 / 1024.0) * 1024.0 * 1024.0
  {
    Quotient(ALPHA_MM, Sum(rs));
  }

  lemma Quotient(x: real, y: real)
    requires y != 0.0
    ensures x / y * y == x
  {
  }

  /** Higher registers give a higher raw estimate. */
  lemma RawRises(a: seq<nat>, b: seq<nat>)
    requires |a| == |b| > 0 && forall i :: 0 <= i < |a| ==> a[i] <= b[i]
    ensures Raw(a) <= Raw(b)
  {
    SumFalls(a, b);
    DivideLess(ALPHA_MM, Sum(a), Sum(b));
  }

  lemma DivideLess(n: real, x: real, y: real)
    requires n > 0.0 && 0.0 < y <= x
    ensures n / x <= n / y
  {
    assert n / y - n / x == n * (x - y) / (x * y);
    assert n * (x - y) >= 0.0 && x * y > 0.0;
  }

  // ---------- The sketch ----------

  class Sketch {
    var regs: array2<Timestamp>
    ghost var history: seq<Added>

    ghost predicate Valid()
      reads this, regs
    {
      && regs.Length0 == REGISTERS && regs.Length1 == C_BITS + 1
      && forall i, c :: 0 <= i < REGISTERS && 0 <= c <= C_BITS ==> regs[i, c] == LastSeen(history, i, c)
    }

    constructor ()
      ensures Valid() && history == [] && fresh(regs)
    {
      regs := new Timestamp[REGISTERS, C_BITS + 1]((_, _) => 0);
      history := [];
    }

    method Add(hash: Hash, now: Timestamp)
      requires Valid()
      modifies this`history, regs
      ensures Valid() && history == old(history) + [Added(hash, now)]
    {
      InBounds(hash);
      hide Count, Index;
      var index := Index(hash);
      var count := Count(hash);
      regs[index, count] := now;
      history := history + [Added(hash, now)];
      assert history[..|history| - 1] == old(history);
    }

    /** The highest rank seen in a register since a point in time, plus one. */
    method GetMaximum(index: nat, since: Timestamp) returns (max: nat)
      requires Valid() && index < REGISTERS
      ensures max <= C_BITS + 1
      ensures max > 0 ==> LastSeen(history, index, max - 1) >= since
      ensures forall c :: max <= c <= C_BITS ==> LastSeen(history, index, c) < since
      ensures InOrder(history) && since >= 1 ==> max == Plain(Window(history, since), index)
    {
      hide Count, Index, LastSeen, Plain, Window;
      ghost var h := history;
      ghost var reg := seq(C_BITS + 1, c requires 0 <= c <= C_BITS => LastSeen(h, index, c));
      max := 0;
      var i := 0;
      while i < C_BITS + 1
        invariant 0 <= i <= C_BITS + 1 && max <= i
        invariant max == Highest(reg[..i], since)
      {
        assert reg[..i + 1][..i] == reg[..i];
        if regs[index, i] >= since {
          max := i + 1;
        }
        i := i + 1;
      }
      assert reg[..C_BITS + 1] == reg && max == Highest(reg, since);
      forall c | max <= c <= C_BITS ensures LastSeen(history, index, c) < since {
        assert reg[c] == LastSeen(history, index, c);
      }
      if InOrder(history) && since >= 1 {
        QueryIsPlain(reg, history, index, since);
      }
    }

    /** The registers of the window and the raw estimate computed from them. */
    method Estimate(since: Timestamp) returns (rs: seq<nat>, raw: real)
      requires Valid()
      ensures |rs| == 1024 && raw == Raw(rs)
      ensures InOrder(history) && since >= 1 ==> rs == Registers(history, since)
    {
      var sum := 0.0;
      rs := [];
      var i := 0;
      while i < REGISTERS
        invariant 0 <= i <= REGISTERS && |rs| == i && sum == Sum(rs)
        invariant InOrder(history) && since >= 1 ==>
          forall k :: 0 <= k < i ==> rs[k] == Plain(Window(history, since), k)
      {
        var r := GetMaximum(i, since);
        assert (rs + [r])[..i] == rs;
        rs := rs + [r];
        sum := sum + Weight(r);
        i := i + 1;
      }
      raw := ALPHA_MM / sum;
    }
  }

  /** Looking further back never lowers the raw estimate. */
  lemma WiderWindowEstimatesMore(history: seq<Added>, since: Timestamp, earlier: Timestamp)
    requires earlier <= since
    ensures Raw(Registers(history, since)) <= Raw(Registers(history, earlier))
  {
    var a, b := Registers(history, since), Registers(history, earlier);
    forall i | 0 <= i < |a| ensures a[i] <= b[i] {
      WiderIsHigher(history, i, since, earlier);
    }
    RawRises(a, b);
  }
}
