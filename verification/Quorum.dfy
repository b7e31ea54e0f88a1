/** The fast path that skips safekeeper synchronisation when a quorum already agrees. */
module Quorum {
  import opened Options

  type Lsn = nat

  /** Safekeepers are numbered. */
  type Id = nat

  datatype Status = NotFound | Found(flush: Lsn, commit: Lsn)

  /** How a ping ended: an answer, an error from the ping itself, a timeout, or a failed join. */
  datatype Ping = Answer(id: Id, status: Status) | TaskError(id: Id) | TimedOut(id: Id) | JoinError(id: Id)

  // ---------- check_if_synced ----------

  function OkResponses(rs: seq<Status>): (r: seq<Status>)
    ensures |r| <= |rs| && forall i :: 0 <= i < |r| ==> r[i].Found?
    ensures |r| == |rs| <==> forall i :: 0 <= i < |rs| ==> rs[i].Found?
    ensures |r| == |rs| ==> r == rs
  {
    if rs == [] then [] else
      var front := OkResponses(rs[..|rs| - 1]);
      if rs[|rs| - 1].Found? then front + [rs[|rs| - 1]] else front
  }

  function Max(xs: seq<Lsn>): (m: Lsn)
    requires xs != []
    ensures exists i :: 0 <= i < |xs| && xs[i] == m
    ensures forall i :: 0 <= i < |xs| ==> xs[i] <= m
  {
    if |xs| == 1 then xs[0] else
      var m := Max(xs[..|xs| - 1]);
      if xs[|xs| - 1] > m then xs[|xs| - 1] else m
  }

  function Min(xs: seq<Lsn>): (m: Lsn)
    requires xs != []
    ensures exists i :: 0 <= i < |xs| && xs[i] == m
    ensures forall i :: 0 <= i < |xs| ==> m <= xs[i]
  {
    if |xs| == 1 then xs[0] else
      var m := Min(xs[..|xs| - 1]);
      if xs[|xs| - 1] < m then xs[|xs| - 1] else m
  }

  function Commits(rs: seq<Status>): (r: seq<Lsn>)
    requires forall i :: 0 <= i < |rs| ==> rs[i].Found?
    ensures |r| == |rs| && forall i :: 0 <= i < |r| ==> r[i] == rs[i].commit
  {
    seq(|rs|, i requires 0 <= i < |rs| => rs[i].commit)
  }

  function Flushes(rs: seq<Status>): (r: seq<Lsn>)
    requires forall i :: 0 <= i < |rs| ==> rs[i].Found?
    ensures |r| == |rs| && forall i :: 0 <= i < |r| ==> r[i] == rs[i].flush
  {
    seq(|rs|, i requires 0 <= i < |rs| => rs[i].flush)
  }

  /** Given a quorum of responses, the LSN at which all of them stand, if there is one. The original
      panics on an empty list. */
  function CheckIfSynced(rs: seq<Status>): Option<Lsn>
    requires rs != []
  {
    var ok := OkResponses(rs);
    if |ok| < |rs| then None else
      var commit, flush := Commits(ok), Flushes(ok);
      if Min(commit) != Max(commit) then None
      else if Min(flush) != Max(flush) then None
      else if Max(commit) != Max(flush) then None
      else Some(Max(commit))
  }

  ghost predicate AllAt(rs: seq<Status>, l: Lsn) {
    forall i :: 0 <= i < |rs| ==> rs[i] == Found(l, l)
  }

  lemma ConstantSeq(xs: seq<Lsn>, l: Lsn)
    requires xs != []
    ensures Min(xs) == Max(xs) == l <==> forall i :: 0 <= i < |xs| ==> xs[i] == l
  {
  }

  /** The check succeeds with an LSN exactly when every response has flushed and committed up to it. */
  lemma CheckIfSyncedIff(rs: seq<Status>, l: Lsn)
    requires rs != []
    ensures CheckIfSynced(rs) == Some(l) <==> AllAt(rs, l)
  {
    var ok := OkResponses(rs);
    if |ok| == |rs| {
      hide Max, Min;
      ConstantSeq(Commits(ok), l);
      ConstantSeq(Flushes(ok), l);
    }
  }

  // ---------- Collecting a quorum ----------

  /** Every safekeeper reports at most once. */
  ghost predicate Distinct(pings: seq<Ping>) {
    forall i, j :: 0 <= i < j < |pings| ==> pings[i].id != pings[j].id
  }

  /** The safekeepers that reported to have flushed and committed exactly up to `l`. */
  ghost function SyncedAt(pings: seq<Ping>, l: Lsn): set<Id> {
    set p | p in pings && p.Answer? && p.status == Found(l, l) :: p.id
  }

  lemma {:induction false} DistinctCount(ids: seq<Id>, all: set<Id>)
    requires forall k :: 0 <= k < |ids| ==> ids[k] in all
    requires forall k, m :: 0 <= k < m < |ids| ==> ids[k] != ids[m]
    ensures |ids| <= |all|
    decreases |ids|
  {
    if ids != [] {
      var n := |ids| - 1;
      DistinctCount(ids[..n], all - {ids[n]});
    }
  }

  /** Each response so far is the answer of a different safekeeper. */
  ghost predicate Collected(pings: seq<Ping>, answered: seq<Id>, responses: seq<Status>) {
    && |responses| == |answered|
    && (forall k :: 0 <= k < |answered| ==> Answer(answered[k], responses[k]) in pings)
    && (forall k, m :: 0 <= k < m < |answered| ==> answered[k] != answered[m])
  }

  lemma CollectNext(pings: seq<Ping>, i: nat, answered: seq<Id>, responses: seq<Status>)
    requires Distinct(pings) && i < |pings| && Collected(pings[..i], answered, responses)
    ensures Collected(pings[..i + 1], answered, responses)
    ensures pings[i].Answer? ==>
      Collected(pings[..i + 1], answered + [pings[i].id], responses + [pings[i].status])
  {
    assert pings[..i + 1] == pings[..i] + [pings[i]];
    forall k | 0 <= k < |answered| ensures answered[k] != pings[i].id {
      assert Answer(answered[k], responses[k]) in pings[..i];
    }
  }

  lemma MajorityAt(pings: seq<Ping>, answered: seq<Id>, responses: seq<Status>, l: Lsn)
    requires Collected(pings, answered, responses) && AllAt(responses, l)
    ensures |responses| <= |SyncedAt(pings, l)|
  {
    forall k | 0 <= k < |answered| ensures answered[k] in SyncedAt(pings, l) {
      assert Answer(answered[k], responses[k]) in pings;
    }
    DistinctCount(answered, SyncedAt(pings, l));
  }

  function Answered(pings: seq<Ping>): (n: nat)
    ensures n <= |pings|
  {
    if pings == [] then 0
    else Answered(pings[..|pings| - 1]) + if pings[|pings| - 1].Answer? then 1 else 0
  }

  /** The outcomes still to come add at most one answer each. */
  lemma {:induction false} AnsweredLater(pings: seq<Ping>, i: nat)
    requires i <= |pings|
    ensures Answered(pings[..i]) <= Answered(pings) <= Answered(pings[..i]) + |pings| - i
    decreases |pings| - i
  {
    if i == |pings| {
      assert pings[..i] == pings;
    } else {
      AnsweredLater(pings, i + 1);
      assert pings[..i + 1][..i] == pings[..i];
    }
  }

  /** Takes outcomes in the order they arrive until there is a quorum of answers or of errors. */
  method CollectResponses(pings: seq<Ping>, quorum: nat)
      returns (responses: seq<Status>, errors: nat, ghost answered: seq<Id>)
    requires Distinct(pings) && quorum > 0
    ensures Collected(pings, answered, responses)
    ensures |responses| + errors <= |pings| && |responses| <= quorum && errors <= quorum
    ensures |pings| < 2 * quorum ==> |responses| < quorum || errors < quorum
    ensures |pings| < 2 * quorum ==> (|responses| == quorum <==> Answered(pings) >= quorum)
  {
    hide Distinct, Collected;
    responses, answered := [], [];
    var taskErrors, timeoutErrors, joinErrors := 0, 0, 0;
    var i := 0;
    NothingCollected(pings);
    while i < |pings|
      invariant 0 <= i <= |pings| && |responses| < quorum
      invariant |responses| + taskErrors + timeoutErrors + joinErrors == i
      invariant taskErrors >= 0 && timeoutErrors >= 0 && joinErrors >= 0
      invariant Collected(pings[..i], answered, responses)
      invariant taskErrors + timeoutErrors + joinErrors < quorum
      invariant |responses| == Answered(pings[..i])
    {
      assert pings[..i + 1][..i] == pings[..i];
      CollectNext(pings, i, answered, responses);
      match pings[i] {
        case Answer(id, status) =>
          responses, answered := responses + [status], answered + [id];
        case TaskError(_) => taskErrors := taskErrors + 1;
        case TimedOut(_) => timeoutErrors := timeoutErrors + 1;
        case JoinError(_) => joinErrors := joinErrors + 1;
      }
      i := i + 1;
      if |responses| >= quorum {
        break;
      }
      if joinErrors + taskErrors + timeoutErrors >= quorum {
        break;
      }
    }
    errors := joinErrors + taskErrors + timeoutErrors;
    AnsweredLater(pings, i);
    Widen(pings, i, answered, responses);
  }

  lemma NothingCollected(pings: seq<Ping>)
    ensures Collected(pings[..0], [], [])
  {
  }

  // ---------- Safety ----------

  lemma MajoritiesMeet(a: set<Id>, b: set<Id>, all: set<Id>) returns (id: Id)
    requires a <= all && b <= all && 2 * |a| > |all| && 2 * |b| > |all|
    ensures id in a && id in b
  {
    if a * b == {} {
      assert |a + b| == |a| + |b|;
      Subset(a + b, all);
    }
    id :| id in a * b;
  }

  lemma Subset(a: set<Id>, b: set<Id>)
    requires a <= b
    ensures |a| <= |b|
  {
    assert b == a + (b - a);
  }

  /** What each safekeeper had flushed before it was asked; flushing never moves back. */
  ghost predicate Earlier(pings: seq<Ping>, all: set<Id>, before: map<Id, Lsn>) {
    && before.Keys == all
    && (forall p :: p in pings ==> p.id in all)
    && forall p :: p in pings && p.Answer? && p.status.Found? && p.id in all ==> before[p.id] <= p.status.flush
  }

  /** A majority had flushed up to `x`. */
  ghost predicate FlushedByMost(all: set<Id>, before: map<Id, Lsn>, flushed: set<Id>, x: Lsn) {
    flushed <= all <= before.Keys && 2 * |flushed| > |all| && forall id :: id in flushed ==> before[id] >= x
  }

  /** If a majority stands exactly at an LSN, then no LSN that a majority had flushed before lies beyond it. */
  lemma FastPathIsSafe(all: set<Id>, pings: seq<Ping>, l: Lsn, before: map<Id, Lsn>, flushed: set<Id>, x: Lsn)
    requires 2 * |SyncedAt(pings, l)| > |all|
    requires Earlier(pings, all, before) && FlushedByMost(all, before, flushed, x)
    ensures x <= l
  {
    var id := MajoritiesMeet(SyncedAt(pings, l), flushed, all);
    assert Answer(id, Found(l, l)) in pings;
  }

  // ---------- The fast path ----------

  /** The fast path over `n` safekeepers. An LSN is returned only if a strict majority stands exactly at it,
      and it is returned if a majority answers and no answer differs. No LSN that a majority had flushed
      before lies beyond it. */
  method CheckSafekeepersSynced(n: nat, pings: seq<Ping>) returns (r: Option<Lsn>)
    requires Distinct(pings) && |pings| == n
    ensures r.Some? ==> 2 * |SyncedAt(pings, r.value)| > n
    ensures forall l: Lsn :: 2 * Answered(pings) > n && AllAnswer(pings, l) ==> r == Some(l)
    ensures 2 * Answered(pings) <= n ==> r == None
    ensures r.Some? ==> forall all: set<Id>, before: map<Id, Lsn>, flushed: set<Id>, x: Lsn ::
      |all| == n && Earlier(pings, all, before) && FlushedByMost(all, before, flushed, x) ==> x <= r.value
  {
    hide Distinct, Collected;
    var quorum := n / 2 + 1;
    var responses, errors;
    ghost var answered;
    responses, errors, answered := CollectResponses(pings, quorum);
    if |responses| < quorum {
      return None;
    }
    r := CheckIfSynced(responses);
    if r.Some? {
      CheckIfSyncedIff(responses, r.value);
      MajorityAt(pings, answered, responses, r.value);
      forall all: set<Id>, before: map<Id, Lsn>, flushed: set<Id>, x: Lsn
        | |all| == n && Earlier(pings, all, before) && FlushedByMost(all, before, flushed, x)
        ensures x <= r.value
      {
        FastPathIsSafe(all, pings, r.value, before, flushed, x);
      }
    }
    forall l: Lsn | AllAnswer(pings, l) ensures r == Some(l) {
      AnswersAt(pings, answered, responses, l);
      CheckIfSyncedIff(responses, l);
    }
  }

  ghost predicate AllAnswer(pings: seq<Ping>, l: Lsn) {
    forall i :: 0 <= i < |pings| && pings[i].Answer? ==> pings[i].status == Found(l, l)
  }

  lemma Widen(pings: seq<Ping>, i: nat, answered: seq<Id>, responses: seq<Status>)
    requires i <= |pings| && Collected(pings[..i], answered, responses)
    ensures Collected(pings, answered, responses)
  {
    forall k | 0 <= k < |answered| ensures Answer(answered[k], responses[k]) in pings {
      assert Answer(answered[k], responses[k]) in pings[..i];
    }
  }

  lemma AnswersAt(pings: seq<Ping>, answered: seq<Id>, responses: seq<Status>, l: Lsn)
    requires Collected(pings, answered, responses) && AllAnswer(pings, l)
    ensures AllAt(responses, l)
  {
    forall k | 0 <= k < |responses| ensures responses[k] == Found(l, l) {
      assert Answer(answered[k], responses[k]) in pings;
    }
  }
}
