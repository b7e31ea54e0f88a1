/** The stack of change tables, driven by subtransaction starts, commits and aborts. */
module DdlStack {
  import opened Options
  import opened DdlTables

  type Password = Option<string>

  /** 0 is the invalid role oid. */
  type Oid = nat

  datatype Level = Level(dbs: Table<Oid>, roles: Table<Password>)

  const EMPTY := Level(map[], map[])

  datatype Statement =
    | CreateRole(name: Name, password: Password)
    | AlterRole(name: Name, change: Option<Password>)
    | RenameRole(from: Name, to: Name)
    | DropRoles(names: seq<Name>)
    | CreateDb(name: Name, owner: Oid)
    | AlterOwner(name: Name, owner: Oid)
    | RenameDb(from: Name, to: Name)
    | DropDb(name: Name)

  datatype Event = Begin | Commit | Abort | Do(s: Statement)

  /** In which order a hash table is scanned. */
  datatype Scan = Scan(roles: Table<Password> -> seq<Name>, dbs: Table<Oid> -> seq<Name>)

  function DropAll(t: Table<Password>, names: seq<Name>): Table<Password> {
    if names == [] then t else Drop(DropAll(t, names[..|names| - 1]), names[|names| - 1], None)
  }

  function Apply(l: Level, s: Statement): Level {
    match s
    case CreateRole(name, password) => l.(roles := Upsert(l.roles, name, password))
    case AlterRole(name, change) =>
      if change.None? then l else l.(roles := Upsert(l.roles, name, change.value))
    case RenameRole(from, to) => l.(roles := Rename(l.roles, from, to, None))
    case DropRoles(names) => l.(roles := DropAll(l.roles, names))
    case CreateDb(name, owner) => l.(dbs := Upsert(l.dbs, name, owner))
    case AlterOwner(name, owner) => l.(dbs := Upsert(l.dbs, name, owner))
    case RenameDb(from, to) => l.(dbs := Rename(l.dbs, from, to, 0))
    case DropDb(name) => l.(dbs := Drop(l.dbs, name, 0))
  }

  // ---------- Merging a committed subtransaction ----------

  function MergeRole(parent: Table<Password>, name: Name, e: Entry<Password>): Table<Password> {
    var p := parent[name := e];
    if e.oldName == "" || e.oldName !in p then p
    else p[name := e.(oldName := p[e.oldName].oldName)] - {e.oldName}
  }

  function MergeDb(parent: Table<Oid>, name: Name, e: Entry<Oid>): Table<Oid> {
    var owner := if e.payload != 0 then e.payload else if name in parent then parent[name].payload else 0;
    var p := parent[name := e.(payload := owner)];
    if e.oldName == "" || e.oldName !in p then p
    else
      var was := p[e.oldName].oldName;
      p[name := p[name].(oldName := if was != "" then was else e.oldName)] - {e.oldName}
  }

  function MergeRoles(parent: Table<Password>, child: Table<Password>, names: seq<Name>): Table<Password> {
    if names == [] then parent else
      var p := MergeRoles(parent, child, names[..|names| - 1]);
      var name := names[|names| - 1];
      if name in child then MergeRole(p, name, child[name]) else p
  }

  function MergeDbs(parent: Table<Oid>, child: Table<Oid>, names: seq<Name>): Table<Oid> {
    if names == [] then parent else
      var p := MergeDbs(parent, child, names[..|names| - 1]);
      var name := names[|names| - 1];
      if name in child then MergeDb(p, name, child[name]) else p
  }

  function Merge(parent: Level, child: Level, scan: Scan): Level {
    Level(MergeDbs(parent.dbs, child.dbs, scan.dbs(child.dbs)),
          MergeRoles(parent.roles, child.roles, scan.roles(child.roles)))
  }

  /** The stack after one event. Events that leave the root table do not occur. */
  function Step(stack: seq<Level>, e: Event, scan: Scan): seq<Level>
    requires stack != []
  {
    var n := |stack| - 1;
    match e
    case Begin => stack + [EMPTY]
    case Do(s) => stack[n := Apply(stack[n], s)]
    case Commit => if n == 0 then stack else stack[..n][n - 1 := Merge(stack[n - 1], stack[n], scan)]
    case Abort => if n == 0 then stack else stack[..n]
  }

  function Run(stack: seq<Level>, events: seq<Event>, scan: Scan): (r: seq<Level>)
    requires stack != []
    ensures r != []
    decreases |events|
  {
    if events == [] then stack else Run(Step(stack, events[0], scan), events[1..], scan)
  }

  lemma {:induction false} RunAppend(stack: seq<Level>, a: seq<Event>, b: seq<Event>, scan: Scan)
    requires stack != []
    ensures Run(stack, a + b, scan) == Run(Run(stack, a, scan), b, scan)
    decreases |a|
  {
    if a == [] {
      assert a + b == b;
    } else {
      assert (a + b)[1..] == a[1..] + b;
      RunAppend(Step(stack, a[0], scan), a[1..], b, scan);
    }
  }

  // ---------- Subtransaction trees ----------

  /** Statements and subtransactions, properly nested. */
  datatype Tree = Leaf(s: Statement) | Sub(body: seq<Tree>, committed: bool)

  function Events(ts: seq<Tree>): seq<Event>
    decreases ts
  {
    if ts == [] then [] else EventsOf(ts[0]) + Events(ts[1..])
  }

  function EventsOf(t: Tree): seq<Event>
    decreases t
  {
    match t
    case Leaf(s) => [Do(s)]
    case Sub(body, committed) => [Begin] + Events(body) + [if committed then Commit else Abort]
  }

  /** The tree without its aborted subtransactions. */
  function Surviving(ts: seq<Tree>): seq<Tree>
    decreases ts
  {
    if ts == [] then [] else
      var rest := Surviving(ts[1..]);
      match ts[0]
      case Leaf(s) => [ts[0]] + rest
      case Sub(body, committed) => if committed then [Sub(Surviving(body), true)] + rest else rest
  }

  /** What the statements of a tree make of one table, without a stack. */
  function Effect(l: Level, ts: seq<Tree>, scan: Scan): Level
    decreases ts
  {
    if ts == [] then l else Effect(TreeEffect(l, ts[0], scan), ts[1..], scan)
  }

  function TreeEffect(l: Level, t: Tree, scan: Scan): Level
    decreases t
  {
    match t
    case Leaf(s) => Apply(l, s)
    case Sub(body, committed) => if committed then Merge(l, Effect(EMPTY, body, scan), scan) else l
  }

  lemma {:induction false} RunTrees(below: seq<Level>, top: Level, ts: seq<Tree>, scan: Scan)
    ensures Run(below + [top], Events(ts), scan) == below + [Effect(top, ts, scan)]
    decreases ts
  {
    if ts != [] {
      hide TreeEffect, Step;
      RunTree(below, top, ts[0], scan);
      RunAppend(below + [top], EventsOf(ts[0]), Events(ts[1..]), scan);
      RunTrees(below, TreeEffect(top, ts[0], scan), ts[1..], scan);
    }
  }

  lemma {:induction false} RunTree(below: seq<Level>, top: Level, t: Tree, scan: Scan)
    ensures Run(below + [top], EventsOf(t), scan) == below + [TreeEffect(top, t, scan)]
    decreases t
  {
    match t
    case Leaf(s) =>
      RunOne(below + [top], Do(s), scan);
      assert Step(below + [top], Do(s), scan) == below + [Apply(top, s)];
    case Sub(body, committed) =>
      RunTrees(below + [top], EMPTY, body, scan);
      RunSub(below, top, body, committed, scan);
  }

  lemma RunOne(stack: seq<Level>, e: Event, scan: Scan)
    requires stack != []
    ensures Run(stack, [e], scan) == Step(stack, e, scan)
  {
    assert [e][1..] == [];
  }

  lemma RunSub(below: seq<Level>, top: Level, body: seq<Tree>, committed: bool, scan: Scan)
    requires Run(below + [top] + [EMPTY], Events(body), scan)
          == below + [top] + [Effect(EMPTY, body, scan)]
    ensures Run(below + [top], EventsOf(Sub(body, committed)), scan)
         == below + [TreeEffect(top, Sub(body, committed), scan)]
  {
    hide Merge, Effect, Events, Run;
    var start, inner := below + [top], Effect(EMPTY, body, scan);
    var last := if committed then Commit else Abort;
    RunAppend(start, [Begin], Events(body) + [last], scan);
    RunOne(start, Begin, scan);
    RunAppend(start + [EMPTY], Events(body), [last], scan);
    RunOne(start + [inner], last, scan);
    assert EventsOf(Sub(body, committed)) == [Begin] + (Events(body) + [last]);
    assert (start + [inner])[..|start|] == start;
  }

  lemma {:induction false} SurvivingEffect(l: Level, ts: seq<Tree>, scan: Scan)
    ensures Effect(l, Surviving(ts), scan) == Effect(l, ts, scan)
    decreases ts
  {
    if ts != [] {
      match ts[0]
      case Leaf(s) =>
        SurvivingEffect(Apply(l, s), ts[1..], scan);
      case Sub(body, committed) =>
        if committed {
          SurvivingEffect(EMPTY, body, scan);
          SurvivingEffect(Merge(l, Effect(EMPTY, body, scan), scan), ts[1..], scan);
        } else {
          SurvivingEffect(l, ts[1..], scan);
        }
    }
  }

  /** Aborted subtransactions leave no trace in the root table, whatever they contained. */
  lemma AbortsLeaveNoTrace(root: Level, ts: seq<Tree>, scan: Scan)
    ensures Run([root], Events(ts), scan) == Run([root], Events(Surviving(ts)), scan)
  {
    assert [root] == [] + [root];
    RunTrees([], root, ts, scan);
    RunTrees([], root, Surviving(ts), scan);
    SurvivingEffect(root, ts, scan);
  }

  // ---------- Committed subtransactions without renames ----------

  ghost predicate Plain(s: Statement) {
    !s.RenameRole? && !s.RenameDb?
  }

  function ApplyAll(l: Level, ss: seq<Statement>): Level {
    if ss == [] then l else Apply(ApplyAll(l, ss[..|ss| - 1]), ss[|ss| - 1])
  }

  /** `child` on top of `parent`, keeping what the parent knows about renames. */
  function Overlay<T>(parent: Table<T>, child: Table<T>): Table<T> {
    parent + map n | n in child :: child[n].(oldName := OldName(parent, n))
  }

  ghost predicate NoOldNames<T>(t: Table<T>) {
    forall n :: n in t ==> t[n].oldName == ""
  }

  lemma PutOverlay<T>(p: Table<T>, c: Table<T>, name: Name, payload: T, op: OpType)
    requires NoOldNames(c)
    ensures OldName(Overlay(p, c), name) == OldName(p, name) && OldName(c, name) == ""
    ensures Overlay(p, c)[name := Entry(OldName(p, name), payload, op)]
         == Overlay(p, c[name := Entry("", payload, op)])
    ensures NoOldNames(c[name := Entry("", payload, op)])
  {
    var d := c[name := Entry("", payload, op)];
    var u, v := Overlay(p, c)[name := Entry(OldName(p, name), payload, op)], Overlay(p, d);
    assert u.Keys == v.Keys;
    forall n | n in u ensures u[n] == v[n] { }
  }

  lemma {:induction false} DropOverlay(p: Table<Password>, c: Table<Password>, names: seq<Name>)
    requires NoOldNames(c)
    ensures DropAll(Overlay(p, c), names) == Overlay(p, DropAll(c, names)) && NoOldNames(DropAll(c, names))
  {
    if names != [] {
      hide Overlay, NoOldNames;
      DropOverlay(p, c, names[..|names| - 1]);
      PutOverlay(p, DropAll(c, names[..|names| - 1]), names[|names| - 1], None, OpDelete);
    }
  }

  function OverlayLevel(parent: Level, child: Level): Level {
    Level(Overlay(parent.dbs, child.dbs), Overlay(parent.roles, child.roles))
  }

  ghost predicate NoRenames(l: Level) {
    NoOldNames(l.dbs) && NoOldNames(l.roles)
  }

  lemma ApplyOverlay(l: Level, c: Level, s: Statement)
    requires Plain(s) && NoRenames(c)
    ensures Apply(OverlayLevel(l, c), s) == OverlayLevel(l, Apply(c, s)) && NoRenames(Apply(c, s))
  {
    hide Overlay, NoOldNames;
    match s
    case CreateRole(name, password) => PutOverlay(l.roles, c.roles, name, password, OpSet);
    case AlterRole(name, change) => if change.Some? { PutOverlay(l.roles, c.roles, name, change.value, OpSet); }
    case DropRoles(names) => DropOverlay(l.roles, c.roles, names);
    case CreateDb(name, owner) => PutOverlay(l.dbs, c.dbs, name, owner, OpSet);
    case AlterOwner(name, owner) => PutOverlay(l.dbs, c.dbs, name, owner, OpSet);
    case DropDb(name) => PutOverlay(l.dbs, c.dbs, name, 0, OpDelete);
  }

  /** Plain statements run inline come to the same as running them on empty tables laid over the parent. */
  lemma {:induction false} InlineIsOverlay(l: Level, ss: seq<Statement>)
    requires forall i :: 0 <= i < |ss| ==> Plain(ss[i])
    ensures NoRenames(ApplyAll(EMPTY, ss)) && ApplyAll(l, ss) == OverlayLevel(l, ApplyAll(EMPTY, ss))
  {
    if ss == [] {
      assert Overlay(l.roles, map[]) == l.roles && Overlay(l.dbs, map[]) == l.dbs;
    } else {
      hide Apply, OverlayLevel, NoRenames;
      InlineIsOverlay(l, ss[..|ss| - 1]);
      assert Plain(ss[|ss| - 1]);
      ApplyOverlay(l, ApplyAll(EMPTY, ss[..|ss| - 1]), ss[|ss| - 1]);
    }
  }

  /** Scans return each entry at least once. */
  ghost predicate Complete(scan: Scan) {
    && (forall t :: ScansAll(scan.roles, t))
    && (forall t :: ScansAll(scan.dbs, t))
  }

  ghost predicate ScansAll<T(!new)>(order: Table<T> -> seq<Name>, t: Table<T>) {
    forall n :: n in t <==> n in order(t)
  }

  function Chosen(c: Table<Password>, names: seq<Name>): Table<Password> {
    map n | n in c && n in names :: c[n]
  }

  lemma {:induction false} MergePlain(p: Table<Password>, c: Table<Password>, names: seq<Name>)
    requires NoOldNames(c)
    ensures MergeRoles(p, c, names) == p + Chosen(c, names)
  {
    if names == [] {
      assert p + Chosen(c, names) == p;
    } else {
      var front, name := names[..|names| - 1], names[|names| - 1];
      MergePlain(p, c, front);
      assert names == front + [name];
      if name in c {
        assert Chosen(c, names) == Chosen(c, front)[name := c[name]];
      } else {
        assert Chosen(c, names) == Chosen(c, front);
      }
    }
  }

  function Owner(t: Table<Oid>, name: Name): Oid {
    if name in t then t[name].payload else 0
  }

  /** The entry that a merge into `p` makes of the child's entry. */
  function Given(p: Table<Oid>, c: Table<Oid>, n: Name): Entry<Oid>
    requires n in c
  {
    if c[n].payload != 0 then c[n] else c[n].(payload := Owner(p, n))
  }

  lemma {:induction false} MergedDbAt(p: Table<Oid>, c: Table<Oid>, names: seq<Name>, n: Name)
    requires NoOldNames(c)
    ensures n in MergeDbs(p, c, names) <==> n in p || (n in c && n in names)
    ensures n in MergeDbs(p, c, names) ==>
      MergeDbs(p, c, names)[n] == if n in c && n in names then Given(p, c, n) else p[n]
  {
    if names != [] {
      var front, name := names[..|names| - 1], names[|names| - 1];
      assert names == front + [name];
      MergedDbAt(p, c, front, n);
    }
  }

  /** The parent holds no rename for anything the child touches, and no owner for a database that the child
      leaves without one. */
  ghost predicate Unrelated(l: Level, c: Level) {
    && (forall n :: n in c.roles ==> OldName(l.roles, n) == "")
    && (forall n :: n in c.dbs ==> OldName(l.dbs, n) == "" && (c.dbs[n].payload != 0 || Owner(l.dbs, n) == 0))
  }

  /** Committing a subtransaction without renames comes to the same as running its statements in the parent
      exactly when the two are unrelated in this sense. */
  lemma PlainCommitIsInline(l: Level, ss: seq<Statement>, scan: Scan)
    requires forall i :: 0 <= i < |ss| ==> Plain(ss[i])
    requires Complete(scan)
    ensures Merge(l, ApplyAll(EMPTY, ss), scan) == ApplyAll(l, ss) <==> Unrelated(l, ApplyAll(EMPTY, ss))
  {
    InlineIsOverlay(l, ss);
    var c := ApplyAll(EMPTY, ss);
    hide ApplyAll, Overlay, MergeRoles, MergeDbs;
    MergedRoles(l.roles, c.roles, scan.roles);
    MergedDbs(l.dbs, c.dbs, scan.dbs);
  }

  lemma MergedRoles(p: Table<Password>, c: Table<Password>, order: Table<Password> -> seq<Name>)
    requires NoOldNames(c) && ScansAll(order, c)
    ensures MergeRoles(p, c, order(c)) == Overlay(p, c) <==> forall n :: n in c ==> OldName(p, n) == ""
  {
    MergePlain(p, c, order(c));
    assert Chosen(c, order(c)) == c;
    if p + c == Overlay(p, c) {
      forall n | n in c ensures OldName(p, n) == "" {
        assert (p + c)[n] == Overlay(p, c)[n];
      }
    }
    if forall n :: n in c ==> OldName(p, n) == "" {
      assert p + c == Overlay(p, c);
    }
  }

  lemma MergedDbs(p: Table<Oid>, c: Table<Oid>, order: Table<Oid> -> seq<Name>)
    requires NoOldNames(c) && ScansAll(order, c)
    ensures MergeDbs(p, c, order(c)) == Overlay(p, c)
       <==> forall n :: n in c ==> OldName(p, n) == "" && (c[n].payload != 0 || Owner(p, n) == 0)
  {
    var m, o := MergeDbs(p, c, order(c)), Overlay(p, c);
    hide MergeDbs, Overlay;
    forall n ensures (n in m <==> n in o) && (n in m && n !in c ==> m[n] == o[n])
      && (n in c ==> n in m && (m[n] == o[n] <==> OldName(p, n) == "" && (c[n].payload != 0 || Owner(p, n) == 0)))
    {
      MergedDbAt(p, c, order(c), n);
      OverlayAt(p, c, n);
    }
    if forall n :: n in c ==> OldName(p, n) == "" && (c[n].payload != 0 || Owner(p, n) == 0) {
      assert m.Keys == o.Keys && forall n :: n in m ==> m[n] == o[n];
    }
  }

  lemma OverlayAt(p: Table<Oid>, c: Table<Oid>, n: Name)
    ensures n in Overlay(p, c) <==> n in p || n in c
    ensures n in Overlay(p, c) ==> Overlay(p, c)[n] == if n in c then c[n].(oldName := OldName(p, n)) else p[n]
  {
  }

  /** The condition can fail: a role renamed in the parent and given a password in a subtransaction loses
      its old name when the subtransaction commits. */
  lemma CommitForgetsRename(scan: Scan)
    requires Complete(scan)
    ensures var l := Apply(EMPTY, RenameRole("a", "b"));
            var ss := [AlterRole("b", Some(Some("secret")))];
      && OldName(ApplyAll(l, ss).roles, "b") == "a"
      && OldName(Merge(l, ApplyAll(EMPTY, ss), scan).roles, "b") == ""
  {
    var l := Apply(EMPTY, RenameRole("a", "b"));
    var s := AlterRole("b", Some(Some("secret")));
    var ss := [s];
    assert ss[..0] == [];
    assert ApplyAll(EMPTY, ss) == Apply(ApplyAll(EMPTY, []), s) && ApplyAll(l, ss) == Apply(ApplyAll(l, []), s);
    var c := ApplyAll(EMPTY, ss).roles;
    assert c == map["b" := Entry("", Some("secret"), OpSet)];
    assert ScansAll(scan.roles, c);
    MergePlain(l.roles, c, scan.roles(c));
  }

  /** Renames in a committed subtransaction are not the same as inline renames either: here the parent has
      altered the role before, and its old name is lost. */
  lemma CommittedRenameDiffers(scan: Scan)
    requires forall t: Table<Password> :: t.Keys == {"b"} ==> scan.roles(t) == ["b"]
    ensures var l := Apply(EMPTY, AlterRole("a", Some(None)));
            var s := RenameRole("a", "b");
      && OldName(Apply(l, s).roles, "b") == "a"
      && OldName(Merge(l, Apply(EMPTY, s), scan).roles, "b") == ""
  {
    var l := Apply(EMPTY, AlterRole("a", Some(None)));
    var c := Apply(EMPTY, RenameRole("a", "b")).roles;
    assert c.Keys == {"b"};
    assert ["b"][..0] == [];
    assert MergeRoles(l.roles, c, ["b"]) == MergeRole(l.roles, "b", c["b"]);
  }

  /** An aborted subtransaction leaves the stack as it was before it started. */
  lemma AbortRestores(below: seq<Level>, top: Level, body: seq<Tree>, scan: Scan)
    ensures Run(below + [top], [Begin] + Events(body) + [Abort], scan) == below + [top]
  {
    RunTree(below, top, Sub(body, false), scan);
    assert EventsOf(Sub(body, false)) == [Begin] + Events(body) + [Abort];
  }

  // ---------- Renames and alters of one level ----------

  function RoleChange(s: Statement): seq<Change<Password>> {
    match s
    case AlterRole(name, change) => if change.Some? then [Altered(name, change.value)] else []
    case RenameRole(from, to) => [Renamed(from, to)]
    case _ => []
  }

  function DbChange(s: Statement): seq<Change<Oid>> {
    match s
    case AlterOwner(name, owner) => [Altered(name, owner)]
    case RenameDb(from, to) => [Renamed(from, to)]
    case _ => []
  }

  function RoleChanges(ss: seq<Statement>): seq<Change<Password>> {
    if ss == [] then [] else RoleChanges(ss[..|ss| - 1]) + RoleChange(ss[|ss| - 1])
  }

  function DbChanges(ss: seq<Statement>): seq<Change<Oid>> {
    if ss == [] then [] else DbChanges(ss[..|ss| - 1]) + DbChange(ss[|ss| - 1])
  }

  ghost predicate Changing(s: Statement) {
    s.AlterRole? || s.RenameRole? || s.AlterOwner? || s.RenameDb?
  }

  lemma OneChange(l: Level, s: Statement)
    requires Changing(s)
    ensures Apply(l, s) == Level(RecordAll(l.dbs, DbChange(s), 0), RecordAll(l.roles, RoleChange(s), None))
  {
    assert forall c: Change<Password> :: [c][1..] == [];
    assert forall c: Change<Oid> :: [c][1..] == [];
  }

  lemma {:induction false} ChangesRecorded(l: Level, ss: seq<Statement>)
    requires forall i :: 0 <= i < |ss| ==> Changing(ss[i])
    ensures ApplyAll(l, ss)
         == Level(RecordAll(l.dbs, DbChanges(ss), 0), RecordAll(l.roles, RoleChanges(ss), None))
  {
    if ss != [] {
      var n := |ss| - 1;
      ChangesRecorded(l, ss[..n]);
      assert Changing(ss[n]);
      OneChange(ApplyAll(l, ss[..n]), ss[n]);
      RecordAllAppend(l.dbs, DbChanges(ss[..n]), DbChange(ss[n]), 0);
      RecordAllAppend(l.roles, RoleChanges(ss[..n]), RoleChange(ss[n]), None);
    }
  }
}
