/** The statement and transaction hooks that keep the stack of change tables. */
module DdlTracker {
  import opened Options
  import opened DdlTables
  import opened DdlStack
  import opened DdlRename
  import opened DdlMerge

  class Tracker {
    const scan: Scan
    var stack: seq<Level>

    constructor (scan: Scan)
      ensures this.scan == scan && stack == [EMPTY]
    {
      this.scan, stack := scan, [EMPTY];
    }

    // ---------- Subtransactions ----------

    method PushTable()
      requires stack != []
      modifies `stack
      ensures stack == Step(old(stack), Begin, scan)
    {
      stack := stack + [EMPTY];
    }

    method PopTable()
      requires |stack| > 1
      modifies `stack
      ensures stack == Step(old(stack), Abort, scan)
    {
      stack := stack[..|stack| - 1];
    }

    /** Writes the entries of the committed subtransaction's tables one by one into the parent's. */
    method MergeTable()
      requires |stack| > 1
      modifies `stack
      ensures stack == Step(old(stack), Commit, scan)
    {
      var n := |stack| - 1;
      var child, parent := stack[n], stack[n - 1];
      var dbs := MergeDbTable(parent.dbs, child.dbs);
      var roles := MergeRoleTable(parent.roles, child.roles);
      stack := stack[..n][n - 1 := Level(dbs, roles)];
    }

    method MergeDbTable(parent: Table<Oid>, child: Table<Oid>) returns (r: Table<Oid>)
      ensures r == MergeDbs(parent, child, scan.dbs(child))
      ensures Scans(scan.dbs(child), child) ==> forall n :: n in child && n in r ==>
        (child[n].payload != 0 ==> r[n].payload == child[n].payload) && r[n].op == child[n].op
    {
      var names := scan.dbs(child);
      if Scans(names, child) {
        DbsKept(parent, child, names);
      }
      r := parent;
      for i := 0 to |names|
        invariant r == MergeDbs(parent, child, names[..i])
      {
        assert names[..i + 1][..i] == names[..i];
        var name := names[i];
        if name in child {
          var e := child[name];
          var was := if name in r then r[name].payload else 0;
          r := r[name := Entry(e.oldName, if e.payload != 0 then e.payload else was, e.op)];
          if e.oldName != "" && e.oldName in r {
            if r[e.oldName].oldName != "" {
              r := r[name := r[name].(oldName := r[e.oldName].oldName)];
            }
            r := r - {e.oldName};
          }
        }
      }
      assert names[..|names|] == names;
    }

    method MergeRoleTable(parent: Table<Password>, child: Table<Password>) returns (r: Table<Password>)
      ensures r == MergeRoles(parent, child, scan.roles(child))
      ensures Scans(scan.roles(child), child) ==> forall n :: n in child && n in r ==>
        r[n].payload == child[n].payload && r[n].op == child[n].op
    {
      var names := scan.roles(child);
      if Scans(names, child) {
        RolesKept(parent, child, names);
      }
      r := parent;
      for i := 0 to |names|
        invariant r == MergeRoles(parent, child, names[..i])
      {
        assert names[..i + 1][..i] == names[..i];
        var name := names[i];
        if name in child {
          var e := child[name];
          r := r[name := e];
          if e.oldName != "" && e.oldName in r {
            r := r[name := r[name].(oldName := r[e.oldName].oldName)];
            r := r - {e.oldName};
          }
        }
      }
      assert names[..|names|] == names;
    }

    // ---------- Statements ----------

    /** Only the tables of the current subtransaction are touched. */
    twostate predicate TopOnly()
      requires old(stack) != []
      reads this
    {
      |stack| == |old(stack)| && stack[..|stack| - 1] == old(stack)[..|stack| - 1]
    }

    function Top(): Level
      requires stack != []
      reads this
    {
      stack[|stack| - 1]
    }

    method SetRoles(roles: Table<Password>)
      requires stack != []
      modifies `stack
      ensures TopOnly() && Top() == old(Top()).(roles := roles)
    {
      stack := stack[|stack| - 1 := stack[|stack| - 1].(roles := roles)];
    }

    method SetDbs(dbs: Table<Oid>)
      requires stack != []
      modifies `stack
      ensures TopOnly() && Top() == old(Top()).(dbs := dbs)
    {
      stack := stack[|stack| - 1 := stack[|stack| - 1].(dbs := dbs)];
    }

    method HandleCreateRole(name: Name, password: Password)
      requires stack != []
      modifies `stack
      ensures TopOnly() && Top().dbs == old(Top()).dbs
      ensures Recorded(old(Top()).roles, Top().roles, name, password, OpSet)
    {
      var t := stack[|stack| - 1].roles;
      var e := if name in t then t[name] else Entry("", None, OpSet);
      SetRoles(t[name := e.(payload := password, op := OpSet)]);
    }

    /** Without a password option the role is not touched. */
    method HandleAlterRole(name: Name, change: Option<Password>)
      requires stack != []
      modifies `stack
      ensures TopOnly() && Top().dbs == old(Top()).dbs
      ensures if change.None? then Top().roles == old(Top()).roles
              else Recorded(old(Top()).roles, Top().roles, name, change.value, OpSet)
    {
      if change.None? {
        return;
      }
      var t := stack[|stack| - 1].roles;
      var e := if name in t then t[name] else Entry("", None, OpSet);
      SetRoles(t[name := e.(payload := change.value, op := OpSet)]);
    }

    method HandleRoleRename(from: Name, to: Name)
      requires stack != []
      modifies `stack
      ensures TopOnly() && Top().dbs == old(Top()).dbs
      ensures Moved(old(Top()).roles, Top().roles, from, to, None)
    {
      var t := stack[|stack| - 1].roles;
      if from in t {
        var e := t[from];
        t := t[to := Entry(if e.oldName != "" then e.oldName else from, e.payload, OpSet)];
        t := t - {from};
      } else {
        t := t[to := Entry(from, None, OpSet)];
      }
      SetRoles(t);
    }

    /** Every dropped role is recorded as deleted, and no other entry changes. */
    method HandleDropRole(names: seq<Name>)
      requires stack != []
      modifies `stack
      ensures TopOnly() && Top() == old(Top()).(roles := DropAll(old(Top()).roles, names))
      ensures SameElsewhere(old(Top()).roles, Top().roles, set n | n in names)
      ensures forall n :: n in names ==>
        n in Top().roles && Top().roles[n] == Entry(OldName(old(Top()).roles, n), None, OpDelete)
    {
      var t := stack[|stack| - 1].roles;
      for i := 0 to |names|
        invariant t == DropAll(stack[|stack| - 1].roles, names[..i])
        invariant SameElsewhere(stack[|stack| - 1].roles, t, set n | n in names[..i])
        invariant forall n :: n in names[..i] ==>
          n in t && t[n] == Entry(OldName(stack[|stack| - 1].roles, n), None, OpDelete)
        invariant stack == old(stack)
      {
        assert names[..i + 1][..i] == names[..i] && names[..i + 1] == names[..i] + [names[i]];
        var e := if names[i] in t then t[names[i]] else Entry("", None, OpSet);
        t := t[names[i] := e.(payload := None, op := OpDelete)];
      }
      assert names[..|names|] == names;
      SetRoles(t);
    }

    method HandleCreateDb(name: Name, owner: Oid)
      requires stack != []
      modifies `stack
      ensures TopOnly() && Top().roles == old(Top()).roles
      ensures Recorded(old(Top()).dbs, Top().dbs, name, owner, OpSet)
    {
      var t := stack[|stack| - 1].dbs;
      var e := if name in t then t[name] else Entry("", 0, OpSet);
      SetDbs(t[name := e.(payload := owner, op := OpSet)]);
    }

    method HandleAlterOwner(name: Name, owner: Oid)
      requires stack != []
      modifies `stack
      ensures TopOnly() && Top().roles == old(Top()).roles
      ensures Recorded(old(Top()).dbs, Top().dbs, name, owner, OpSet)
    {
      var t := stack[|stack| - 1].dbs;
      var e := if name in t then t[name] else Entry("", 0, OpSet);
      SetDbs(t[name := e.(payload := owner, op := OpSet)]);
    }

    method HandleDbRename(from: Name, to: Name)
      requires stack != []
      modifies `stack
      ensures TopOnly() && Top().roles == old(Top()).roles
      ensures Moved(old(Top()).dbs, Top().dbs, from, to, 0)
    {
      var t := stack[|stack| - 1].dbs;
      if from in t {
        var e := t[from];
        t := t[to := Entry(if e.oldName != "" then e.oldName else from, e.payload, OpSet)];
        t := t - {from};
      } else {
        t := t[to := Entry(from, 0, OpSet)];
      }
      SetDbs(t);
    }

    method HandleDropDb(name: Name)
      requires stack != []
      modifies `stack
      ensures TopOnly() && Top().roles == old(Top()).roles
      ensures Recorded(old(Top()).dbs, Top().dbs, name, 0, OpDelete)
    {
      var t := stack[|stack| - 1].dbs;
      var e := if name in t then t[name] else Entry("", 0, OpSet);
      SetDbs(t[name := e.(payload := 0, op := OpDelete)]);
    }

    method Handle(s: Statement)
      requires stack != []
      modifies `stack
      ensures TopOnly() && Top() == Apply(old(Top()), s)
    {
      hide Upsert, Rename, Drop, Recorded, Moved;
      ghost var l := Top();
      match s
      case CreateRole(name, password) =>
        HandleCreateRole(name, password);
        RecordedIsUpsert(l.roles, Top().roles, name, password);
      case AlterRole(name, change) =>
        HandleAlterRole(name, change);
        if change.Some? {
          RecordedIsUpsert(l.roles, Top().roles, name, change.value);
        }
      case RenameRole(from, to) =>
        HandleRoleRename(from, to);
        MovedIsRename(l.roles, Top().roles, from, to, None);
      case DropRoles(names) =>
        HandleDropRole(names);
      case CreateDb(name, owner) =>
        HandleCreateDb(name, owner);
        RecordedIsUpsert(l.dbs, Top().dbs, name, owner);
      case AlterOwner(name, owner) =>
        HandleAlterOwner(name, owner);
        RecordedIsUpsert(l.dbs, Top().dbs, name, owner);
      case RenameDb(from, to) =>
        HandleDbRename(from, to);
        MovedIsRename(l.dbs, Top().dbs, from, to, 0);
      case DropDb(name) =>
        HandleDropDb(name);
        RecordedIsDrop(l.dbs, Top().dbs, name, 0);
    }

    // ---------- A whole transaction ----------

    /** Runs renames and alters at one level, starting from empty tables. Whenever the catalogs of roles and
        databases admit them, both tables give every object's name at the start and what was set last, and
        with the names at the start they determine the catalog. */
    method HandleChanges(ss: seq<Statement>, ghost roles: set<Name>, ghost dbs: set<Name>)
      requires stack != [] && Top() == EMPTY && forall i :: 0 <= i < |ss| ==> Changing(ss[i])
      modifies `stack
      ensures TopOnly()
      ensures "" !in roles && PossibleAll(Start(roles), RoleChanges(ss)) ==>
        && Tracks(HappenAll(Start(roles), RoleChanges(ss)), Top().roles, None)
        && HappenAll(Start(roles), RoleChanges(ss)).origin == Rebuilt(roles, Top().roles)
      ensures "" !in dbs && PossibleAll(Start(dbs), DbChanges(ss)) ==>
        && Tracks(HappenAll(Start(dbs), DbChanges(ss)), Top().dbs, 0)
        && HappenAll(Start(dbs), DbChanges(ss)).origin == Rebuilt(dbs, Top().dbs)
    {
      hide Apply, Tracks, Rebuilt, PossibleAll, HappenAll;
      for i := 0 to |ss|
        invariant TopOnly() && stack != [] && Top() == ApplyAll(EMPTY, ss[..i])
      {
        assert ss[..i + 1][..i] == ss[..i];
        Handle(ss[i]);
      }
      assert ss[..|ss|] == ss;
      ChangesRecorded(EMPTY, ss);
      if "" !in roles && PossibleAll(Start(roles), RoleChanges(ss)) {
        RenamesAreExact(roles, RoleChanges(ss), None);
      }
      if "" !in dbs && PossibleAll(Start(dbs), DbChanges(ss)) {
        RenamesAreExact(dbs, DbChanges(ss), 0);
      }
    }

    /** Feeds a properly nested transaction to the hooks. The tables left at the end are those of the
        transaction without its aborted subtransactions. */
    method Process(ts: seq<Tree>)
      requires |stack| == 1
      modifies `stack
      ensures stack == [Effect(old(stack)[0], Surviving(ts), scan)]
    {
      var events := Events(ts);
      ghost var s := stack;
      assert s == [] + [s[0]];
      RunTrees([], s[0], ts, scan);
      SurvivingEffect(s[0], ts, scan);
      var i := 0;
      while i < |events|
        invariant 0 <= i <= |events| && stack != []
        invariant Run(stack, events[i..], scan) == Run(s, events, scan)
      {
        var e := events[i];
        assert events[i..][1..] == events[i + 1..];
        match e {
          case Begin => PushTable();
          case Commit => if |stack| > 1 { MergeTable(); }
          case Abort => if |stack| > 1 { PopTable(); }
          case Do(st) =>
            ghost var was := stack;
            Handle(st);
            assert stack == Step(was, e, scan);
        }
        i := i + 1;
      }
    }
  }
}
