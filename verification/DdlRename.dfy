/** Committed subtransactions that rename objects: when merging their tables loses something. */
module DdlRename {
  import opened Options
  import opened DdlTables
  import opened DdlStack

  // ---------- The names that statements mention ----------

  function Roles(s: Statement): set<Name> {
    match s
    case CreateRole(name, _) => {name}
    case AlterRole(name, _) => {name}
    case RenameRole(from, to) => {from, to}
    case DropRoles(names) => set n | n in names
    case _ => {}
  }

  function Dbs(s: Statement): set<Name> {
    match s
    case CreateDb(name, _) => {name}
    case AlterOwner(name, _) => {name}
    case RenameDb(from, to) => {from, to}
    case DropDb(name) => {name}
    case _ => {}
  }

  /** The statements mention no other roles than `rs` and no other databases than `ds`. */
  ghost predicate Mention(ss: seq<Statement>, rs: set<Name>, ds: set<Name>) {
    forall i :: 0 <= i < |ss| ==> Roles(ss[i]) <= rs && Dbs(ss[i]) <= ds
  }

  ghost predicate Among<T>(t: Table<T>, names: set<Name>) {
    t.Keys <= names && forall n :: n in t ==> t[n].oldName == "" || t[n].oldName in names
  }

  // ---------- Inline statements on names that the parent does not know ----------

  lemma UpsertApart<T>(p: Table<T>, c: Table<T>, names: set<Name>, name: Name, payload: T)
    requires p.Keys !! names && Among(c, names) && name in names
    ensures Upsert(p + c, name, payload) == p + Upsert(c, name, payload) && Among(Upsert(c, name, payload), names)
  {
  }

  lemma DropApart<T>(p: Table<T>, c: Table<T>, names: set<Name>, name: Name, none: T)
    requires p.Keys !! names && Among(c, names) && name in names
    ensures Drop(p + c, name, none) == p + Drop(c, name, none) && Among(Drop(c, name, none), names)
  {
  }

  lemma RenameApart<T>(p: Table<T>, c: Table<T>, names: set<Name>, from: Name, to: Name, none: T)
    requires p.Keys !! names && Among(c, names) && from in names && to in names
    ensures Rename(p + c, from, to, none) == p + Rename(c, from, to, none) && Among(Rename(c, from, to, none), names)
  {
    assert from !in p;
  }

  lemma {:induction false} DropAllApart(p: Table<Password>, c: Table<Password>, names: set<Name>, drops: seq<Name>)
    requires p.Keys !! names && Among(c, names) && (set n | n in drops) <= names
    ensures DropAll(p + c, drops) == p + DropAll(c, drops) && Among(DropAll(c, drops), names)
  {
    if drops != [] {
      var n := |drops| - 1;
      assert (set m | m in drops[..n]) <= names && drops[n] in names;
      DropAllApart(p, c, names, drops[..n]);
      DropApart(p, DropAll(c, drops[..n]), names, drops[n], None);
    }
  }

  /** The two tables of `c` beside those of `l`. */
  function Beside(l: Level, c: Level): Level {
    Level(l.dbs + c.dbs, l.roles + c.roles)
  }

  ghost predicate Apart(l: Level, rs: set<Name>, ds: set<Name>) {
    l.roles.Keys !! rs && l.dbs.Keys !! ds
  }

  lemma ApplyApart(l: Level, c: Level, s: Statement, rs: set<Name>, ds: set<Name>)
    requires Apart(l, rs, ds) && Among(c.roles, rs) && Among(c.dbs, ds) && Roles(s) <= rs && Dbs(s) <= ds
    ensures Apply(Beside(l, c), s) == Beside(l, Apply(c, s))
    ensures Among(Apply(c, s).roles, rs) && Among(Apply(c, s).dbs, ds)
  {
    hide Among, Upsert, Rename, Drop;
    match s
    case CreateRole(name, password) => UpsertApart(l.roles, c.roles, rs, name, password);
    case AlterRole(name, change) => if change.Some? { UpsertApart(l.roles, c.roles, rs, name, change.value); }
    case RenameRole(from, to) => RenameApart(l.roles, c.roles, rs, from, to, None);
    case DropRoles(names) => DropAllApart(l.roles, c.roles, rs, names);
    case CreateDb(name, owner) => UpsertApart(l.dbs, c.dbs, ds, name, owner);
    case AlterOwner(name, owner) => UpsertApart(l.dbs, c.dbs, ds, name, owner);
    case RenameDb(from, to) => RenameApart(l.dbs, c.dbs, ds, from, to, 0);
    case DropDb(name) => DropApart(l.dbs, c.dbs, ds, name, 0);
  }

  lemma {:induction false} InlineApart(l: Level, ss: seq<Statement>, rs: set<Name>, ds: set<Name>)
    requires Apart(l, rs, ds) && Mention(ss, rs, ds)
    ensures var c := ApplyAll(EMPTY, ss);
      ApplyAll(l, ss) == Beside(l, c) && Among(c.roles, rs) && Among(c.dbs, ds)
  {
    if ss == [] {
      assert Beside(l, EMPTY) == l;
    } else {
      var n := |ss| - 1;
      assert Roles(ss[n]) <= rs && Dbs(ss[n]) <= ds;
      hide Apply, Beside, Among, Roles, Dbs;
      InlineApart(l, ss[..n], rs, ds);
      ApplyApart(l, ApplyAll(EMPTY, ss[..n]), ss[n], rs, ds);
    }
  }

  // ---------- Merging, entry by entry ----------

  /** Neither the name nor the old name is in use. */
  ghost predicate Free<T>(p: Table<T>, name: Name, e: Entry<T>) {
    name !in p && (e.oldName == "" || (e.oldName !in p && e.oldName != name))
  }

  /** One entry written into the parent's table: what MergeRole and MergeDb have in common. */
  ghost predicate Writes<T(!new)>(step: (Table<T>, Name, Entry<T>) -> Table<T>) {
    && (forall p: Table<T>, name: Name, e: Entry<T> :: Free(p, name, e) ==> step(p, name, e) == p[name := e])
    && (forall p: Table<T>, name: Name, e: Entry<T>, n: Name :: n in step(p, name, e) ==> n in p || n == name)
    && (forall p: Table<T>, name: Name, e: Entry<T> :: e.oldName != "" ==> e.oldName !in step(p, name, e))
  }

  function MergeAll<T>(step: (Table<T>, Name, Entry<T>) -> Table<T>, p: Table<T>, c: Table<T>,
                       names: seq<Name>): Table<T>
  {
    if names == [] then p else
      var q := MergeAll(step, p, c, names[..|names| - 1]);
      var name := names[|names| - 1];
      if name in c then step(q, name, c[name]) else q
  }

  lemma {:induction false} RolesAsAll(p: Table<Password>, c: Table<Password>, names: seq<Name>)
    ensures MergeRoles(p, c, names) == MergeAll(MergeRole, p, c, names)
  {
    if names != [] {
      RolesAsAll(p, c, names[..|names| - 1]);
    }
  }

  lemma {:induction false} DbsAsAll(p: Table<Oid>, c: Table<Oid>, names: seq<Name>)
    ensures MergeDbs(p, c, names) == MergeAll(MergeDb, p, c, names)
  {
    if names != [] {
      DbsAsAll(p, c, names[..|names| - 1]);
    }
  }

  lemma RoleWrites()
    ensures Writes(MergeRole)
  {
  }

  lemma DbWrites()
    ensures Writes(MergeDb)
  {
    forall p: Table<Oid>, name: Name, e: Entry<Oid> | Free(p, name, e)
      ensures MergeDb(p, name, e) == p[name := e]
    {
      assert e.(payload := e.payload) == e;
    }
  }

  /** A scan lists every entry once. */
  ghost predicate Scans<T>(names: seq<Name>, c: Table<T>) {
    && (forall n :: n in c <==> n in names)
    && (forall i, j :: 0 <= i < j < |names| ==> names[i] != names[j])
  }

  /** No entry is scanned at or after the entry that now has its old name. */
  ghost predicate InTime<T>(c: Table<T>, names: seq<Name>)
    requires forall n :: n in names ==> n in c
  {
    forall i :: 0 <= i < |names| ==> c[names[i]].oldName == "" || c[names[i]].oldName !in names[..i + 1]
  }

  function Picked<T>(c: Table<T>, names: seq<Name>): Table<T> {
    map n | n in c && n in names :: c[n]
  }

  lemma WritesFree<T(!new)>(step: (Table<T>, Name, Entry<T>) -> Table<T>, p: Table<T>, name: Name, e: Entry<T>)
    requires Writes(step) && Free(p, name, e)
    ensures step(p, name, e) == p[name := e]
  {
  }

  lemma NextIsFree<T>(p: Table<T>, c: Table<T>, names: seq<Name>, k: nat, all: set<Name>)
    requires p.Keys !! all && Among(c, all) && Scans(names, c) && k < |names| && InTime(c, names)
    ensures names[k] in c && Free(p + Picked(c, names[..k]), names[k], c[names[k]])
  {
    var name := names[k];
    assert name in names && name in all;
    assert c[name].oldName == "" || c[name].oldName !in names[..k + 1];
    assert names[..k + 1] == names[..k] + [name];
  }

  lemma PickedNext<T>(p: Table<T>, c: Table<T>, names: seq<Name>, k: nat)
    requires k < |names| && names[k] in c
    ensures (p + Picked(c, names[..k]))[names[k] := c[names[k]]] == p + Picked(c, names[..k + 1])
  {
    assert names[..k + 1] == names[..k] + [names[k]];
    assert Picked(c, names[..k + 1]) == Picked(c, names[..k])[names[k] := c[names[k]]];
  }

  lemma {:induction false} InTimeMerges<T(!new)>(step: (Table<T>, Name, Entry<T>) -> Table<T>, p: Table<T>, c: Table<T>,
                                                 names: seq<Name>, k: nat, all: set<Name>)
    requires Writes(step) && p.Keys !! all && Among(c, all) && Scans(names, c) && k <= |names| && InTime(c, names)
    ensures MergeAll(step, p, c, names[..k]) == p + Picked(c, names[..k])
  {
    hide Among, Scans, InTime, Picked, Free, Writes;
    if k == 0 {
      PickedNone(p, c);
    } else {
      InTimeMerges(step, p, c, names, k - 1, all);
      NextIsFree(p, c, names, k - 1, all);
      PickedNext(p, c, names, k - 1);
      WritesFree(step, p + Picked(c, names[..k - 1]), names[k - 1], c[names[k - 1]]);
      assert names[..k][..k - 1] == names[..k - 1];
    }
  }

  lemma PickedNone<T>(p: Table<T>, c: Table<T>)
    ensures p + Picked(c, []) == p
  {
  }

  /** An entry that was scanned before the one that has its name as old name is gone for good. */
  lemma {:induction false} LateIsLost<T(!new)>(step: (Table<T>, Name, Entry<T>) -> Table<T>, p: Table<T>, c: Table<T>,
                                               names: seq<Name>, i: nat, k: nat)
    requires Writes(step) && Scans(names, c) && i < k <= |names|
    requires names[i] in c && c[names[i]].oldName != "" && c[names[i]].oldName in names[..i + 1]
    ensures c[names[i]].oldName !in MergeAll(step, p, c, names[..k])
  {
    var o, name := c[names[i]].oldName, names[k - 1];
    var q := MergeAll(step, p, c, names[..k - 1]);
    assert names[..k][..k - 1] == names[..k - 1] && name in names;
    if i < k - 1 {
      LateIsLost(step, p, c, names, i, k - 1);
      assert o != name;
    }
    assert MergeAll(step, p, c, names[..k]) == step(q, name, c[name]);
  }

  lemma MergeIff<T(!new)>(step: (Table<T>, Name, Entry<T>) -> Table<T>, p: Table<T>, c: Table<T>, names: seq<Name>,
                          all: set<Name>)
    requires Writes(step) && p.Keys !! all && Among(c, all) && Scans(names, c)
    ensures MergeAll(step, p, c, names) == p + c <==> InTime(c, names)
  {
    assert names[..|names|] == names;
    if InTime(c, names) {
      InTimeMerges(step, p, c, names, |names|, all);
      assert Picked(c, names) == c;
    } else {
      var i :| 0 <= i < |names| && c[names[i]].oldName != "" && c[names[i]].oldName in names[..i + 1];
      assert names[i] in names && c[names[i]].oldName in names;
      LateIsLost(step, p, c, names, i, |names|);
      assert c[names[i]].oldName in p + c;
    }
  }

  // ---------- Commit against inline ----------

  function MergeIn(l: Level, c: Level, roles: seq<Name>, dbs: seq<Name>): Level {
    Level(MergeDbs(l.dbs, c.dbs, dbs), MergeRoles(l.roles, c.roles, roles))
  }

  lemma MergeIsMergeIn(l: Level, c: Level, scan: Scan)
    ensures Merge(l, c, scan) == MergeIn(l, c, scan.roles(c.roles), scan.dbs(c.dbs))
  {
  }

  /** For any statements, renames included, on objects that the parent does not mention: committing the
      subtransaction equals running it inline if and only if, in the order in which the tables are scanned,
      every entry comes after all entries that have its name as their old name. */
  lemma CommitIsInline(l: Level, ss: seq<Statement>, rs: set<Name>, ds: set<Name>, roles: seq<Name>, dbs: seq<Name>)
    requires Apart(l, rs, ds) && Mention(ss, rs, ds)
    requires Scans(roles, ApplyAll(EMPTY, ss).roles) && Scans(dbs, ApplyAll(EMPTY, ss).dbs)
    ensures var c := ApplyAll(EMPTY, ss);
      MergeIn(l, c, roles, dbs) == ApplyAll(l, ss) <==> InTime(c.roles, roles) && InTime(c.dbs, dbs)
  {
    var c := ApplyAll(EMPTY, ss);
    InlineApart(l, ss, rs, ds);
    hide ApplyAll, MergeRoles, MergeDbs, Among, Scans, InTime, Writes;
    RolesAsAll(l.roles, c.roles, roles);
    DbsAsAll(l.dbs, c.dbs, dbs);
    RoleWrites();
    DbWrites();
    MergeIff(MergeRole, l.roles, c.roles, roles, rs);
    MergeIff(MergeDb, l.dbs, c.dbs, dbs, ds);
  }

  /** The same in terms of the scan that the merge loops use. */
  lemma CommitWithScan(l: Level, ss: seq<Statement>, rs: set<Name>, ds: set<Name>, scan: Scan)
    requires Apart(l, rs, ds) && Mention(ss, rs, ds)
    requires Scans(scan.roles(ApplyAll(EMPTY, ss).roles), ApplyAll(EMPTY, ss).roles)
    requires Scans(scan.dbs(ApplyAll(EMPTY, ss).dbs), ApplyAll(EMPTY, ss).dbs)
    ensures var c := ApplyAll(EMPTY, ss);
      Merge(l, c, scan) == ApplyAll(l, ss) <==> InTime(c.roles, scan.roles(c.roles)) && InTime(c.dbs, scan.dbs(c.dbs))
  {
    var c := ApplyAll(EMPTY, ss);
    CommitIsInline(l, ss, rs, ds, scan.roles(c.roles), scan.dbs(c.dbs));
    hide ApplyAll, Scans, InTime, Apart, Mention, MergeIn, Merge;
    MergeIsMergeIn(l, c, scan);
  }

  /** No entry's old name is the name of an entry. */
  ghost predicate NoChain<T>(c: Table<T>) {
    forall n :: n in c ==> c[n].oldName == "" || c[n].oldName !in c
  }

  lemma {:induction false} Listing(keys: set<Name>) returns (names: seq<Name>)
    ensures (forall n :: n in keys <==> n in names) && forall i, j :: 0 <= i < j < |names| ==> names[i] != names[j]
    decreases |keys|
  {
    names := [];
    if keys != {} {
      var n :| n in keys;
      var rest := Listing(keys - {n});
      names := [n] + rest;
    }
  }

  /** Some order of scanning goes wrong as soon as an entry's old name is the name of an entry. */
  lemma SomeScan<T>(c: Table<T>) returns (names: seq<Name>)
    ensures Scans(names, c) && (InTime(c, names) <==> NoChain(c))
  {
    if NoChain(c) {
      names := Listing(c.Keys);
    } else {
      var n :| n in c && c[n].oldName != "" && c[n].oldName in c;
      var o := c[n].oldName;
      var rest := Listing(c.Keys - {o});
      names := [o] + rest;
      assert forall m :: m in c <==> m in names;
      var i :| 0 <= i < |names| && names[i] == n;
      assert names[..i + 1][0] == o;
    }
  }

  lemma NoChainInTime<T>(c: Table<T>, names: seq<Name>)
    requires Scans(names, c) && NoChain(c)
    ensures InTime(c, names)
  {
  }

  ghost predicate AlwaysInline(l: Level, ss: seq<Statement>) {
    forall roles, dbs :: Scans(roles, ApplyAll(EMPTY, ss).roles) && Scans(dbs, ApplyAll(EMPTY, ss).dbs) ==>
      MergeIn(l, ApplyAll(EMPTY, ss), roles, dbs) == ApplyAll(l, ss)
  }

  /** Whatever the order in which the tables are scanned, committing equals running inline: exactly when no
      entry of the subtransaction has the name of another one, or its own, as its old name. */
  lemma AlwaysInlineIff(l: Level, ss: seq<Statement>, rs: set<Name>, ds: set<Name>)
    requires Apart(l, rs, ds) && Mention(ss, rs, ds)
    ensures AlwaysInline(l, ss) <==> NoChain(ApplyAll(EMPTY, ss).roles) && NoChain(ApplyAll(EMPTY, ss).dbs)
  {
    var c := ApplyAll(EMPTY, ss);
    var roles := SomeScan(c.roles);
    var dbs := SomeScan(c.dbs);
    CommitIsInline(l, ss, rs, ds, roles, dbs);
    hide ApplyAll, MergeIn, Scans, InTime, NoChain, Apart, Mention;
    forall rs', ds' | Scans(rs', c.roles) && Scans(ds', c.dbs) && NoChain(c.roles) && NoChain(c.dbs)
      ensures MergeIn(l, c, rs', ds') == ApplyAll(l, ss)
    {
      NoChainInTime(c.roles, rs');
      NoChainInTime(c.dbs, ds');
      CommitIsInline(l, ss, rs, ds, rs', ds');
    }
  }

  /** Example: a subtransaction that renames b to c and then a to b, scanned in that order. One entry is left:
      c, with the old name of b. */
  lemma ShiftLosesEntry()
    ensures var ss := [RenameRole("b", "c"), RenameRole("a", "b")];
      && Scans(["b", "c"], ApplyAll(EMPTY, ss).roles)
      && MergeIn(EMPTY, ApplyAll(EMPTY, ss), ["b", "c"], []).roles == map["c" := Entry("a", None, OpSet)]
      && ApplyAll(EMPTY, ss).roles == map["b" := Entry("a", None, OpSet), "c" := Entry("b", None, OpSet)]
  {
    var one, two := RenameRole("b", "c"), RenameRole("a", "b");
    var ss := [one, two];
    assert ss[..1] == [one] && [one][..0] == [];
    assert ApplyAll(EMPTY, [one]) == Apply(EMPTY, one);
    assert ApplyAll(EMPTY, ss) == Apply(Apply(EMPTY, one), two);
    var c := ApplyAll(EMPTY, ss).roles;
    assert c == map["b" := Entry("a", None, OpSet), "c" := Entry("b", None, OpSet)];
    assert ["b", "c"][..1] == ["b"] && ["b"][..0] == [];
    var p := MergeRole(map[], "b", c["b"]);
    assert p == map["b" := c["b"]];
    assert MergeRoles(map[], c, ["b"]) == p;
    assert MergeRoles(map[], c, ["b", "c"]) == MergeRole(p, "c", c["c"]);
  }

  /** Over a parent that mentions the names, a subtransaction's tables do not say what its statements do inline:
      renaming x to n and on to y before creating n removes what the parent had recorded for n, renaming x to y
      does not. So no merge of the tables can be right for both. */
  lemma TablesDoNotDecide(was: Name) returns (l: Level, a: seq<Statement>, b: seq<Statement>)
    requires was != ""
    ensures ApplyAll(EMPTY, a) == ApplyAll(EMPTY, b) && ApplyAll(l, a) != ApplyAll(l, b)
    ensures forall scan ::
      Merge(l, ApplyAll(EMPTY, a), scan) != ApplyAll(l, a) || Merge(l, ApplyAll(EMPTY, b), scan) != ApplyAll(l, b)
  {
    var create := CreateRole("n", None);
    l := Level(map[], map["n" := Entry(was, None, OpDelete)]);
    a := [RenameRole("x", "n"), RenameRole("n", "y"), create];
    b := [RenameRole("x", "y"), create];
    Unfold(EMPTY, a);
    Unfold(EMPTY, b);
    Unfold(l, a);
    Unfold(l, b);
    var both := map["y" := Entry("x", None, OpSet), "n" := Entry("", None, OpSet)];
    assert ApplyAll(EMPTY, a).roles == both;
    assert ApplyAll(EMPTY, b).roles == both;
    assert ApplyAll(l, a).roles["n"].oldName == "";
    assert ApplyAll(l, b).roles["n"].oldName == was;
  }

  /** Two or three statements, one by one. */
  lemma Unfold(l: Level, ss: seq<Statement>)
    requires 2 <= |ss| <= 3
    ensures ApplyAll(l, ss) ==
      var two := Apply(Apply(l, ss[0]), ss[1]); if |ss| == 3 then Apply(two, ss[2]) else two
  {
    hide Apply;
    assert ss[..2][..1] == [ss[0]] && [ss[0]][..0] == [];
    assert ApplyAll(l, ss[..1]) == Apply(l, ss[0]) by { assert ss[..1] == [ss[0]]; }
    assert ApplyAll(l, ss[..2]) == Apply(Apply(l, ss[0]), ss[1]);
    assert |ss| == 2 ==> ss[..2] == ss;
  }

  // ---------- A rename of something the parent has changed ----------

  /** Any parent: a committed rename of a role equals an inline one exactly when the parent has no entry for
      the role, or one that only says that it was renamed before. */
  lemma RoleRenameIff(l: Level, from: Name, to: Name)
    requires from != to && from != ""
    ensures var s := RenameRole(from, to);
      MergeIn(l, Apply(EMPTY, s), [to], []) == Apply(l, s)
      <==> from !in l.roles || (l.roles[from].oldName != "" && l.roles[from].payload == None)
  {
    var s := RenameRole(from, to);
    var c := Apply(EMPTY, s).roles;
    assert c == map[to := Entry(from, None, OpSet)] && [to][..0] == [];
    var merged, inline := MergeRoles(l.roles, c, [to]), Rename(l.roles, from, to, None);
    assert MergeRoles(l.roles, c, []) == l.roles;
    assert merged == MergeRole(l.roles, to, c[to]);
    assert MergeDbs(l.dbs, map[], []) == l.dbs;
    if from in l.roles {
      assert merged == l.roles[to := Entry(l.roles[from].oldName, None, OpSet)] - {from};
      assert merged[to] == inline[to] <==> l.roles[from].oldName != "" && l.roles[from].payload == None;
      assert merged[to] == inline[to] ==> merged == inline;
    }
  }

  /** For a database it does so exactly when the parent has recorded the same owner, or none, under both
      names. */
  lemma DbRenameIff(l: Level, from: Name, to: Name)
    requires from != to && from != ""
    ensures var s := RenameDb(from, to);
      MergeIn(l, Apply(EMPTY, s), [], [to]) == Apply(l, s) <==> Owner(l.dbs, from) == Owner(l.dbs, to)
  {
    var s := RenameDb(from, to);
    var c := Apply(EMPTY, s).dbs;
    assert c == map[to := Entry(from, 0, OpSet)] && [to][..0] == [];
    var merged, inline := MergeDbs(l.dbs, c, [to]), Rename(l.dbs, from, to, 0);
    assert MergeDbs(l.dbs, c, []) == l.dbs;
    assert merged == MergeDb(l.dbs, to, c[to]);
    assert MergeRoles(l.roles, map[], []) == l.roles;
    assert merged[to] == inline[to] <==> Owner(l.dbs, from) == Owner(l.dbs, to);
    assert merged[to] == inline[to] ==> merged == inline;
  }
}
