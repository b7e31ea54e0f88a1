/** A committed subtransaction merged into any parent: what becomes of every entry. */
module DdlMerge {
  import opened Options
  import opened DdlTables
  import opened DdlStack
  import opened DdlRename

  /** A merge step touches the entry's name and its old name only: the old name goes, the name stays unless it is
      the old name too. */
  ghost predicate Moves<T(!new)>(step: (Table<T>, Name, Entry<T>) -> Table<T>) {
    && (forall p: Table<T>, name: Name, e: Entry<T> ::
          name in step(p, name, e) <==> e.oldName == "" || e.oldName != name)
    && (forall p: Table<T>, name: Name, e: Entry<T>, n: Name :: n != name ==> MovesAt(step(p, name, e), p, e, n))
  }

  ghost predicate MovesAt<T>(r: Table<T>, p: Table<T>, e: Entry<T>, n: Name) {
    && (n in r <==> n in p && !(n != "" && e.oldName == n))
    && (n in r ==> r[n] == p[n])
  }

  lemma RoleMoves()
    ensures Moves(MergeRole)
  {
  }

  lemma DbMoves()
    ensures Moves(MergeDb)
  {
  }

  /** One of the entries `names[i..k]` has `n` as its old name. */
  ghost predicate Taken<T>(c: Table<T>, names: seq<Name>, i: nat, k: nat, n: Name)
    requires k <= |names|
  {
    n != "" && exists j :: i <= j < k && names[j] in c && c[names[j]].oldName == n
  }

  lemma TakenNext<T>(c: Table<T>, names: seq<Name>, i: nat, k: nat, n: Name)
    requires i <= k < |names| && names[k] in c
    ensures Taken(c, names, i, k + 1, n) <==> Taken(c, names, i, k, n) || (n != "" && c[names[k]].oldName == n)
  {
  }

  lemma MergeAllNext<T>(step: (Table<T>, Name, Entry<T>) -> Table<T>, p: Table<T>, c: Table<T>, names: seq<Name>,
                        k: nat)
    requires k < |names| && names[k] in c
    ensures MergeAll(step, p, c, names[..k + 1]) == step(MergeAll(step, p, c, names[..k]), names[k], c[names[k]])
  {
    assert names[..k + 1][..k] == names[..k];
  }

  /** A name that is not among the entries merged so far has its entry of the parent, unless one of them took it. */
  lemma {:induction false} Untouched<T(!new)>(step: (Table<T>, Name, Entry<T>) -> Table<T>, p: Table<T>, c: Table<T>,
                                        names: seq<Name>, k: nat, n: Name)
    requires Moves(step) && Scans(names, c) && k <= |names| && n !in names[..k]
    ensures var r := MergeAll(step, p, c, names[..k]);
      (n in r <==> n in p && !Taken(c, names, 0, k, n)) && (n in r ==> r[n] == p[n])
  {
    if k > 0 {
      assert names[..k] == names[..k - 1] + [names[k - 1]];
      assert names[k - 1] in names;
      Untouched(step, p, c, names, k - 1, n);
      MergeAllNext(step, p, c, names, k - 1);
      TakenNext(c, names, 0, k - 1, n);
      var q := MergeAll(step, p, c, names[..k - 1]);
      assert MovesAt(step(q, names[k - 1], c[names[k - 1]]), q, c[names[k - 1]], n);
    }
  }

  /** An entry that was merged is there as it was written, unless one merged later, or it itself, took its
      name. */
  lemma {:induction false} Written<T(!new)>(step: (Table<T>, Name, Entry<T>) -> Table<T>, p: Table<T>, c: Table<T>,
                                      names: seq<Name>, i: nat, k: nat)
    requires Moves(step) && Scans(names, c) && i < k <= |names|
    ensures names[i] in c
    ensures var n, r := names[i], MergeAll(step, p, c, names[..k]);
      && (n in r <==> !Taken(c, names, i, k, n))
      && (n in r ==> n in step(MergeAll(step, p, c, names[..i]), n, c[n]))
      && (n in r ==> r[n] == step(MergeAll(step, p, c, names[..i]), n, c[n])[n])
  {
    var n, last := names[i], names[k - 1];
    assert n in names && last in names;
    MergeAllNext(step, p, c, names, k - 1);
    TakenNext(c, names, i, k - 1, n);
    var q := MergeAll(step, p, c, names[..k - 1]);
    if i < k - 1 {
      Written(step, p, c, names, i, k - 1);
      assert MovesAt(step(q, last, c[last]), q, c[last], n);
    } else {
      assert !Taken(c, names, i, i, n);
    }
  }

  // ---------- Roles ----------

  /** Every role after a merge. One that the subtransaction did not touch has the parent's entry, unless it was
      renamed away. One that it did has the subtransaction's own password and operation, and is missing exactly
      when an entry merged at the same time or later has its name as old name. Its old name is the one recorded
      for it by the subtransaction, unless the table had an entry under that name when it was merged: then it is
      the old name of that entry. */
  lemma RoleAfterMerge(p: Table<Password>, c: Table<Password>, names: seq<Name>, i: nat)
    requires Scans(names, c) && i < |names|
    ensures var n, r := names[i], MergeRoles(p, c, names);
            var before := MergeRoles(p, c, names[..i]);
      && n in c && (n in r <==> !Taken(c, names, i, |names|, n))
      && (n in r ==>
            && r[n].payload == c[n].payload && r[n].op == c[n].op
            && (c[n].oldName == "" ==> r[n].oldName == "")
            && (c[n].oldName != "" && c[n].oldName !in before ==> r[n].oldName == c[n].oldName)
            && (c[n].oldName != "" && c[n].oldName in before ==> r[n].oldName == before[c[n].oldName].oldName))
  {
    assert names[..|names|] == names;
    RolesAsAll(p, c, names);
    RolesAsAll(p, c, names[..i]);
    RoleMoves();
    hide MergeAll, MergeRoles;
    Written(MergeRole, p, c, names, i, |names|);
    if c[names[i]].oldName == names[i] && names[i] != "" {
      assert Taken(c, names, i, |names|, names[i]);
    }
  }

  lemma RolesKept(p: Table<Password>, c: Table<Password>, names: seq<Name>)
    requires Scans(names, c)
    ensures var r := MergeRoles(p, c, names);
      forall n :: n in c && n in r ==> r[n].payload == c[n].payload && r[n].op == c[n].op
  {
    var r := MergeRoles(p, c, names);
    forall n | n in c && n in r ensures r[n].payload == c[n].payload && r[n].op == c[n].op {
      var i :| 0 <= i < |names| && names[i] == n;
      RoleAfterMerge(p, c, names, i);
    }
  }

  lemma RoleNotTouched(p: Table<Password>, c: Table<Password>, names: seq<Name>, n: Name)
    requires Scans(names, c) && n !in c
    ensures var r := MergeRoles(p, c, names);
      && (n in r <==> n in p && !(n != "" && exists m :: m in c && c[m].oldName == n))
      && (n in r ==> r[n] == p[n])
  {
    assert names[..|names|] == names;
    RolesAsAll(p, c, names);
    RoleMoves();
    Untouched(MergeRole, p, c, names, |names|, n);
    TakenByAny(c, names, n);
  }

  lemma TakenByAny<T>(c: Table<T>, names: seq<Name>, n: Name)
    requires Scans(names, c)
    ensures Taken(c, names, 0, |names|, n) <==> n != "" && exists m :: m in c && c[m].oldName == n
  {
    if n != "" && exists m :: m in c && c[m].oldName == n {
      var m :| m in c && c[m].oldName == n;
      var j :| 0 <= j < |names| && names[j] == m;
    }
  }

  /** The old name belongs to the parent alone: the subtransaction has no entry under it and no other entry that
      was renamed from it. */
  ghost predicate OnlyFrom<T>(c: Table<T>, n: Name, former: Name)
    requires n in c
  {
    c[n].oldName == former && former != "" && former !in c && forall m :: m in c && m != n ==> c[m].oldName != former
  }

  lemma StillThere<T(!new)>(step: (Table<T>, Name, Entry<T>) -> Table<T>, p: Table<T>, c: Table<T>, names: seq<Name>,
                      i: nat, former: Name)
    requires Moves(step) && Scans(names, c) && i < |names| && names[i] in c && OnlyFrom(c, names[i], former)
    ensures var before := MergeAll(step, p, c, names[..i]);
      (former in before <==> former in p) && (former in p ==> before[former] == p[former])
  {
    forall j | 0 <= j < i ensures names[j] in c && c[names[j]].oldName != former {
      assert names[j] in names && names[j] != names[i];
    }
    assert former !in names;
    Untouched(step, p, c, names, i, former);
  }

  /** A role that the subtransaction renamed from one that the parent alone knows: its old name is the parent's
      old name of that one, which is gone. */
  lemma RenamedFromParent(p: Table<Password>, c: Table<Password>, names: seq<Name>, i: nat, former: Name)
    requires Scans(names, c) && i < |names| && names[i] in c && OnlyFrom(c, names[i], former) && former in p
    ensures var n, r := names[i], MergeRoles(p, c, names);
      && former !in r
      && (n in r ==> r[n] == Entry(p[former].oldName, c[n].payload, c[n].op))
  {
    hide Moves, MergeRole, MergeRoles, Taken;
    RoleMoves();
    RolesAsAll(p, c, names[..i]);
    StillThere(MergeRole, p, c, names, i, former);
    RoleAfterMerge(p, c, names, i);
    RoleNotTouched(p, c, names, former);
  }

  // ---------- Databases ----------

  /** Every database after a merge: as for roles, but the owner is the subtransaction's own where it has one and
      otherwise what the table had under the name, and an old name is never lost. */
  lemma DbAfterMerge(p: Table<Oid>, c: Table<Oid>, names: seq<Name>, i: nat)
    requires Scans(names, c) && i < |names|
    ensures var n, r := names[i], MergeDbs(p, c, names);
            var before := MergeDbs(p, c, names[..i]);
      && n in c && (n in r <==> !Taken(c, names, i, |names|, n))
      && (n in r ==>
            && r[n].op == c[n].op
            && (c[n].payload != 0 ==> r[n].payload == c[n].payload)
            && (c[n].payload == 0 ==>
                  r[n].payload == if n in p && !Taken(c, names, 0, i, n) then p[n].payload else 0)
            && (c[n].oldName == "" ==> r[n].oldName == "")
            && (c[n].oldName != "" && c[n].oldName !in before ==> r[n].oldName == c[n].oldName)
            && (c[n].oldName != "" && c[n].oldName in before ==>
                  r[n].oldName == if before[c[n].oldName].oldName != "" then before[c[n].oldName].oldName
                                  else c[n].oldName))
  {
    assert names[..|names|] == names;
    DbsAsAll(p, c, names);
    DbsAsAll(p, c, names[..i]);
    DbMoves();
    hide MergeAll, MergeDbs;
    Written(MergeDb, p, c, names, i, |names|);
    assert names[i] !in names[..i];
    Untouched(MergeDb, p, c, names, i, names[i]);
    if c[names[i]].oldName == names[i] && names[i] != "" {
      assert Taken(c, names, i, |names|, names[i]);
    }
  }

  lemma DbsKept(p: Table<Oid>, c: Table<Oid>, names: seq<Name>)
    requires Scans(names, c)
    ensures var r := MergeDbs(p, c, names);
      forall n :: n in c && n in r ==> (c[n].payload != 0 ==> r[n].payload == c[n].payload) && r[n].op == c[n].op
  {
    var r := MergeDbs(p, c, names);
    forall n | n in c && n in r
      ensures (c[n].payload != 0 ==> r[n].payload == c[n].payload) && r[n].op == c[n].op
    {
      var i :| 0 <= i < |names| && names[i] == n;
      DbAfterMerge(p, c, names, i);
    }
  }

  lemma DbNotTouched(p: Table<Oid>, c: Table<Oid>, names: seq<Name>, n: Name)
    requires Scans(names, c) && n !in c
    ensures var r := MergeDbs(p, c, names);
      && (n in r <==> n in p && !(n != "" && exists m :: m in c && c[m].oldName == n))
      && (n in r ==> r[n] == p[n])
  {
    assert names[..|names|] == names;
    DbsAsAll(p, c, names);
    DbMoves();
    Untouched(MergeDb, p, c, names, |names|, n);
    TakenByAny(c, names, n);
  }

  lemma DbRenamedFromParent(p: Table<Oid>, c: Table<Oid>, names: seq<Name>, i: nat, former: Name)
    requires Scans(names, c) && i < |names| && names[i] in c && OnlyFrom(c, names[i], former) && former in p
    ensures var n, r := names[i], MergeDbs(p, c, names);
      && former !in r
      && (n in r ==> r[n].oldName == if p[former].oldName != "" then p[former].oldName else former)
  {
    hide Moves, MergeDb, MergeDbs, Taken;
    DbMoves();
    DbsAsAll(p, c, names[..i]);
    StillThere(MergeDb, p, c, names, i, former);
    DbAfterMerge(p, c, names, i);
    DbNotTouched(p, c, names, former);
  }
}
