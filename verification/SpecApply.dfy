/** The phases that emit statements for databases while keeping a mirror of the catalog. */
module SpecApply {
  import opened Options
  import opened Quoting
  import opened SpecCatalog
  import opened SpecRetry

  lemma {:induction false} DropOpsAppend(names: seq<Name>, n: Name)
    ensures DropOps(names + [n]) == DropOps(names) + [DropDb(n)]
    decreases |names|
  {
    if names == [] {
      assert [n][1..] == [];
    } else {
      assert (names + [n])[1..] == names[1..] + [n];
      DropOpsAppend(names[1..], n);
    }
  }

  /** The statements succeeded, and the mirror is what would be read from the catalog they led to. */
  ghost predicate Describes(m: Mirror, r: Option<Catalog>) {
    r.Some? && m == Read(r.value)
  }

  predicate Concerns(d: Delta, n: Name) {
    match d
    case Delete(name) => n == name
    case Rename(name, newName) => n == name || n == newName
    case Other(_) => false
  }

  class ApplyContext {
    var dbs: Mirror

    constructor (c: Catalog)
      ensures dbs == Read(c)
    {
      dbs := Read(c);
    }

    /** Drops the databases left invalid by an interrupted DROP, in whatever order the mirror lists them. */
    method DropInvalidDatabases() returns (ops: seq<Sql>, names: seq<Name>)
      modifies this
      ensures forall n :: n in names <==> n in old(dbs) && old(dbs)[n].invalid
      ensures ops == DropOps(names)
      ensures dbs == map n | n in old(dbs) && !old(dbs)[n].invalid :: old(dbs)[n]
    {
      var keys := set n | n in dbs && dbs[n].invalid;
      ops, names := [], [];
      while keys != {}
        invariant forall n :: n in keys || n in names <==> n in old(dbs) && old(dbs)[n].invalid
        invariant ops == DropOps(names)
        invariant dbs == old(dbs) - Names(names)
      {
        var n :| n in keys;
        keys := keys - {n};
        dbs := dbs - {n};
        DropOpsAppend(names, n);
        ops, names := ops + [DropDb(n)], names + [n];
      }
    }

    /** The mirror goes on describing the catalog: whichever catalog it described before, the statements
        succeed on it and lead to the one it describes now. */
    method RenameOrDelete(d: Delta) returns (ops: seq<Sql>)
      modifies this
      ensures forall c :: old(dbs) == Read(c) && Fits(c, d) ==> Describes(dbs, ExecAll(c, ops))
      ensures d.Delete? ==> d.name !in dbs
      ensures d.Rename? && d.name in old(dbs) ==> d.newName in dbs && dbs[d.newName] == old(dbs)[d.name]
      ensures forall n :: !Concerns(d, n) ==> (n in dbs <==> n in old(dbs)) && (n in dbs ==> dbs[n] == old(dbs)[n])
      ensures ops == DeltaOps(old(dbs), d) && dbs == DeltaMirror(old(dbs), d)
    {
      forall c | dbs == Read(c) && Fits(c, d) ensures Describes(DeltaMirror(dbs, d), ExecAll(c, DeltaOps(dbs, d))) {
        DeltaAgrees(c, d);
      }
      ops := [];
      match d {
        case Delete(name) =>
          dbs := dbs - {name};
          ops := [UnsetTemplate(name), DropDb(name)];
        case Rename(name, newName) =>
          if name in dbs {
            var db := dbs[name];
            dbs := dbs - {name};
            dbs := dbs[newName := db];
            ops := [RenameDb(name, newName)];
          }
        case Other(_) =>
      }
    }

    method RenameAndDeleteDatabases(ds: seq<Delta>) returns (ops: seq<Sql>)
      modifies this
      ensures ops == DeltasOps(old(dbs), ds) && dbs == DeltasMirror(old(dbs), ds)
    {
      hide DeltaOps, DeltaMirror;
      ops := [];
      for i := 0 to |ds|
        invariant ops + DeltasOps(dbs, ds[i..]) == DeltasOps(old(dbs), ds)
        invariant DeltasMirror(dbs, ds[i..]) == DeltasMirror(old(dbs), ds)
      {
        assert ds[i..][1..] == ds[i + 1..];
        var more := RenameOrDelete(ds[i]);
        ops := ops + more;
      }
    }

    /** The mirror goes on describing the catalog, and the database is there under its owner, unless its owner
        was recorded in the quoted spelling. */
    method CreateOrAlter(db: SpecDb) returns (ops: seq<Sql>)
      modifies this
      ensures forall c :: old(dbs) == Read(c) ==> (Describes(dbs, ExecAll(c, ops)) <==> NotTwin(c, db))
      ensures db.name in dbs && dbs[db.name].owner == db.owner
      ensures forall n :: n != db.name ==> (n in dbs <==> n in old(dbs)) && (n in dbs ==> dbs[n] == old(dbs)[n])
      ensures ops == SpecOps(old(dbs), db) && dbs == SpecMirror(old(dbs), db)
    {
      forall c | dbs == Read(c)
        ensures Describes(SpecMirror(dbs, db), ExecAll(c, SpecOps(dbs, db))) <==> NotTwin(c, db)
      {
        SpecAgrees(c, db);
      }
      ops := [];
      if db.name in dbs {
        var current := dbs[db.name].owner;
        var changeOwner := if current != "" && current[0] == '"' then PgQuote(db.owner) != current
                           else db.owner != current;
        dbs := dbs[db.name := dbs[db.name].(owner := db.owner)];
        if changeOwner {
          ops := [SetOwner(db.name, db.owner)];
        }
      } else {
        dbs := dbs[db.name := Known(db.owner, false)];
        ops := [CreateDb(db.name, db.owner), GrantAll(db.name)];
      }
    }

    method CreateAndAlterDatabases(specs: seq<SpecDb>) returns (ops: seq<Sql>)
      modifies this
      ensures ops == SpecsOps(old(dbs), specs) && dbs == SpecsMirror(old(dbs), specs)
    {
      hide SpecOps, SpecMirror;
      ops := [];
      for i := 0 to |specs|
        invariant ops + SpecsOps(dbs, specs[i..]) == SpecsOps(old(dbs), specs)
        invariant SpecsMirror(dbs, specs[i..]) == SpecsMirror(old(dbs), specs)
      {
        assert specs[i..][1..] == specs[i + 1..];
        var more := CreateOrAlter(specs[i]);
        ops := ops + more;
      }
    }

    /** The three phases in order. On the catalog the mirror was read from, every statement succeeds and
        the mirror ends up describing the catalog they produce. */
    method ApplyDatabases(ghost c: Catalog, ds: seq<Delta>, specs: seq<SpecDb>)
        returns (ops: seq<Sql>, names: seq<Name>)
      requires dbs == Read(c) && Admissible(c, ds, specs)
      modifies this
      ensures InvalidNames(c, names) && ops == RunOps(c, names, ds, specs)
      ensures ExecAll(c, ops) == Some(Final(c, ds, specs))
      ensures dbs == Read(Final(c, ds, specs))
    {
      ghost var valid := WithoutInvalid(c);
      var drops;
      drops, names := DropInvalidDatabases();
      assert dbs == Read(valid);
      DeltasAgree(valid, ds);
      var dops := RenameAndDeleteDatabases(ds);
      SpecsAgree(DeltasEffect(valid, ds), specs);
      var sops := CreateAndAlterDatabases(specs);
      ops := drops + (dops + sops);
      RunSucceeds(c, names, ds, specs);
    }
  }
}
