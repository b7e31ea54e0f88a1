/** Applying the databases of a compute spec: what the plan does to the catalog, and that starting over
    after a crash at any point converges to the same catalog. */
module SpecCatalog {
  import opened Options
  import opened Quoting

  type Name = string

  /** A database: its owner, whether an interrupted DROP left it invalid, whether neon_superuser was granted its
      privileges, and whether it is a template. */
  datatype Db = Db(owner: Name, invalid: bool, granted: bool, template: bool)

  type Catalog = map<Name, Db>

  datatype Sql =
    | DropDb(name: Name)
    | UnsetTemplate(name: Name)
    | RenameDb(from: Name, to: Name)
    | CreateDb(name: Name, owner: Name)
    | GrantAll(name: Name)
    | SetOwner(name: Name, owner: Name)

  datatype Delta = Delete(name: Name) | Rename(name: Name, newName: Name) | Other(name: Name)

  datatype SpecDb = SpecDb(name: Name, owner: Name)

  // ---------- The server ----------

  /** The catalog with the template flag of a database cleared, if there is one of the name. */
  function Unset(c: Catalog, name: Name): Catalog {
    if name in c then c[name := c[name].(template := false)] else c
  }

  /** The effect of one statement; None where the server reports an error. A template cannot be dropped. */
  function Exec(c: Catalog, op: Sql): Option<Catalog> {
    match op
    case DropDb(name) => if name in c && c[name].template then None else Some(c - {name})
    case UnsetTemplate(name) => Some(Unset(c, name))
    case RenameDb(from, to) => if from in c && to !in c then Some((c - {from})[to := c[from]]) else None
    case CreateDb(name, owner) => if name in c then None else Some(c[name := Db(owner, false, false, false)])
    case GrantAll(name) => if name in c then Some(c[name := c[name].(granted := true)]) else None
    case SetOwner(name, owner) => if name in c then Some(c[name := c[name].(owner := owner)]) else None
  }

  function ExecAll(c: Catalog, ops: seq<Sql>): Option<Catalog>
    decreases |ops|
  {
    if ops == [] then Some(c) else
      var r := Exec(c, ops[0]);
      if r.None? then None else ExecAll(r.value, ops[1..])
  }

  lemma ExecOne(c: Catalog, op: Sql)
    ensures ExecAll(c, [op]) == Exec(c, op)
  {
    assert [op][1..] == [];
  }

  lemma ExecTwo(c: Catalog, a: Sql, b: Sql)
    requires Exec(c, a).Some?
    ensures ExecAll(c, [a, b]) == Exec(Exec(c, a).value, b)
  {
    assert [a, b][1..] == [b];
    ExecOne(Exec(c, a).value, b);
  }

  lemma {:induction false} ExecAppend(c: Catalog, a: seq<Sql>, b: seq<Sql>)
    requires ExecAll(c, a).Some?
    ensures ExecAll(c, a + b) == ExecAll(ExecAll(c, a).value, b)
    decreases |a|
  {
    if a == [] {
      assert a + b == b;
    } else {
      assert (a + b)[1..] == a[1..] + b;
      ExecAppend(Exec(c, a[0]).value, a[1..], b);
    }
  }

  // ---------- The mirror and the plan ----------

  datatype Known = Known(owner: Name, invalid: bool)

  type Mirror = map<Name, Known>

  /** What is read from the catalog before the phases start. */
  function Read(c: Catalog): Mirror {
    map n | n in c :: Known(c[n].owner, c[n].invalid)
  }

  lemma QuoteIsLonger(s: Name)
    ensures PgQuote(s) != s && PgQuote(s)[0] == '"'
  {
    ReplaceLonger(s, '"');
  }

  predicate OwnerDiffers(wanted: Name, current: Name) {
    if current != "" && current[0] == '"' then PgQuote(wanted) != current else wanted != current
  }

  function DeltaOps(m: Mirror, d: Delta): seq<Sql> {
    match d
    case Delete(name) => [UnsetTemplate(name), DropDb(name)]
    case Rename(name, newName) => if name in m then [RenameDb(name, newName)] else []
    case Other(_) => []
  }

  function DeltaMirror(m: Mirror, d: Delta): Mirror {
    match d
    case Delete(name) => m - {name}
    case Rename(name, newName) => if name in m then (m - {name})[newName := m[name]] else m
    case Other(_) => m
  }

  function DeltasOps(m: Mirror, ds: seq<Delta>): seq<Sql>
    decreases |ds|
  {
    if ds == [] then [] else DeltaOps(m, ds[0]) + DeltasOps(DeltaMirror(m, ds[0]), ds[1..])
  }

  function DeltasMirror(m: Mirror, ds: seq<Delta>): Mirror
    decreases |ds|
  {
    if ds == [] then m else DeltasMirror(DeltaMirror(m, ds[0]), ds[1..])
  }

  function SpecOps(m: Mirror, db: SpecDb): seq<Sql> {
    if db.name in m then
      if OwnerDiffers(db.owner, m[db.name].owner) then [SetOwner(db.name, db.owner)] else []
    else [CreateDb(db.name, db.owner), GrantAll(db.name)]
  }

  function SpecMirror(m: Mirror, db: SpecDb): Mirror {
    if db.name in m then m[db.name := m[db.name].(owner := db.owner)] else m[db.name := Known(db.owner, false)]
  }

  function SpecsOps(m: Mirror, dbs: seq<SpecDb>): seq<Sql>
    decreases |dbs|
  {
    if dbs == [] then [] else SpecOps(m, dbs[0]) + SpecsOps(SpecMirror(m, dbs[0]), dbs[1..])
  }

  function SpecsMirror(m: Mirror, dbs: seq<SpecDb>): Mirror
    decreases |dbs|
  {
    if dbs == [] then m else SpecsMirror(SpecMirror(m, dbs[0]), dbs[1..])
  }

  function DropOps(names: seq<Name>): seq<Sql> {
    if names == [] then [] else [DropDb(names[0])] + DropOps(names[1..])
  }

  // ---------- What the phases mean for the catalog ----------

  function WithoutInvalid(c: Catalog): Catalog {
    map n | n in c && !c[n].invalid :: c[n]
  }

  function DeltaEffect(c: Catalog, d: Delta): Catalog {
    match d
    case Delete(name) => c - {name}
    case Rename(name, newName) => if name in c then (c - {name})[newName := c[name]] else c
    case Other(_) => c
  }

  function DeltasEffect(c: Catalog, ds: seq<Delta>): Catalog
    decreases |ds|
  {
    if ds == [] then c else DeltasEffect(DeltaEffect(c, ds[0]), ds[1..])
  }

  function SpecEffect(c: Catalog, db: SpecDb): Catalog {
    if db.name in c then
      if OwnerDiffers(db.owner, c[db.name].owner) then c[db.name := c[db.name].(owner := db.owner)] else c
    else c[db.name := Db(db.owner, false, true, false)]
  }

  function SpecsEffect(c: Catalog, dbs: seq<SpecDb>): Catalog
    decreases |dbs|
  {
    if dbs == [] then c else SpecsEffect(SpecEffect(c, dbs[0]), dbs[1..])
  }

  /** The catalog that a whole undisturbed run ends in. */
  function Final(c: Catalog, ds: seq<Delta>, dbs: seq<SpecDb>): Catalog {
    SpecsEffect(DeltasEffect(WithoutInvalid(c), ds), dbs)
  }

  /** A rename does not hit an existing database. */
  predicate Fits(c: Catalog, d: Delta) {
    d.Rename? && d.name in c ==> d.newName !in c
  }

  predicate FitsAll(c: Catalog, ds: seq<Delta>)
    decreases |ds|
  {
    ds == [] || (Fits(c, ds[0]) && FitsAll(DeltaEffect(c, ds[0]), ds[1..]))
  }

  // ---------- The mirror agrees with the catalog ----------

  /** Dropping the databases of a list succeeds if and only if none of them is a template. */
  lemma {:induction false} DropsSucceedIff(c: Catalog, names: seq<Name>)
    ensures ExecAll(c, DropOps(names)).Some? <==> forall n :: n in names && n in c ==> !c[n].template
    decreases |names|
  {
    if names != [] {
      var rest := c - {names[0]};
      DropsSucceedIff(rest, names[1..]);
      assert DropOps(names)[1..] == DropOps(names[1..]);
      assert names == [names[0]] + names[1..];
    }
  }

  lemma DeltaAgrees(c: Catalog, d: Delta)
    requires Fits(c, d)
    ensures ExecAll(c, DeltaOps(Read(c), d)) == Some(DeltaEffect(c, d))
    ensures Read(DeltaEffect(c, d)) == DeltaMirror(Read(c), d)
  {
    match d
    case Delete(name) =>
      ExecTwo(c, UnsetTemplate(name), DropDb(name));
      assert Unset(c, name) - {name} == c - {name};
    case Rename(name, newName) => ExecOne(c, RenameDb(name, newName));
    case Other(_) =>
  }

  lemma {:induction false} DeltasAgree(c: Catalog, ds: seq<Delta>)
    requires FitsAll(c, ds)
    ensures ExecAll(c, DeltasOps(Read(c), ds)) == Some(DeltasEffect(c, ds))
    ensures Read(DeltasEffect(c, ds)) == DeltasMirror(Read(c), ds)
    decreases |ds|
  {
    if ds != [] {
      DeltaAgrees(c, ds[0]);
      DeltasAgree(DeltaEffect(c, ds[0]), ds[1..]);
      ExecAppend(c, DeltaOps(Read(c), ds[0]), DeltasOps(DeltaMirror(Read(c), ds[0]), ds[1..]));
    }
  }

  /** The owner recorded in the catalog is not the quoted spelling of the wanted owner. */
  predicate NotTwin(c: Catalog, db: SpecDb) {
    db.name in c ==> c[db.name].owner != PgQuote(db.owner)
  }

  /** The statements always succeed; the mirror agrees afterwards, and the owner is the wanted one, exactly
      when the recorded owner is not the quoted spelling of the wanted one. */
  lemma SpecAgrees(c: Catalog, db: SpecDb)
    ensures ExecAll(c, SpecOps(Read(c), db)) == Some(SpecEffect(c, db))
    ensures Read(SpecEffect(c, db)) == SpecMirror(Read(c), db) <==> NotTwin(c, db)
    ensures SpecEffect(c, db)[db.name].owner == db.owner <==> NotTwin(c, db)
  {
    QuoteIsLonger(db.owner);
    ExecOne(c, SetOwner(db.name, db.owner));
    if db.name !in c {
      ExecTwo(c, CreateDb(db.name, db.owner), GrantAll(db.name));
      var created := Db(db.owner, false, false, false);
      assert c[db.name := created][db.name := created.(granted := true)] == SpecEffect(c, db);
    }
    if NotTwin(c, db) {
      assert Read(SpecEffect(c, db)) == SpecMirror(Read(c), db);
    } else {
      assert Read(SpecEffect(c, db))[db.name] != SpecMirror(Read(c), db)[db.name];
    }
  }

  /** Example: the recorded owner is spelled with quotes. No statement is emitted, and the mirror says bob. */
  lemma QuotedOwnerStays()
    ensures var c := map["db" := Db("\"bob\"", false, true, false)];
            var db := SpecDb("db", "bob");
      && !NotTwin(c, db) && SpecOps(Read(c), db) == [] && SpecEffect(c, db) == c
      && SpecMirror(Read(c), db)["db"].owner == "bob"
  {
    ReplaceAbsent("bob", '"', "\"\"");
  }
}
