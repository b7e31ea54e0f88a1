/** A run may be cut short after any statement; running again from the start gives the same catalog. */
module SpecRetry {
  import opened Options
  import opened SpecCatalog

  // ---------- Premises on a spec ----------

  /** A rename target is neither the source of this or an earlier operation nor a name deleted earlier. */
  ghost predicate Orderly(ds: seq<Delta>) {
    forall i, j :: 0 <= i <= j < |ds| && ds[j].Rename? && !ds[i].Other? ==> ds[j].newName != ds[i].name
  }

  ghost predicate Disjoint(ds: seq<Delta>, dbs: seq<SpecDb>) {
    forall i, j :: 0 <= i < |ds| && 0 <= j < |dbs| && !ds[i].Other? ==> ds[i].name != dbs[j].name
  }

  ghost predicate DistinctNames(dbs: seq<SpecDb>) {
    forall i, j :: 0 <= i < j < |dbs| ==> dbs[i].name != dbs[j].name
  }

  ghost predicate NoTwins(c: Catalog, dbs: seq<SpecDb>) {
    forall i :: 0 <= i < |dbs| ==> NotTwin(c, dbs[i])
  }

  /** A database that an interrupted DROP left behind is no template: the server refuses to drop a template. */
  ghost predicate NoInvalidTemplates(c: Catalog) {
    forall n :: n in c && c[n].invalid ==> !c[n].template
  }

  ghost predicate AllValid(c: Catalog) {
    forall n :: n in c ==> !c[n].invalid
  }

  // ---------- Renames and deletes ----------

  lemma {:induction false} DeltasAppend(c: Catalog, a: seq<Delta>, b: seq<Delta>)
    ensures DeltasEffect(c, a + b) == DeltasEffect(DeltasEffect(c, a), b)
    decreases |a|
  {
    if a == [] {
      assert a + b == b;
    } else {
      assert (a + b)[1..] == a[1..] + b;
      DeltasAppend(DeltaEffect(c, a[0]), a[1..], b);
    }
  }

  lemma DeltasSnoc(c: Catalog, ds: seq<Delta>, j: nat)
    requires j < |ds|
    ensures DeltasEffect(c, ds[..j + 1]) == DeltaEffect(DeltasEffect(c, ds[..j]), ds[j])
  {
    assert ds[..j + 1] == ds[..j] + [ds[j]];
    DeltasAppend(c, ds[..j], [ds[j]]);
    assert [ds[j]][1..] == [];
  }

  /** Once handled, a source or deleted name does not come back. */
  lemma {:induction false} SourcesGone(c: Catalog, ds: seq<Delta>, j: nat)
    requires Orderly(ds) && j <= |ds|
    ensures forall i :: 0 <= i < j && !ds[i].Other? ==> ds[i].name !in DeltasEffect(c, ds[..j])
  {
    if j > 0 {
      SourcesGone(c, ds, j - 1);
      DeltasSnoc(c, ds, j - 1);
    }
  }

  lemma {:induction false} DeltasIdle(c: Catalog, ds: seq<Delta>)
    requires forall i :: 0 <= i < |ds| && !ds[i].Other? ==> ds[i].name !in c
    ensures DeltasEffect(c, ds) == c && FitsAll(c, ds)
    decreases |ds|
  {
    if ds != [] {
      assert DeltaEffect(c, ds[0]) == c;
      DeltasIdle(c, ds[1..]);
    }
  }

  /** Starting over after any number of renames and deletes repeats nothing and finishes the rest. */
  lemma DeltasResume(c: Catalog, ds: seq<Delta>, j: nat)
    requires Orderly(ds) && j <= |ds|
    ensures DeltasEffect(DeltasEffect(c, ds[..j]), ds) == DeltasEffect(c, ds)
  {
    var mid := DeltasEffect(c, ds[..j]);
    SourcesGone(c, ds, j);
    DeltasIdle(mid, ds[..j]);
    assert ds == ds[..j] + ds[j..];
    DeltasAppend(mid, ds[..j], ds[j..]);
    DeltasAppend(c, ds[..j], ds[j..]);
  }

  lemma {:induction false} FitsSplit(c: Catalog, a: seq<Delta>, b: seq<Delta>)
    ensures FitsAll(c, a + b) <==> FitsAll(c, a) && FitsAll(DeltasEffect(c, a), b)
    decreases |a|
  {
    if a == [] {
      assert a + b == b;
    } else {
      assert (a + b)[1..] == a[1..] + b;
      FitsSplit(DeltaEffect(c, a[0]), a[1..], b);
    }
  }

  lemma FitsResume(c: Catalog, ds: seq<Delta>, j: nat)
    requires Orderly(ds) && j <= |ds| && FitsAll(c, ds)
    ensures FitsAll(DeltasEffect(c, ds[..j]), ds)
  {
    var mid := DeltasEffect(c, ds[..j]);
    SourcesGone(c, ds, j);
    DeltasIdle(mid, ds[..j]);
    assert ds == ds[..j] + ds[j..];
    FitsSplit(c, ds[..j], ds[j..]);
    FitsSplit(mid, ds[..j], ds[j..]);
  }

  lemma ExecBeyond(c: Catalog, first: seq<Sql>, rest: seq<Sql>, k: nat)
    requires |first| <= k <= |first| + |rest| && ExecAll(c, first).Some?
    ensures ExecAll(c, (first + rest)[..k]) == ExecAll(ExecAll(c, first).value, rest[..k - |first|])
  {
    assert (first + rest)[..k] == first + rest[..k - |first|];
    ExecAppend(c, first, rest[..k - |first|]);
  }

  /** Stopping inside one operation has done nothing yet, or cleared the template flag of a database that is to be
      deleted. */
  lemma DeltaCut(c: Catalog, d: Delta, k: nat)
    requires k < |DeltaOps(Read(c), d)|
    ensures k > 0 ==> d.Delete?
    ensures ExecAll(c, DeltaOps(Read(c), d)[..k]) == Some(if k > 0 then Unset(c, d.name) else c)
  {
    if k == 1 {
      assert DeltaOps(Read(c), d)[..1] == [UnsetTemplate(d.name)];
      ExecOne(c, UnsetTemplate(d.name));
    }
  }

  /** The catalog after `j` renames and deletes, and, if `half`, after the template flag of the next database to
      be deleted was cleared. */
  function CutDeltas(c: Catalog, ds: seq<Delta>, j: nat, half: bool): Catalog
    requires j <= |ds| && (half ==> j < |ds|)
  {
    var base := DeltasEffect(c, ds[..j]);
    if half then Unset(base, ds[j].name) else base
  }

  /** A prefix of the statements amounts to a prefix of the operations, and perhaps half of the next. */
  lemma {:induction false} DeltasPrefix(c: Catalog, ds: seq<Delta>, k: nat) returns (j: nat, half: bool)
    requires FitsAll(c, ds) && k <= |DeltasOps(Read(c), ds)|
    ensures j <= |ds| && (half ==> j < |ds| && ds[j].Delete?)
    ensures ExecAll(c, DeltasOps(Read(c), ds)[..k]) == Some(CutDeltas(c, ds, j, half))
    decreases |ds|
  {
    j, half := 0, false;
    if ds != [] {
      hide ExecAll, DeltaOps, DeltaEffect, DeltaMirror, Read, Unset;
      var first := DeltaOps(Read(c), ds[0]);
      var next := DeltaEffect(c, ds[0]);
      DeltaAgrees(c, ds[0]);
      var rest := DeltasOps(Read(next), ds[1..]);
      if k < |first| {
        assert (first + rest)[..k] == first[..k];
        DeltaCut(c, ds[0], k);
        half := k > 0;
      } else {
        var i;
        i, half := DeltasPrefix(next, ds[1..], k - |first|);
        ExecBeyond(c, first, rest, k);
        j := i + 1;
        assert ds[..j][1..] == ds[1..][..i];
      }
    }
  }

  /** A cleared flag makes no difference to the deletion that follows it. */
  lemma UnsetThenDelete(c: Catalog, d: Delta)
    requires d.Delete?
    ensures DeltaEffect(Unset(c, d.name), d) == DeltaEffect(c, d)
  {
  }

  lemma UnsetFits(c: Catalog, name: Name, ds: seq<Delta>)
    requires ds != [] && ds[0] == Delete(name)
    ensures FitsAll(Unset(c, name), ds) <==> FitsAll(c, ds)
  {
    UnsetThenDelete(c, ds[0]);
  }

  /** Starting over with the flag cleared finishes the deletes and renames all the same. */
  lemma CutDeltasResume(c: Catalog, ds: seq<Delta>, j: nat, half: bool)
    requires Orderly(ds) && j <= |ds| && (half ==> j < |ds| && ds[j].Delete?)
    ensures DeltasEffect(CutDeltas(c, ds, j, half), ds) == DeltasEffect(c, ds)
    ensures FitsAll(c, ds) ==> FitsAll(CutDeltas(c, ds, j, half), ds)
  {
    DeltasResume(c, ds, j);
    if FitsAll(c, ds) {
      FitsResume(c, ds, j);
    }
    if half {
      var base, mid := DeltasEffect(c, ds[..j]), CutDeltas(c, ds, j, true);
      SourcesGone(c, ds, j);
      DeltasIdle(base, ds[..j]);
      DeltasIdle(mid, ds[..j]);
      assert ds == ds[..j] + ds[j..] && ds[j..][0] == ds[j];
      DeltasAppend(base, ds[..j], ds[j..]);
      DeltasAppend(mid, ds[..j], ds[j..]);
      FitsSplit(base, ds[..j], ds[j..]);
      FitsSplit(mid, ds[..j], ds[j..]);
      UnsetThenDelete(base, ds[j]);
      UnsetFits(base, ds[j].name, ds[j..]);
    }
  }

  lemma {:induction false} DeltasValid(c: Catalog, ds: seq<Delta>)
    requires AllValid(c)
    ensures AllValid(DeltasEffect(c, ds))
    decreases |ds|
  {
    if ds != [] {
      DeltasValid(DeltaEffect(c, ds[0]), ds[1..]);
    }
  }

  lemma ValidStays(c: Catalog)
    requires AllValid(c)
    ensures WithoutInvalid(c) == c
  {
  }

  // ---------- Creating and altering databases ----------

  lemma {:induction false} SpecsElsewhere(c: Catalog, dbs: seq<SpecDb>, n: Name)
    requires forall i :: 0 <= i < |dbs| ==> dbs[i].name != n
    ensures n in SpecsEffect(c, dbs) <==> n in c
    ensures n in c ==> SpecsEffect(c, dbs)[n] == c[n]
    decreases |dbs|
  {
    if dbs != [] {
      SpecsElsewhere(SpecEffect(c, dbs[0]), dbs[1..], n);
    }
  }

  /** Each database of the spec is handled on its own. */
  lemma {:induction false} SpecsAt(c: Catalog, dbs: seq<SpecDb>, i: nat)
    requires DistinctNames(dbs) && i < |dbs|
    ensures dbs[i].name in SpecsEffect(c, dbs)
    ensures SpecsEffect(c, dbs)[dbs[i].name] == SpecEffect(c, dbs[i])[dbs[i].name]
    decreases |dbs|
  {
    var next := SpecEffect(c, dbs[0]);
    if i == 0 {
      SpecsElsewhere(next, dbs[1..], dbs[0].name);
    } else {
      SpecsAt(next, dbs[1..], i - 1);
      assert dbs[0].name != dbs[i].name;
    }
  }

  lemma SpecTwice(c: Catalog, db: SpecDb)
    ensures SpecEffect(SpecEffect(c, db), db) == SpecEffect(c, db)
  {
    QuoteIsLonger(db.owner);
  }

  /** The mirror agrees with the catalog after the phase, and every database of the spec exists under its
      owner. */
  lemma {:induction false} SpecsAgree(c: Catalog, dbs: seq<SpecDb>)
    requires DistinctNames(dbs) && NoTwins(c, dbs)
    ensures ExecAll(c, SpecsOps(Read(c), dbs)) == Some(SpecsEffect(c, dbs))
    ensures Read(SpecsEffect(c, dbs)) == SpecsMirror(Read(c), dbs)
    decreases |dbs|
  {
    if dbs != [] {
      var next := SpecEffect(c, dbs[0]);
      SpecAgrees(c, dbs[0]);
      forall i | 0 <= i < |dbs[1..]| ensures NotTwin(next, dbs[1..][i]) {
        assert NotTwin(c, dbs[i + 1]) && dbs[0].name != dbs[i + 1].name;
      }
      SpecsAgree(next, dbs[1..]);
      ExecAppend(c, SpecOps(Read(c), dbs[0]), SpecsOps(Read(next), dbs[1..]));
    }
  }

  lemma SpecsPresent(c: Catalog, dbs: seq<SpecDb>, i: nat)
    requires DistinctNames(dbs) && NoTwins(c, dbs) && i < |dbs|
    ensures dbs[i].name in SpecsEffect(c, dbs) && SpecsEffect(c, dbs)[dbs[i].name].owner == dbs[i].owner
    ensures dbs[i].name in c ==> SpecsEffect(c, dbs)[dbs[i].name] == c[dbs[i].name].(owner := dbs[i].owner)
    ensures dbs[i].name !in c ==> SpecsEffect(c, dbs)[dbs[i].name].granted && !SpecsEffect(c, dbs)[dbs[i].name].invalid
  {
    SpecsAt(c, dbs, i);
    SpecAgrees(c, dbs[i]);
  }

  /** Two catalogs agree after the phase when they agree away from the spec and each database of the spec
      comes out the same. */
  lemma SpecsSame(a: Catalog, b: Catalog, dbs: seq<SpecDb>)
    requires DistinctNames(dbs)
    requires forall n :: (forall i :: 0 <= i < |dbs| ==> dbs[i].name != n) ==> (n in a <==> n in b)
    requires forall n :: n in a && n in b && (forall i :: 0 <= i < |dbs| ==> dbs[i].name != n) ==> a[n] == b[n]
    requires forall i :: 0 <= i < |dbs| ==>
      SpecEffect(a, dbs[i])[dbs[i].name] == SpecEffect(b, dbs[i])[dbs[i].name]
    ensures SpecsEffect(a, dbs) == SpecsEffect(b, dbs)
  {
    var x, y := SpecsEffect(a, dbs), SpecsEffect(b, dbs);
    forall n ensures (n in x <==> n in y) && (n in x ==> x[n] == y[n]) {
      if i :| 0 <= i < |dbs| && dbs[i].name == n {
        SpecsAt(a, dbs, i);
        SpecsAt(b, dbs, i);
      } else {
        SpecsElsewhere(a, dbs, n);
        SpecsElsewhere(b, dbs, n);
      }
    }
  }

  lemma SpecsPart(c: Catalog, dbs: seq<SpecDb>, j: nat, i: nat)
    requires DistinctNames(dbs) && j <= |dbs| && i < |dbs|
    ensures SpecEffect(SpecsEffect(c, dbs[..j]), dbs[i])[dbs[i].name] == SpecEffect(c, dbs[i])[dbs[i].name]
    ensures i >= j ==> (dbs[i].name in SpecsEffect(c, dbs[..j]) <==> dbs[i].name in c)
  {
    var n := dbs[i].name;
    if i < j {
      SpecsAt(c, dbs[..j], i);
      SpecTwice(c, dbs[i]);
    } else {
      forall k | 0 <= k < j ensures dbs[..j][k].name != n { assert dbs[k].name != dbs[i].name; }
      SpecsElsewhere(c, dbs[..j], n);
    }
  }

  /** Starting over after any number of databases gives the same result. */
  lemma SpecsResume(c: Catalog, dbs: seq<SpecDb>, j: nat)
    requires DistinctNames(dbs) && j <= |dbs|
    ensures SpecsEffect(SpecsEffect(c, dbs[..j]), dbs) == SpecsEffect(c, dbs)
  {
    var mid := SpecsEffect(c, dbs[..j]);
    forall n | forall i :: 0 <= i < |dbs| ==> dbs[i].name != n
      ensures (n in mid <==> n in c) && (n in c ==> mid[n] == c[n])
    {
      SpecsElsewhere(c, dbs[..j], n);
    }
    forall i | 0 <= i < |dbs|
      ensures SpecEffect(mid, dbs[i])[dbs[i].name] == SpecEffect(c, dbs[i])[dbs[i].name]
    {
      SpecsPart(c, dbs, j, i);
    }
    SpecsSame(mid, c, dbs);
  }

  /** The catalog after `j` databases of the spec, and, if `half`, after the next one was created but not
      yet granted. */
  function Cut(c: Catalog, dbs: seq<SpecDb>, j: nat, half: bool): Catalog
    requires j <= |dbs| && (half ==> j < |dbs|)
  {
    var base := SpecsEffect(c, dbs[..j]);
    if half then base[dbs[j].name := Db(dbs[j].owner, false, false, false)] else base
  }

  /** Stopping inside one database has done nothing, or created the database without the grant. */
  lemma SpecCut(c: Catalog, db: SpecDb, k: nat)
    requires k < |SpecOps(Read(c), db)|
    ensures k > 0 ==> db.name !in c && SpecOps(Read(c), db)[k - 1].CreateDb?
    ensures ExecAll(c, SpecOps(Read(c), db)[..k])
         == Some(if k > 0 then c[db.name := Db(db.owner, false, false, false)] else c)
  {
    if k == 1 {
      assert SpecOps(Read(c), db)[..1] == [CreateDb(db.name, db.owner)];
      ExecOne(c, CreateDb(db.name, db.owner));
    }
  }

  lemma {:induction false} SpecsPrefix(c: Catalog, dbs: seq<SpecDb>, k: nat) returns (j: nat, half: bool)
    requires DistinctNames(dbs) && NoTwins(c, dbs) && k <= |SpecsOps(Read(c), dbs)|
    ensures j <= |dbs| && (half ==> j < |dbs| && dbs[j].name !in SpecsEffect(c, dbs[..j]))
    ensures ExecAll(c, SpecsOps(Read(c), dbs)[..k]) == Some(Cut(c, dbs, j, half))
    ensures half <==> k > 0 && SpecsOps(Read(c), dbs)[k - 1].CreateDb?
    decreases |dbs|
  {
    j, half := 0, false;
    if dbs != [] {
      var first := SpecOps(Read(c), dbs[0]);
      var next := SpecEffect(c, dbs[0]);
      SpecAgrees(c, dbs[0]);
      NextTwins(c, dbs);
      assert NotTwin(c, dbs[0]);
      hide ExecAll, SpecEffect, SpecOps, SpecMirror, Read, NoTwins, NotTwin;
      var rest := SpecsOps(Read(next), dbs[1..]);
      if k < |first| {
        assert (first + rest)[..k] == first[..k];
        SpecCut(c, dbs[0], k);
        half := k > 0;
      } else {
        hide Cut, SpecsEffect;
        var i;
        i, half := SpecsPrefix(next, dbs[1..], k - |first|);
        ExecBeyond(c, first, rest, k);
        j := i + 1;
        CutNext(c, dbs, i, half);
        LastIsNoCreate(Read(c), dbs[0]);
      }
    }
  }

  lemma CutNext(c: Catalog, dbs: seq<SpecDb>, i: nat, half: bool)
    requires dbs != [] && i <= |dbs[1..]| && (half ==> i < |dbs[1..]|)
    ensures SpecsEffect(c, dbs[..i + 1]) == SpecsEffect(SpecEffect(c, dbs[0]), dbs[1..][..i])
    ensures Cut(c, dbs, i + 1, half) == Cut(SpecEffect(c, dbs[0]), dbs[1..], i, half)
  {
    assert dbs[..i + 1][1..] == dbs[1..][..i];
  }

  lemma LastIsNoCreate(m: Mirror, db: SpecDb)
    ensures SpecOps(m, db) != [] ==> !SpecOps(m, db)[|SpecOps(m, db)| - 1].CreateDb?
  {
  }

  lemma NextTwins(c: Catalog, dbs: seq<SpecDb>)
    requires dbs != [] && DistinctNames(dbs) && NoTwins(c, dbs)
    ensures NoTwins(SpecEffect(c, dbs[0]), dbs[1..])
  {
    forall i | 0 <= i < |dbs[1..]| ensures NotTwin(SpecEffect(c, dbs[0]), dbs[1..][i]) {
      assert NotTwin(c, dbs[i + 1]) && dbs[0].name != dbs[i + 1].name;
    }
  }

  /** A database created but not granted stays without the grant, however often the phase runs. */
  lemma HalfCreatedStays(c: Catalog, dbs: seq<SpecDb>, j: nat)
    requires DistinctNames(dbs) && j < |dbs| && dbs[j].name !in SpecsEffect(c, dbs[..j])
    ensures var n := dbs[j].name;
      && n in SpecsEffect(Cut(c, dbs, j, true), dbs) && !SpecsEffect(Cut(c, dbs, j, true), dbs)[n].granted
      && n in SpecsEffect(c, dbs) && SpecsEffect(c, dbs)[n].granted
  {
    SpecsAt(Cut(c, dbs, j, true), dbs, j);
    SpecsAt(c, dbs, j);
    SpecsPart(c, dbs, j, j);
  }

  // ---------- A whole run ----------

  ghost predicate InvalidNames(c: Catalog, names: seq<Name>) {
    forall n :: n in names <==> n in c && c[n].invalid
  }

  function Names(s: seq<Name>): set<Name> {
    set n | n in s
  }

  lemma {:induction false} DropsPrefix(c: Catalog, names: seq<Name>, k: nat)
    requires k <= |names| && forall n :: n in names && n in c ==> !c[n].template
    ensures |DropOps(names)| == |names|
    ensures ExecAll(c, DropOps(names)[..k]) == Some(c - Names(names[..k]))
    ensures k > 0 ==> DropOps(names)[k - 1] == DropDb(names[k - 1])
    decreases |names|
  {
    if names == [] {
      assert c - Names(names[..k]) == c;
    } else if k == 0 {
      DropsPrefix(c, names[1..], 0);
      assert c - Names(names[..k]) == c;
    } else {
      DropsPrefix(c - {names[0]}, names[1..], k - 1);
      assert DropOps(names)[..k] == [DropDb(names[0])] + DropOps(names[1..])[..k - 1];
      assert names[..k] == [names[0]] + names[1..][..k - 1];
      assert c - Names(names[..k]) == c - {names[0]} - Names(names[1..][..k - 1]);
    }
  }

  lemma DropsAll(c: Catalog, names: seq<Name>)
    requires InvalidNames(c, names) && NoInvalidTemplates(c)
    ensures ExecAll(c, DropOps(names)) == Some(WithoutInvalid(c))
  {
    DropsPrefix(c, names, |names|);
    assert DropOps(names)[..|names|] == DropOps(names);
    assert names[..|names|] == names;
    assert c - Names(names) == WithoutInvalid(c);
  }

  ghost predicate Admissible(c: Catalog, ds: seq<Delta>, dbs: seq<SpecDb>) {
    && NoInvalidTemplates(c) && Orderly(ds) && Disjoint(ds, dbs) && DistinctNames(dbs)
    && FitsAll(WithoutInvalid(c), ds)
    && NoTwins(DeltasEffect(WithoutInvalid(c), ds), dbs)
  }

  /** The statements of a run, phase after phase. */
  function RunOps(c: Catalog, names: seq<Name>, ds: seq<Delta>, dbs: seq<SpecDb>): seq<Sql> {
    var valid := WithoutInvalid(c);
    DropOps(names) + (DeltasOps(Read(valid), ds) + SpecsOps(Read(DeltasEffect(valid, ds)), dbs))
  }

  /** An undisturbed run succeeds and ends in the final catalog, with every database of the spec under its
      owner. */
  lemma RunSucceeds(c: Catalog, names: seq<Name>, ds: seq<Delta>, dbs: seq<SpecDb>)
    requires InvalidNames(c, names) && Admissible(c, ds, dbs)
    ensures ExecAll(c, RunOps(c, names, ds, dbs)) == Some(Final(c, ds, dbs))
    ensures forall i :: 0 <= i < |dbs| ==>
      dbs[i].name in Final(c, ds, dbs) && Final(c, ds, dbs)[dbs[i].name].owner == dbs[i].owner
  {
    var valid := WithoutInvalid(c);
    var base := DeltasEffect(valid, ds);
    var dops, sops := DeltasOps(Read(valid), ds), SpecsOps(Read(base), dbs);
    DropsAll(c, names);
    DeltasAgree(valid, ds);
    SpecsAgree(base, dbs);
    ExecAppend(c, DropOps(names), dops + sops);
    ExecAppend(valid, dops, sops);
    forall i | 0 <= i < |dbs|
      ensures dbs[i].name in Final(c, ds, dbs) && Final(c, ds, dbs)[dbs[i].name].owner == dbs[i].owner
    {
      SpecsPresent(base, dbs, i);
    }
  }

  /** Where a run can be cut short: the catalog a prefix of its statements leads to. */
  datatype Point = InDrops(k: nat) | InDeltas(j: nat, cleared: bool) | InSpecs(j: nat, half: bool)

  ghost predicate PointOk(p: Point, names: seq<Name>, ds: seq<Delta>, dbs: seq<SpecDb>, base: Catalog) {
    match p
    case InDrops(k) => k <= |names|
    case InDeltas(j, cleared) => j <= |ds| && (cleared ==> j < |ds| && ds[j].Delete?)
    case InSpecs(j, half) => j <= |dbs| && (half ==> j < |dbs| && dbs[j].name !in SpecsEffect(base, dbs[..j]))
  }

  function CatalogAt(p: Point, c: Catalog, names: seq<Name>, ds: seq<Delta>, dbs: seq<SpecDb>): Catalog
    requires p.InDrops? ==> p.k <= |names|
    requires p.InDeltas? ==> p.j <= |ds| && (p.cleared ==> p.j < |ds|)
    requires p.InSpecs? ==> p.j <= |dbs| && (p.half ==> p.j < |dbs|)
  {
    var valid := WithoutInvalid(c);
    match p
    case InDrops(k) => c - Names(names[..k])
    case InDeltas(j, cleared) => CutDeltas(valid, ds, j, cleared)
    case InSpecs(j, half) => Cut(DeltasEffect(valid, ds), dbs, j, half)
  }

  lemma {:induction false} DeltasCreateNothing(m: Mirror, ds: seq<Delta>)
    ensures forall k :: 0 <= k < |DeltasOps(m, ds)| ==> !DeltasOps(m, ds)[k].CreateDb?
    decreases |ds|
  {
    if ds != [] {
      DeltasCreateNothing(DeltaMirror(m, ds[0]), ds[1..]);
    }
  }

  lemma StopsInDrops(c: Catalog, names: seq<Name>, rest: seq<Sql>, k: nat)
    requires k <= |names| && InvalidNames(c, names) && NoInvalidTemplates(c)
    ensures |DropOps(names)| == |names|
    ensures ExecAll(c, (DropOps(names) + rest)[..k]) == Some(c - Names(names[..k]))
    ensures k > 0 ==> !(DropOps(names) + rest)[k - 1].CreateDb?
  {
    DropsPrefix(c, names, k);
    assert (DropOps(names) + rest)[..k] == DropOps(names)[..k];
  }

  lemma StopsInDeltas(c: Catalog, names: seq<Name>, ds: seq<Delta>, rest: seq<Sql>, i: nat)
      returns (j: nat, cleared: bool)
    requires InvalidNames(c, names) && NoInvalidTemplates(c) && FitsAll(WithoutInvalid(c), ds)
    requires 0 < i <= |DeltasOps(Read(WithoutInvalid(c)), ds)|
    ensures j <= |ds| && (cleared ==> j < |ds| && ds[j].Delete?)
    ensures var valid := WithoutInvalid(c);
            var ops := DropOps(names) + (DeltasOps(Read(valid), ds) + rest);
            var k := |DropOps(names)| + i;
      ExecAll(c, ops[..k]) == Some(CutDeltas(valid, ds, j, cleared)) && !ops[k - 1].CreateDb?
  {
    var valid := WithoutInvalid(c);
    var drops, dops := DropOps(names), DeltasOps(Read(valid), ds);
    DropsAll(c, names);
    DeltasCreateNothing(Read(valid), ds);
    j, cleared := DeltasPrefix(valid, ds, i);
    assert (drops + (dops + rest))[..|drops| + i] == drops + dops[..i];
    ExecAppend(c, drops, dops[..i]);
  }

  lemma StopsInSpecs(c: Catalog, names: seq<Name>, ds: seq<Delta>, dbs: seq<SpecDb>, i: nat)
      returns (j: nat, half: bool)
    requires InvalidNames(c, names) && Admissible(c, ds, dbs)
    requires 0 < i <= |SpecsOps(Read(DeltasEffect(WithoutInvalid(c), ds)), dbs)|
    ensures PointOk(InSpecs(j, half), names, ds, dbs, DeltasEffect(WithoutInvalid(c), ds))
    ensures var valid := WithoutInvalid(c);
            var ops := RunOps(c, names, ds, dbs);
            var k := |DropOps(names)| + |DeltasOps(Read(valid), ds)| + i;
      && ExecAll(c, ops[..k]) == Some(CatalogAt(InSpecs(j, half), c, names, ds, dbs))
      && (half <==> ops[k - 1].CreateDb?)
  {
    var valid := WithoutInvalid(c);
    var base := DeltasEffect(valid, ds);
    var drops, dops, sops := DropOps(names), DeltasOps(Read(valid), ds), SpecsOps(Read(base), dbs);
    hide ExecAll, DropOps, DeltasOps, SpecsOps, DeltasEffect, SpecsEffect, Cut, Read, WithoutInvalid;
    DropsAll(c, names);
    DeltasAgree(valid, ds);
    j, half := SpecsPrefix(base, dbs, i);
    assert RunOps(c, names, ds, dbs)[..|drops| + |dops| + i] == drops + (dops + sops[..i]);
    ExecAppend(c, drops, dops + sops[..i]);
    ExecAppend(valid, dops, sops[..i]);
  }

  /** Every prefix of the statements stops at such a point. */
  lemma PrefixStops(c: Catalog, names: seq<Name>, ds: seq<Delta>, dbs: seq<SpecDb>, k: nat) returns (p: Point)
    requires InvalidNames(c, names) && Admissible(c, ds, dbs) && k <= |RunOps(c, names, ds, dbs)|
    ensures PointOk(p, names, ds, dbs, DeltasEffect(WithoutInvalid(c), ds))
    ensures ExecAll(c, RunOps(c, names, ds, dbs)[..k]) == Some(CatalogAt(p, c, names, ds, dbs))
    ensures (p.InSpecs? && p.half) <==> k > 0 && RunOps(c, names, ds, dbs)[k - 1].CreateDb?
  {
    hide ExecAll, DropOps, DeltasOps, SpecsOps, DeltasEffect, SpecsEffect;
    var valid := WithoutInvalid(c);
    var drops, dops := DropOps(names), DeltasOps(Read(valid), ds);
    var sops := SpecsOps(Read(DeltasEffect(valid, ds)), dbs);
    StopsInDrops(c, names, dops + sops, 0);
    if k <= |drops| {
      StopsInDrops(c, names, dops + sops, k);
      p := InDrops(k);
    } else if k - |drops| <= |dops| {
      var j, cleared := StopsInDeltas(c, names, ds, sops, k - |drops|);
      p := InDeltas(j, cleared);
    } else {
      var j, half := StopsInSpecs(c, names, ds, dbs, k - |drops| - |dops|);
      p := InSpecs(j, half);
    }
  }

  // ---------- Convergence ----------

  lemma SubsetValid(c: Catalog, names: seq<Name>, k: nat)
    requires InvalidNames(c, names) && k <= |names|
    ensures WithoutInvalid(c - Names(names[..k])) == WithoutInvalid(c)
  {
  }

  lemma SpecsValid(c: Catalog, dbs: seq<SpecDb>, j: nat, half: bool)
    requires AllValid(c) && j <= |dbs| && (half ==> j < |dbs|)
    ensures AllValid(Cut(c, dbs, j, half))
    decreases j
  {
    SpecsKeepValid(c, dbs[..j]);
  }

  lemma {:induction false} SpecsKeepValid(c: Catalog, dbs: seq<SpecDb>)
    requires AllValid(c)
    ensures AllValid(SpecsEffect(c, dbs))
    decreases |dbs|
  {
    if dbs != [] {
      SpecsKeepValid(SpecEffect(c, dbs[0]), dbs[1..]);
    }
  }

  /** Databases of the spec do not wake up handled renames and deletes. */
  lemma DeltasAfterSpecs(c: Catalog, ds: seq<Delta>, dbs: seq<SpecDb>, j: nat, half: bool)
    requires Orderly(ds) && Disjoint(ds, dbs) && j <= |dbs| && (half ==> j < |dbs|)
    ensures var mid := Cut(DeltasEffect(c, ds), dbs, j, half);
      DeltasEffect(mid, ds) == mid && FitsAll(mid, ds)
  {
    var base := DeltasEffect(c, ds);
    var mid := Cut(base, dbs, j, half);
    assert ds[..|ds|] == ds;
    SourcesGone(c, ds, |ds|);
    forall i | 0 <= i < |ds| && !ds[i].Other? ensures ds[i].name !in mid {
      SpecsElsewhere(base, dbs[..j], ds[i].name);
    }
    DeltasIdle(mid, ds);
  }

  /** Cut a run short at any point and run again from the start: the catalog ends up the same, except that
      a database whose creation was not yet followed by its grant never gets the grant. */
  lemma PointConverges(p: Point, c: Catalog, names: seq<Name>, ds: seq<Delta>, dbs: seq<SpecDb>)
    requires InvalidNames(c, names) && Admissible(c, ds, dbs)
    requires PointOk(p, names, ds, dbs, DeltasEffect(WithoutInvalid(c), ds))
    ensures Final(CatalogAt(p, c, names, ds, dbs), ds, dbs) == Final(c, ds, dbs)
       <==> !(p.InSpecs? && p.half)
  {
    var valid := WithoutInvalid(c);
    var base := DeltasEffect(valid, ds);
    var mid := CatalogAt(p, c, names, ds, dbs);
    DeltasValid(valid, ds);
    match p
    case InDrops(k) =>
      SubsetValid(c, names, k);
    case InDeltas(j, cleared) =>
      DeltasValid(valid, ds[..j]);
      ValidStays(mid);
      CutDeltasResume(valid, ds, j, cleared);
    case InSpecs(j, half) =>
      SpecsValid(base, dbs, j, half);
      ValidStays(mid);
      DeltasAfterSpecs(valid, ds, dbs, j, half);
      if half {
        HalfCreatedStays(base, dbs, j);
      } else {
        SpecsResume(base, dbs, j);
      }
  }

  /** The main result, in terms of statements: a run cut short after its k-th statement and then repeated
      gives the catalog of an undisturbed run if and only if that statement is not a CREATE DATABASE. */
  lemma CrashConverges(c: Catalog, names: seq<Name>, ds: seq<Delta>, dbs: seq<SpecDb>, k: nat)
    requires InvalidNames(c, names) && Admissible(c, ds, dbs) && k <= |RunOps(c, names, ds, dbs)|
    ensures var mid := ExecAll(c, RunOps(c, names, ds, dbs)[..k]);
      && mid.Some?
      && (Final(mid.value, ds, dbs) == Final(c, ds, dbs)
          <==> !(k > 0 && RunOps(c, names, ds, dbs)[k - 1].CreateDb?))
  {
    hide ExecAll, Final, CatalogAt, RunOps;
    var p := PrefixStops(c, names, ds, dbs, k);
    PointConverges(p, c, names, ds, dbs);
  }

  // ---------- Running again ----------

  lemma NoTwinsAfterCut(c: Catalog, dbs: seq<SpecDb>, j: nat, half: bool)
    requires DistinctNames(dbs) && NoTwins(c, dbs) && j <= |dbs| && (half ==> j < |dbs|)
    ensures NoTwins(Cut(c, dbs, j, half), dbs)
  {
    forall i | 0 <= i < |dbs| ensures NotTwin(Cut(c, dbs, j, half), dbs[i]) {
      QuoteIsLonger(dbs[i].owner);
      assert NotTwin(c, dbs[i]);
      if half && i == j {
      } else if i < j {
        SpecsAt(c, dbs[..j], i);
        SpecAgrees(c, dbs[i]);
        assert half ==> dbs[i].name != dbs[j].name;
      } else {
        forall k | 0 <= k < j ensures dbs[..j][k].name != dbs[i].name { assert dbs[k].name != dbs[i].name; }
        SpecsElsewhere(c, dbs[..j], dbs[i].name);
        assert half ==> dbs[j].name != dbs[i].name;
      }
    }
  }

  /** Wherever a run was cut short, the next run starts from a catalog it can handle: all its statements
      succeed and every database of the spec ends up under its owner. */
  lemma RerunSucceeds(p: Point, c: Catalog, names: seq<Name>, ds: seq<Delta>, dbs: seq<SpecDb>,
                      names': seq<Name>)
    requires InvalidNames(c, names) && Admissible(c, ds, dbs)
    requires PointOk(p, names, ds, dbs, DeltasEffect(WithoutInvalid(c), ds))
    requires InvalidNames(CatalogAt(p, c, names, ds, dbs), names')
    ensures var mid := CatalogAt(p, c, names, ds, dbs);
      && ExecAll(mid, RunOps(mid, names', ds, dbs)) == Some(Final(mid, ds, dbs))
      && forall i :: 0 <= i < |dbs| ==>
           dbs[i].name in Final(mid, ds, dbs) && Final(mid, ds, dbs)[dbs[i].name].owner == dbs[i].owner
  {
    PointAdmissible(p, c, names, ds, dbs);
    hide Final, RunOps, CatalogAt, Admissible;
    RunSucceeds(CatalogAt(p, c, names, ds, dbs), names', ds, dbs);
  }

  lemma PointAdmissible(p: Point, c: Catalog, names: seq<Name>, ds: seq<Delta>, dbs: seq<SpecDb>)
    requires InvalidNames(c, names) && Admissible(c, ds, dbs)
    requires PointOk(p, names, ds, dbs, DeltasEffect(WithoutInvalid(c), ds))
    ensures Admissible(CatalogAt(p, c, names, ds, dbs), ds, dbs)
  {
    var valid := WithoutInvalid(c);
    var base := DeltasEffect(valid, ds);
    var mid := CatalogAt(p, c, names, ds, dbs);
    DeltasValid(valid, ds);
    match p
    case InDrops(k) =>
      SubsetValid(c, names, k);
    case InDeltas(j, cleared) =>
      DeltasValid(valid, ds[..j]);
      ValidStays(mid);
      CutDeltasResume(valid, ds, j, cleared);
    case InSpecs(j, half) =>
      SpecsValid(base, dbs, j, half);
      ValidStays(mid);
      DeltasAfterSpecs(valid, ds, dbs, j, half);
      NoTwinsAfterCut(base, dbs, j, half);
  }

  // ---------- Any number of interrupted runs ----------

  /** The same databases under the same owners, with at most as many of them granted. */
  ghost predicate Weaker(a: Catalog, b: Catalog) {
    && a.Keys == b.Keys
    && forall n :: n in a ==> a[n] == b[n] || (b[n].granted && a[n] == b[n].(granted := false))
  }

  lemma HalfIsWeaker(c: Catalog, dbs: seq<SpecDb>, j: nat)
    requires DistinctNames(dbs) && j < |dbs| && dbs[j].name !in SpecsEffect(c, dbs[..j])
    ensures Weaker(SpecsEffect(Cut(c, dbs, j, true), dbs), SpecsEffect(c, dbs))
  {
    var cut := Cut(c, dbs, j, true);
    var a, b := SpecsEffect(cut, dbs), SpecsEffect(c, dbs);
    forall n ensures n in a <==> n in b
      ensures n in a && n in b ==> a[n] == b[n] || (b[n].granted && a[n] == b[n].(granted := false))
    {
      if i :| 0 <= i < |dbs| && dbs[i].name == n {
        SpecsAt(cut, dbs, i);
        SpecsAt(c, dbs, i);
        SpecsPart(c, dbs, j, i);
        assert i != j ==> dbs[i].name != dbs[j].name;
      } else {
        SpecsElsewhere(cut, dbs, n);
        SpecsElsewhere(c, dbs, n);
        SpecsElsewhere(c, dbs[..j], n);
      }
    }
  }

  lemma PointIsWeaker(p: Point, c: Catalog, names: seq<Name>, ds: seq<Delta>, dbs: seq<SpecDb>)
    requires InvalidNames(c, names) && Admissible(c, ds, dbs)
    requires PointOk(p, names, ds, dbs, DeltasEffect(WithoutInvalid(c), ds))
    ensures Weaker(Final(CatalogAt(p, c, names, ds, dbs), ds, dbs), Final(c, ds, dbs))
  {
    PointConverges(p, c, names, ds, dbs);
    if p.InSpecs? && p.half {
      var valid := WithoutInvalid(c);
      var base := DeltasEffect(valid, ds);
      DeltasValid(valid, ds);
      SpecsValid(base, dbs, p.j, true);
      ValidStays(Cut(base, dbs, p.j, true));
      DeltasAfterSpecs(valid, ds, dbs, p.j, true);
      HalfIsWeaker(base, dbs, p.j);
    }
  }

  /** A run that is cut short after `k` statements; `names` are the invalid databases it found. */
  datatype Attempt = Attempt(names: seq<Name>, k: nat)

  ghost predicate Possible(c: Catalog, ds: seq<Delta>, dbs: seq<SpecDb>, tries: seq<Attempt>)
    decreases |tries|
  {
    tries == [] ||
      var t := tries[0];
      && InvalidNames(c, t.names) && t.k <= |RunOps(c, t.names, ds, dbs)|
      && var next := ExecAll(c, RunOps(c, t.names, ds, dbs)[..t.k]);
         next.Some? && Possible(next.value, ds, dbs, tries[1..])
  }

  ghost function Tried(c: Catalog, ds: seq<Delta>, dbs: seq<SpecDb>, tries: seq<Attempt>): Catalog
    requires Possible(c, ds, dbs, tries)
    decreases |tries|
  {
    if tries == [] then c else
      Tried(ExecAll(c, RunOps(c, tries[0].names, ds, dbs)[..tries[0].k]).value, ds, dbs, tries[1..])
  }

  /** None of the runs ended right after a CREATE DATABASE. */
  ghost predicate NoneAtCreate(c: Catalog, ds: seq<Delta>, dbs: seq<SpecDb>, tries: seq<Attempt>)
    requires Possible(c, ds, dbs, tries)
    decreases |tries|
  {
    tries == [] ||
      var t := tries[0];
      && !(t.k > 0 && RunOps(c, t.names, ds, dbs)[t.k - 1].CreateDb?)
      && NoneAtCreate(ExecAll(c, RunOps(c, t.names, ds, dbs)[..t.k]).value, ds, dbs, tries[1..])
  }

  /** After any number of interrupted runs an undisturbed one succeeds, with every database of the spec under
      its owner; it ends in the catalog of a first undisturbed run if and only if none of the interrupted
      runs ended right after a CREATE DATABASE, and otherwise only grants are missing. */
  lemma {:induction false} CrashesConverge(c: Catalog, ds: seq<Delta>, dbs: seq<SpecDb>, tries: seq<Attempt>)
    requires Admissible(c, ds, dbs) && Possible(c, ds, dbs, tries)
    ensures Admissible(Tried(c, ds, dbs, tries), ds, dbs)
    ensures Weaker(Final(Tried(c, ds, dbs, tries), ds, dbs), Final(c, ds, dbs))
    ensures Final(Tried(c, ds, dbs, tries), ds, dbs) == Final(c, ds, dbs) <==> NoneAtCreate(c, ds, dbs, tries)
    decreases |tries|
  {
    if tries != [] {
      var t := tries[0];
      var ops := RunOps(c, t.names, ds, dbs);
      hide ExecAll, Final, CatalogAt, RunOps, Admissible, PointOk;
      var p := PrefixStops(c, t.names, ds, dbs, t.k);
      var next := ExecAll(c, ops[..t.k]).value;
      PointConverges(p, c, t.names, ds, dbs);
      PointIsWeaker(p, c, t.names, ds, dbs);
      PointAdmissible(p, c, t.names, ds, dbs);
      CrashesConverge(next, ds, dbs, tries[1..]);
    }
  }

  /** Example: a run cut short after its CREATE DATABASE. The database never gets its grant. */
  lemma CutAfterCreate()
    ensures var dbs := [SpecDb("db", "bob")];
            var mid := map["db" := Db("bob", false, false, false)];
      && RunOps(map[], [], [], dbs) == [CreateDb("db", "bob"), GrantAll("db")]
      && ExecAll(map[], RunOps(map[], [], [], dbs)[..1]) == Some(mid)
      && Final(mid, [], dbs) == mid && Final(map[], [], dbs) == map["db" := Db("bob", false, true, false)]
  {
    var db := SpecDb("db", "bob");
    var dbs := [db];
    var c: Catalog := map[];
    var mid := map["db" := Db("bob", false, false, false)];
    assert dbs[1..] == [] && WithoutInvalid(c) == c && WithoutInvalid(mid) == mid;
    assert SpecsOps(Read(c), dbs) == SpecOps(Read(c), db) + SpecsOps(SpecMirror(Read(c), db), []);
    assert SpecsEffect(c, dbs) == SpecEffect(c, db) && SpecsEffect(mid, dbs) == SpecEffect(mid, db);
    assert RunOps(c, [], [], dbs)[..1] == [CreateDb("db", "bob")];
    ExecOne(c, CreateDb("db", "bob"));
  }

  /** A DROP DATABASE that was interrupted leaves the database behind as invalid, its template flag cleared; the
      next run removes it and ends in the same catalog. */
  lemma InterruptedDelete(c: Catalog, ds: seq<Delta>, dbs: seq<SpecDb>, j: nat)
    requires Orderly(ds) && j < |ds| && ds[j].Delete?
    requires ds[j].name in DeltasEffect(WithoutInvalid(c), ds[..j])
    ensures var mid := DeltasEffect(WithoutInvalid(c), ds[..j]);
      Final(mid[ds[j].name := mid[ds[j].name].(invalid := true, template := false)], ds, dbs) == Final(c, ds, dbs)
  {
    var valid := WithoutInvalid(c);
    var mid := DeltasEffect(valid, ds[..j]);
    DeltasValid(valid, ds[..j]);
    DeltasSnoc(valid, ds, j);
    var left := mid[ds[j].name].(invalid := true, template := false);
    assert WithoutInvalid(mid[ds[j].name := left]) == mid - {ds[j].name};
    DeltasResume(valid, ds, j + 1);
  }

  lemma {:induction false} SilentSpecs(c: Catalog, dbs: seq<SpecDb>)
    requires forall i :: 0 <= i < |dbs| ==> dbs[i].name in c && c[dbs[i].name].owner == dbs[i].owner
    ensures SpecsOps(Read(c), dbs) == []
       <==> forall i :: 0 <= i < |dbs| ==> !(dbs[i].owner != "" && dbs[i].owner[0] == '"')
    decreases |dbs|
  {
    if dbs != [] {
      QuoteIsLonger(dbs[0].owner);
      assert SpecMirror(Read(c), dbs[0]) == Read(c);
      SilentSpecs(c, dbs[1..]);
      assert forall i :: 0 <= i < |dbs[1..]| ==> dbs[1..][i] == dbs[i + 1];
    }
  }

  /** With nothing to rename or delete, a second run emits no statement at all exactly when no owner in the
      spec begins with a double quote. */
  lemma SecondRunIsSilent(c: Catalog, names: seq<Name>, dbs: seq<SpecDb>)
    requires InvalidNames(c, names) && Admissible(c, [], dbs)
    ensures InvalidNames(Final(c, [], dbs), [])
    ensures RunOps(Final(c, [], dbs), [], [], dbs) == []
       <==> forall i :: 0 <= i < |dbs| ==> !(dbs[i].owner != "" && dbs[i].owner[0] == '"')
  {
    var done := Final(c, [], dbs);
    RunSucceeds(c, names, [], dbs);
    SpecsKeepValid(WithoutInvalid(c), dbs);
    ValidStays(done);
    SilentSpecs(done, dbs);
  }
}
