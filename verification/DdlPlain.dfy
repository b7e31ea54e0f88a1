/** Whole transactions without renames: nesting does not matter. */
module DdlPlain {
  import opened Options
  import opened DdlTables
  import opened DdlStack

  /** The surviving statements of a tree, in order. */
  function Flat(ts: seq<Tree>): seq<Statement>
    decreases ts
  {
    if ts == [] then [] else FlatOf(ts[0]) + Flat(ts[1..])
  }

  function FlatOf(t: Tree): seq<Statement>
    decreases t
  {
    match t
    case Leaf(s) => [s]
    case Sub(body, committed) => if committed then Flat(body) else []
  }

  /** No renames, and every owner is a role that exists. */
  ghost predicate Simple(s: Statement) {
    Plain(s) && (s.CreateDb? ==> s.owner != 0) && (s.AlterOwner? ==> s.owner != 0)
  }

  ghost predicate AllSimple(ss: seq<Statement>) {
    forall i :: 0 <= i < |ss| ==> Simple(ss[i])
  }

  // ---------- The owner of a dropped database does not matter ----------

  function Settled(e: Entry<Oid>): Entry<Oid> {
    if e.op == OpDelete then e.(payload := 0) else e
  }

  /** The tables with no owner for dropped databases. */
  function Norm(l: Level): Level {
    l.(dbs := map n | n in l.dbs :: Settled(l.dbs[n]))
  }

  lemma NormApply(l: Level, s: Statement)
    requires Plain(s)
    ensures Norm(Apply(l, s)) == Apply(Norm(l), s)
  {
    match s
    case CreateDb(name, owner) => assert Norm(Apply(l, s)).dbs == Apply(Norm(l), s).dbs;
    case AlterOwner(name, owner) => assert Norm(Apply(l, s)).dbs == Apply(Norm(l), s).dbs;
    case DropDb(name) => assert Norm(Apply(l, s)).dbs == Apply(Norm(l), s).dbs;
    case _ =>
  }

  lemma {:induction false} NormApplyAll(l: Level, ss: seq<Statement>)
    requires AllSimple(ss)
    ensures Norm(ApplyAll(l, ss)) == ApplyAll(Norm(l), ss)
  {
    if ss != [] {
      var n := |ss| - 1;
      assert Simple(ss[n]);
      hide Norm, Apply;
      NormApplyAll(l, ss[..n]);
      NormApply(ApplyAll(l, ss[..n]), ss[n]);
    }
  }

  // ---------- What plain statements leave behind ----------

  /** No renames are recorded, and every database that is not dropped has an owner. */
  ghost predicate Tidy(l: Level) {
    NoRenames(l) && forall n :: n in l.dbs && l.dbs[n].op == OpSet ==> l.dbs[n].payload != 0
  }

  lemma {:induction false} DropAllTidy(t: Table<Password>, names: seq<Name>)
    requires NoOldNames(t)
    ensures NoOldNames(DropAll(t, names))
  {
    if names != [] {
      DropAllTidy(t, names[..|names| - 1]);
    }
  }

  lemma ApplyTidy(l: Level, s: Statement)
    requires Tidy(l) && Simple(s)
    ensures Tidy(Apply(l, s))
  {
    if s.DropRoles? {
      DropAllTidy(l.roles, s.names);
    }
  }

  /** Merging tidy tables is laying one over the other, but for the owners of dropped databases. */
  lemma MergeTidy(l: Level, c: Level, scan: Scan)
    requires Tidy(l) && Tidy(c) && Complete(scan)
    ensures Tidy(Merge(l, c, scan)) && Norm(Merge(l, c, scan)) == OverlayLevel(Norm(l), Norm(c))
  {
    assert ScansAll(scan.roles, c.roles) && ScansAll(scan.dbs, c.dbs);
    MergedRoles(l.roles, c.roles, scan.roles);
    hide Complete, ScansAll;
    RolesTidy(l.roles, c.roles);
    assert forall n :: n in c.dbs <==> n in scan.dbs(c.dbs) by {
      assert ScansAll(scan.dbs, c.dbs);
      ScannedAll(scan.dbs, c.dbs);
    }
    DbsTidy(l, c, scan.dbs(c.dbs));
  }

  lemma ScannedAll(order: Table<Oid> -> seq<Name>, t: Table<Oid>)
    requires ScansAll(order, t)
    ensures forall n :: n in t <==> n in order(t)
  {
  }

  lemma RolesTidy(p: Table<Password>, c: Table<Password>)
    requires NoOldNames(p) && NoOldNames(c)
    ensures NoOldNames(Overlay(p, c)) && forall n :: n in c ==> OldName(p, n) == ""
  {
  }

  lemma DbTidyAt(l: Level, c: Level, names: seq<Name>, n: Name)
    requires Tidy(l) && Tidy(c) && (n in c.dbs <==> n in names)
    ensures var m, o := MergeDbs(l.dbs, c.dbs, names), Overlay(Norm(l).dbs, Norm(c).dbs);
      && (n in m <==> n in o) && (n in m ==> Settled(m[n]) == o[n])
      && (n in m ==> m[n].oldName == "" && (m[n].op == OpSet ==> m[n].payload != 0))
  {
    hide MergeDbs, Overlay;
    MergedDbAt(l.dbs, c.dbs, names, n);
    OverlayAt(Norm(l).dbs, Norm(c).dbs, n);
  }

  lemma DbsTidy(l: Level, c: Level, names: seq<Name>)
    requires Tidy(l) && Tidy(c) && forall n :: n in c.dbs <==> n in names
    ensures var m := MergeDbs(l.dbs, c.dbs, names);
      && NoOldNames(m) && (forall n :: n in m && m[n].op == OpSet ==> m[n].payload != 0)
      && (map n | n in m :: Settled(m[n])) == Overlay(Norm(l).dbs, Norm(c).dbs)
  {
    var m, o := MergeDbs(l.dbs, c.dbs, names), Overlay(Norm(l).dbs, Norm(c).dbs);
    hide MergeDbs, Overlay, Norm, Tidy, Settled;
    forall n ensures (n in m <==> n in o) && (n in m ==> Settled(m[n]) == o[n])
      ensures n in m ==> m[n].oldName == "" && (m[n].op == OpSet ==> m[n].payload != 0)
    {
      DbTidyAt(l, c, names, n);
    }
    assert (map n | n in m :: Settled(m[n])) == o;
  }

  // ---------- Trees ----------

  lemma {:induction false} ApplyAllAppend(l: Level, a: seq<Statement>, b: seq<Statement>)
    ensures ApplyAll(l, a + b) == ApplyAll(ApplyAll(l, a), b)
  {
    if b == [] {
      assert a + b == a;
    } else {
      var n := |b| - 1;
      ApplyAllAppend(l, a, b[..n]);
      assert (a + b)[..|a + b| - 1] == a + b[..n];
    }
  }

  lemma {:induction false} EffectIsInline(l: Level, ts: seq<Tree>, scan: Scan)
    requires Tidy(l) && AllSimple(Flat(ts)) && Complete(scan)
    ensures Tidy(Effect(l, ts, scan)) && Norm(Effect(l, ts, scan)) == ApplyAll(Norm(l), Flat(ts))
    decreases ts
  {
    if ts != [] {
      var first, rest := FlatOf(ts[0]), Flat(ts[1..]);
      Halves(first, rest);
      hide Norm, Tidy, Complete, AllSimple;
      TreeIsInline(l, ts[0], scan);
      EffectIsInline(TreeEffect(l, ts[0], scan), ts[1..], scan);
      ApplyAllAppend(Norm(l), first, rest);
    }
  }

  lemma Halves(a: seq<Statement>, b: seq<Statement>)
    requires AllSimple(a + b)
    ensures AllSimple(a) && AllSimple(b)
  {
    forall i | 0 <= i < |a| ensures Simple(a[i]) { assert (a + b)[i] == a[i]; }
    forall i | 0 <= i < |b| ensures Simple(b[i]) { assert (a + b)[|a| + i] == b[i]; }
  }

  lemma {:induction false} TreeIsInline(l: Level, t: Tree, scan: Scan)
    requires Tidy(l) && AllSimple(FlatOf(t)) && Complete(scan)
    ensures Tidy(TreeEffect(l, t, scan)) && Norm(TreeEffect(l, t, scan)) == ApplyAll(Norm(l), FlatOf(t))
    decreases t
  {
    match t
    case Leaf(s) =>
      assert Simple(FlatOf(t)[0]) && [s][..0] == [];
      ApplyTidy(l, s);
      NormApply(l, s);
      assert ApplyAll(Norm(l), []) == Norm(l);
    case Sub(body, committed) =>
      if committed {
        var inner := Effect(EMPTY, body, scan);
        assert Tidy(EMPTY) && Norm(EMPTY) == EMPTY;
        EffectIsInline(EMPTY, body, scan);
        MergeTidy(l, inner, scan);
        assert forall i :: 0 <= i < |Flat(body)| ==> Plain(Flat(body)[i]) by {
          assert forall i :: 0 <= i < |Flat(body)| ==> Simple(Flat(body)[i]);
        }
        InlineIsOverlay(Norm(l), Flat(body));
      }
  }

  /** A transaction without renames, however it is nested and whatever is aborted, leaves the tables of its
      surviving statements run one after the other, but for the owners of dropped databases. */
  lemma NestingIsInline(ts: seq<Tree>, scan: Scan)
    requires AllSimple(Flat(ts)) && Complete(scan)
    ensures var stack := Run([EMPTY], Events(ts), scan);
      && |stack| == 1 && stack[0].roles == ApplyAll(EMPTY, Flat(ts)).roles
      && Norm(stack[0]) == Norm(ApplyAll(EMPTY, Flat(ts)))
  {
    assert [EMPTY] == [] + [EMPTY];
    RunTrees([], EMPTY, ts, scan);
    assert Norm(EMPTY) == EMPTY && Tidy(EMPTY);
    EffectIsInline(EMPTY, ts, scan);
    NormApplyAll(EMPTY, Flat(ts));
  }
}
