/** The tables of role and database changes kept for each subtransaction. */
module DdlTables {

  type Name = string

  datatype OpType = OpSet | OpDelete

  /** `oldName` is empty unless the object was renamed. */
  datatype Entry<T> = Entry(oldName: Name, payload: T, op: OpType)

  type Table<T> = map<Name, Entry<T>>

  // ---------- Statements on one table ----------

  function OldName<T>(t: Table<T>, name: Name): Name {
    if name in t then t[name].oldName else ""
  }

  /** CREATE or ALTER of a role or database. */
  function Upsert<T>(t: Table<T>, name: Name, payload: T): Table<T> {
    t[name := Entry(OldName(t, name), payload, OpSet)]
  }

  function Drop<T>(t: Table<T>, name: Name, none: T): Table<T> {
    t[name := Entry(OldName(t, name), none, OpDelete)]
  }

  /** The name an entry's object had before any rename that the table knows of. */
  function Origin<T>(t: Table<T>, name: Name): Name
    requires name in t
  {
    if t[name].oldName != "" then t[name].oldName else name
  }

  function Rename<T>(t: Table<T>, from: Name, to: Name, none: T): Table<T> {
    if from in t then t[to := Entry(Origin(t, from), t[from].payload, OpSet)] - {from}
    else t[to := Entry(from, none, OpSet)]
  }

  // ---------- Rename tracking ----------

  datatype Change<T> = Renamed(from: Name, to: Name) | Altered(name: Name, payload: T)

  /** The catalog as the statements change it: for every current name the name its object had at the start
      of the transaction, and for every such object the payload set last. */
  datatype Catalog<T> = Catalog(origin: map<Name, Name>, last: map<Name, T>)

  ghost predicate Possible<T>(c: Catalog<T>, change: Change<T>) {
    match change
    case Renamed(from, to) => from in c.origin && to !in c.origin && to != ""
    case Altered(name, _) => name in c.origin
  }

  ghost function Happen<T>(c: Catalog<T>, change: Change<T>): Catalog<T>
    requires Possible(c, change)
  {
    match change
    case Renamed(from, to) => c.(origin := (c.origin - {from})[to := c.origin[from]])
    case Altered(name, payload) => c.(last := c.last[c.origin[name] := payload])
  }

  function Record<T>(t: Table<T>, change: Change<T>, none: T): Table<T> {
    match change
    case Renamed(from, to) => Rename(t, from, to, none)
    case Altered(name, payload) => Upsert(t, name, payload)
  }

  ghost predicate PossibleAll<T>(c: Catalog<T>, changes: seq<Change<T>>)
    decreases |changes|
  {
    changes == [] || (Possible(c, changes[0]) && PossibleAll(Happen(c, changes[0]), changes[1..]))
  }

  ghost function HappenAll<T>(c: Catalog<T>, changes: seq<Change<T>>): Catalog<T>
    requires PossibleAll(c, changes)
    decreases |changes|
  {
    if changes == [] then c else HappenAll(Happen(c, changes[0]), changes[1..])
  }

  function RecordAll<T>(t: Table<T>, changes: seq<Change<T>>, none: T): Table<T>
    decreases |changes|
  {
    if changes == [] then t else RecordAll(Record(t, changes[0], none), changes[1..], none)
  }

  /** Different objects were different at the start, and nothing is called "". */
  ghost predicate Proper<T>(c: Catalog<T>) {
    && (forall n, m :: n in c.origin && m in c.origin && c.origin[n] == c.origin[m] ==> n == m)
    && (forall n :: n in c.origin ==> n != "" && c.origin[n] != "")
  }

  /** The table tells the truth about the catalog. */
  ghost predicate Tracks<T>(c: Catalog<T>, t: Table<T>, none: T) {
    && (forall n :: n in t ==> TracksEntry(c, t, n, none))
    && (forall n :: n in c.origin && n !in t ==> c.origin[n] == n && n !in c.last)
  }

  ghost predicate TracksEntry<T>(c: Catalog<T>, t: Table<T>, n: Name, none: T)
    requires n in t
  {
    && n in c.origin
    && t[n].op == OpSet
    && Origin(t, n) == c.origin[n]
    && t[n].payload == if c.origin[n] in c.last then c.last[c.origin[n]] else none
  }

  lemma RenameEntry<T>(c: Catalog<T>, t: Table<T>, from: Name, to: Name, none: T, n: Name)
    requires Tracks(c, t, none) && Proper(c) && Possible(c, Renamed(from, to))
    requires n in Rename(t, from, to, none)
    ensures TracksEntry(Happen(c, Renamed(from, to)), Rename(t, from, to, none), n, none)
  {
    if n == to {
      assert from in t ==> TracksEntry(c, t, from, none);
    } else {
      assert TracksEntry(c, t, n, none);
    }
  }

  lemma RenameTracks<T>(c: Catalog<T>, t: Table<T>, from: Name, to: Name, none: T)
    requires Tracks(c, t, none) && Proper(c) && Possible(c, Renamed(from, to))
    ensures Tracks(Happen(c, Renamed(from, to)), Rename(t, from, to, none), none)
    ensures Proper(Happen(c, Renamed(from, to)))
  {
    hide TracksEntry, Origin;
    var d, u := Happen(c, Renamed(from, to)), Rename(t, from, to, none);
    forall n | n in u ensures TracksEntry(d, u, n, none) {
      RenameEntry(c, t, from, to, none, n);
    }
    assert forall n :: n in d.origin && n !in u ==> n in c.origin && n !in t;
  }

  lemma AlterTracks<T>(c: Catalog<T>, t: Table<T>, name: Name, payload: T, none: T)
    requires Tracks(c, t, none) && Proper(c) && Possible(c, Altered(name, payload))
    ensures Tracks(Happen(c, Altered(name, payload)), Upsert(t, name, payload), none)
    ensures Proper(Happen(c, Altered(name, payload)))
  {
    var d, u := Happen(c, Altered(name, payload)), Upsert(t, name, payload);
    forall n | n in u ensures TracksEntry(d, u, n, none) {
      if n in t {
        assert TracksEntry(c, t, n, none);
      }
    }
  }

  lemma {:induction false} TracksAll<T>(c: Catalog<T>, t: Table<T>, changes: seq<Change<T>>, none: T)
    requires Tracks(c, t, none) && Proper(c) && PossibleAll(c, changes)
    ensures Tracks(HappenAll(c, changes), RecordAll(t, changes, none), none)
    ensures Proper(HappenAll(c, changes)) && HappenAll(c, changes).origin.Values == c.origin.Values
    decreases |changes|
  {
    if changes != [] {
      match changes[0] {
        case Renamed(from, to) => RenameTracks(c, t, from, to, none);
        case Altered(name, payload) => AlterTracks(c, t, name, payload, none);
      }
      SameObjects(c, changes[0]);
      TracksAll(Happen(c, changes[0]), Record(t, changes[0], none), changes[1..], none);
    }
  }

  /** Renaming and altering neither create nor destroy objects. */
  lemma SameObjects<T>(c: Catalog<T>, change: Change<T>)
    requires Possible(c, change)
    ensures Happen(c, change).origin.Values == c.origin.Values
  {
    if change.Renamed? {
      var d := Happen(c, change);
      forall o | o in c.origin.Values ensures o in d.origin.Values {
        var n :| n in c.origin && c.origin[n] == o;
        assert d.origin[if n == change.from then change.to else n] == o;
      }
    }
  }

  ghost function Start<T>(names: set<Name>): Catalog<T> {
    Catalog(map n | n in names :: n, map[])
  }

  /** The catalog a reader of the table would compute from the names at the start of the transaction. */
  ghost function Rebuilt<T>(names: set<Name>, t: Table<T>): map<Name, Name> {
    (map n | n in names && (forall m :: m in t ==> Origin(t, m) != n) :: n) + (map m | m in t :: Origin(t, m))
  }

  /** For any sequence of renames and alters that the catalog admits, the table gives for every object it
      mentions the name at the start of the transaction and the payload set last; together with the names
      at the start it determines the catalog. */
  lemma RenamesAreExact<T>(names: set<Name>, changes: seq<Change<T>>, none: T)
    requires "" !in names && PossibleAll(Start(names), changes)
    ensures var c, t := HappenAll(Start(names), changes), RecordAll(map[], changes, none);
      Tracks(c, t, none) && c.origin == Rebuilt(names, t)
  {
    var c0: Catalog<T> := Start(names);
    TracksAll(c0, map[], changes, none);
    forall n | n in names ensures n in c0.origin.Values { assert c0.origin[n] == n; }
    RebuiltIsCatalog(names, HappenAll(c0, changes), RecordAll(map[], changes, none), none);
  }

  lemma RebuiltIsCatalog<T>(names: set<Name>, c: Catalog<T>, t: Table<T>, none: T)
    requires Tracks(c, t, none) && Proper(c) && c.origin.Values == names
    ensures c.origin == Rebuilt(names, t)
  {
    var r := Rebuilt(names, t);
    forall n | n in c.origin ensures n in r && r[n] == c.origin[n] {
      if n in t {
        assert TracksEntry(c, t, n, none);
      } else {
        forall m | m in t ensures Origin(t, m) != n { assert TracksEntry(c, t, m, none); }
      }
    }
    forall n | n in r ensures n in c.origin {
      if n in t {
        assert TracksEntry(c, t, n, none);
      } else {
        var m :| m in c.origin && c.origin[m] == n;
        assert m in t ==> TracksEntry(c, t, m, none);
      }
    }
  }

  // ---------- One statement, seen from outside ----------

  /** Nothing is different under the other names. */
  ghost predicate SameElsewhere<T>(t: Table<T>, u: Table<T>, names: set<Name>) {
    forall n :: n !in names ==> (n in u <==> n in t) && (n in u ==> u[n] == t[n])
  }

  /** The object's entry says what was done last, and the name it had before is not forgotten. */
  ghost predicate Recorded<T>(t: Table<T>, u: Table<T>, name: Name, payload: T, op: OpType) {
    && name in u && u[name].payload == payload && u[name].op == op
    && u[name].oldName == OldName(t, name)
    && SameElsewhere(t, u, {name})
  }

  /** The entry has moved to the new name, with what was known about the object; the old name is free. */
  ghost predicate Moved<T>(t: Table<T>, u: Table<T>, from: Name, to: Name, none: T) {
    && (from != to || from !in t ==>
          && to in u && u[to].op == OpSet
          && u[to].oldName == (if from in t then Origin(t, from) else from)
          && u[to].payload == if from in t then t[from].payload else none)
    && (from != to || from in t ==> from !in u)
    && SameElsewhere(t, u, {from, to})
  }

  lemma RecordedIsUpsert<T>(t: Table<T>, u: Table<T>, name: Name, payload: T)
    ensures Recorded(t, u, name, payload, OpSet) <==> u == Upsert(t, name, payload)
  {
    if Recorded(t, u, name, payload, OpSet) {
      assert u == Upsert(t, name, payload);
    }
  }

  lemma RecordedIsDrop<T>(t: Table<T>, u: Table<T>, name: Name, none: T)
    ensures Recorded(t, u, name, none, OpDelete) <==> u == Drop(t, name, none)
  {
    if Recorded(t, u, name, none, OpDelete) {
      assert u == Drop(t, name, none);
    }
  }

  lemma MovedIsRename<T>(t: Table<T>, u: Table<T>, from: Name, to: Name, none: T)
    ensures Moved(t, u, from, to, none) <==> u == Rename(t, from, to, none)
  {
    if Moved(t, u, from, to, none) {
      assert u == Rename(t, from, to, none);
    }
  }

  lemma {:induction false} RecordAllAppend<T>(t: Table<T>, a: seq<Change<T>>, b: seq<Change<T>>, none: T)
    ensures RecordAll(t, a + b, none) == RecordAll(RecordAll(t, a, none), b, none)
    decreases |a|
  {
    if a == [] {
      assert a + b == b;
    } else {
      assert (a + b)[1..] == a[1..] + b;
      RecordAllAppend(Record(t, a[0], none), a[1..], b, none);
    }
  }
}
