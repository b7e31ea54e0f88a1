/** Running database migrations exactly once and in order, across failures and restarts. */
module Migration {

  /** A migration that took effect: its id and its text. */
  datatype Applied = Applied(id: nat, text: string)

  /** The database: the stored migration id and the migrations that were committed, oldest first. */
  datatype Db = Db(id: nat, log: seq<Applied>)

  /** How the transaction of one migration ends: it commits; it fails or the program dies before the
      commit; it commits but the program never hears of it. */
  datatype Txn = Commits | Fails | CommitsUnheard

  predicate Skipped(text: string) {
    "-- SKIP" <= text
  }

  /** The migration and the new id are committed together or not at all. */
  function RunMigration(db: Db, id: nat, text: string, t: Txn): Db {
    if t.Fails? then db
    else Db(id, if Skipped(text) then db.log else db.log + [Applied(id, text)])
  }

  /** One start of the program with its list of migrations. */
  function RunMigrations(db: Db, migrations: seq<string>, txns: seq<Txn>): Db
    decreases |txns|
  {
    if db.id >= |migrations| || txns == [] then db else
      var next := RunMigration(db, db.id + 1, migrations[db.id], txns[0]);
      if txns[0] == Commits then RunMigrations(next, migrations, txns[1..]) else next
  }

  /** The program hears of every commit that was due. */
  predicate Succeeds(db: Db, migrations: seq<string>, txns: seq<Txn>)
    decreases |txns|
  {
    || db.id >= |migrations|
    || (txns != [] && txns[0] == Commits
        && Succeeds(RunMigration(db, db.id + 1, migrations[db.id], Commits), migrations, txns[1..]))
  }

  /** The migrations of a list that have an effect, in order. */
  function Effects(migrations: seq<string>): seq<Applied> {
    if migrations == [] then [] else
      var n := |migrations| - 1;
      Effects(migrations[..n]) + (if Skipped(migrations[n]) then [] else [Applied(n + 1, migrations[n])])
  }

  /** Exactly the migrations up to the stored id have taken effect, each once and in order. */
  ghost predicate UpToDate(db: Db, all: seq<string>) {
    db.id <= |all| && db.log == Effects(all[..db.id])
  }

  lemma RunMigrationKeeps(db: Db, all: seq<string>, t: Txn)
    requires UpToDate(db, all) && db.id < |all|
    ensures UpToDate(RunMigration(db, db.id + 1, all[db.id], t), all)
  {
    assert all[..db.id + 1][..db.id] == all[..db.id];
  }

  lemma {:induction false} RunMigrationsKeeps(db: Db, migrations: seq<string>, txns: seq<Txn>, all: seq<string>)
    requires UpToDate(db, all) && migrations <= all
    ensures var r := RunMigrations(db, migrations, txns);
      UpToDate(r, all) && db.id <= r.id && (db.id >= |migrations| ==> r == db)
    ensures RunMigrations(db, migrations, txns).id <= if db.id > |migrations| then db.id else |migrations|
    decreases |txns|
  {
    if db.id < |migrations| && txns != [] {
      assert migrations[db.id] == all[db.id];
      RunMigrationKeeps(db, all, txns[0]);
      if txns[0] == Commits {
        RunMigrationsKeeps(RunMigration(db, db.id + 1, migrations[db.id], txns[0]), migrations, txns[1..], all);
      }
    }
  }

  /** Starts of the program, possibly by different versions with lists of different length. */
  datatype Start = Start(migrations: seq<string>, txns: seq<Txn>)

  function RunAll(db: Db, starts: seq<Start>): Db
    decreases |starts|
  {
    if starts == [] then db else RunAll(RunMigrations(db, starts[0].migrations, starts[0].txns), starts[1..])
  }

  /** Whatever fails and however often the program is started, by versions whose lists are all prefixes of
      one list: the committed migrations are exactly the prefix given by the stored id. */
  lemma {:induction false} ExactlyOnce(db: Db, starts: seq<Start>, all: seq<string>)
    requires UpToDate(db, all) && forall i :: 0 <= i < |starts| ==> starts[i].migrations <= all
    ensures UpToDate(RunAll(db, starts), all) && db.id <= RunAll(db, starts).id
    decreases |starts|
  {
    if starts != [] {
      RunMigrationsKeeps(db, starts[0].migrations, starts[0].txns, all);
      ExactlyOnce(RunMigrations(db, starts[0].migrations, starts[0].txns), starts[1..], all);
    }
  }

  lemma {:induction false} EffectsIds(all: seq<string>)
    ensures forall k :: 0 <= k < |Effects(all)| ==> 1 <= Effects(all)[k].id <= |all|
    ensures forall k :: 0 <= k < |Effects(all)| ==>
      Effects(all)[k].text == all[Effects(all)[k].id - 1] && !Skipped(Effects(all)[k].text)
    ensures forall k, m :: 0 <= k < m < |Effects(all)| ==> Effects(all)[k].id < Effects(all)[m].id
  {
    if all != [] {
      EffectsIds(all[..|all| - 1]);
    }
  }

  lemma {:induction false} EffectsComplete(all: seq<string>, i: nat)
    requires i < |all| && !Skipped(all[i])
    ensures Applied(i + 1, all[i]) in Effects(all)
  {
    if i < |all| - 1 {
      EffectsComplete(all[..|all| - 1], i);
    }
  }

  /** What being up to date means: an applied migration is one of the list up to the stored id, none is
      applied twice or out of order, and one of these is applied if and only if its text does not begin with
      the seven characters of the skip mark. */
  lemma UpToDateMeans(db: Db, all: seq<string>)
    requires UpToDate(db, all)
    ensures forall k :: 0 <= k < |db.log| ==> 1 <= db.log[k].id <= db.id && db.log[k].text == all[db.log[k].id - 1]
    ensures forall k, m :: 0 <= k < m < |db.log| ==> db.log[k].id < db.log[m].id
    ensures forall i :: 0 <= i < db.id ==>
      (Applied(i + 1, all[i]) in db.log <==> !(|all[i]| >= 7 && all[i][..7] == "-- SKIP"))
  {
    var done := all[..db.id];
    EffectsIds(done);
    forall i | 0 <= i < db.id
      ensures Applied(i + 1, all[i]) in db.log <==> !(|all[i]| >= 7 && all[i][..7] == "-- SKIP")
    {
      SkipMark(all[i]);
      if !Skipped(all[i]) {
        EffectsComplete(done, i);
      }
    }
  }

  lemma SkipMark(text: string)
    ensures Skipped(text) <==> |text| >= 7 && text[..7] == "-- SKIP"
  {
    if |text| >= 7 && text[..7] == "-- SKIP" {
      assert text == "-- SKIP" + text[7..];
    }
  }

  /** The database went from `a` to `b`: the log was appended to, and of the migrations passed exactly those are
      new in it whose text does not begin with the skip mark. */
  ghost predicate Went(a: Db, b: Db, migrations: seq<string>) {
    && a.id <= b.id && (b.id > a.id ==> b.id <= |migrations|) && a.log <= b.log
    && (forall i :: a.id <= i < b.id ==>
          (Applied(i + 1, migrations[i]) in b.log[|a.log|..]
           <==> !(|migrations[i]| >= 7 && migrations[i][..7] == "-- SKIP")))
    && (forall x :: x in b.log[|a.log|..] ==> a.id < x.id <= b.id && x.text == migrations[x.id - 1])
  }

  lemma WentOne(db: Db, migrations: seq<string>, t: Txn)
    requires db.id < |migrations|
    ensures Went(db, RunMigration(db, db.id + 1, migrations[db.id], t), migrations)
  {
    var text := migrations[db.id];
    SkipMark(text);
    assert (db.log + [Applied(db.id + 1, text)])[|db.log|..] == [Applied(db.id + 1, text)];
  }

  lemma WentOn(a: Db, b: Db, c: Db, migrations: seq<string>)
    requires Went(a, b, migrations) && Went(b, c, migrations)
    ensures Went(a, c, migrations)
  {
    var first, second, all := b.log[|a.log|..], c.log[|b.log|..], c.log[|a.log|..];
    assert all == first + second;
    forall i | a.id <= i < c.id
      ensures Applied(i + 1, migrations[i]) in all
         <==> !(|migrations[i]| >= 7 && migrations[i][..7] == "-- SKIP")
    {
      var x := Applied(i + 1, migrations[i]);
      assert x in all <==> x in first || x in second;
    }
  }

  lemma {:induction false} RunMigrationsWent(db: Db, migrations: seq<string>, txns: seq<Txn>)
    ensures Went(db, RunMigrations(db, migrations, txns), migrations)
    decreases |txns|
  {
    hide Went;
    if db.id < |migrations| && txns != [] {
      var next := RunMigration(db, db.id + 1, migrations[db.id], txns[0]);
      WentOne(db, migrations, txns[0]);
      if txns[0] == Commits {
        RunMigrationsWent(next, migrations, txns[1..]);
        WentOn(db, next, RunMigrations(next, migrations, txns[1..]), migrations);
      }
    } else {
      WentNowhere(db, migrations);
    }
  }

  lemma WentNowhere(db: Db, migrations: seq<string>)
    ensures Went(db, db, migrations)
  {
  }

  ghost predicate AllCommit(txns: seq<Txn>, k: nat) {
    k <= |txns| && forall i :: 0 <= i < k ==> txns[i] == Commits
  }

  /** How far one start gets: past every migration whose transaction commits, up to the first that does not. */
  lemma {:induction false} Progress(db: Db, migrations: seq<string>, txns: seq<Txn>, k: nat)
    requires AllCommit(txns, k) && db.id + k <= |migrations|
    ensures RunMigrations(db, migrations, txns).id >= db.id + k
    ensures db.id + k == |migrations| ==> Succeeds(db, migrations, txns)
    ensures db.id + k < |migrations| && k < |txns| && txns[k] != Commits ==>
      && RunMigrations(db, migrations, txns).id == db.id + k + (if txns[k].Fails? then 0 else 1)
      && !Succeeds(db, migrations, txns)
    decreases k
  {
    if k > 0 {
      Progress(RunMigration(db, db.id + 1, migrations[db.id], Commits), migrations, txns[1..], k - 1);
    } else {
      RunMigrationsWent(db, migrations, txns);
    }
  }

  /** The transactions of the migrations that are due all commit, as far as `k` of them. */
  lemma ProgressAll(db: Db, migrations: seq<string>, txns: seq<Txn>)
    ensures forall k: nat :: AllCommit(txns, k) && db.id + k <= |migrations| ==>
      && RunMigrations(db, migrations, txns).id >= db.id + k
      && (db.id + k == |migrations| ==> Succeeds(db, migrations, txns))
  {
    forall k: nat | AllCommit(txns, k) && db.id + k <= |migrations|
      ensures RunMigrations(db, migrations, txns).id >= db.id + k
      ensures db.id + k == |migrations| ==> Succeeds(db, migrations, txns)
    {
      Progress(db, migrations, txns, k);
    }
  }

  class Runner {
    var db: Db

    constructor (db: Db)
      ensures this.db == db
    {
      this.db := db;
    }

    /** Runs the migrations that are still due. `txns` says how their transactions end; where it is used
        up the program dies. */
    method Run(migrations: seq<string>, txns: seq<Txn>) returns (ok: bool)
      modifies this
      ensures db == RunMigrations(old(db), migrations, txns)
      ensures ok <==> Succeeds(old(db), migrations, txns)
      ensures ok ==> db.id >= |migrations|
      ensures Went(old(db), db, migrations)
      ensures forall k: nat :: AllCommit(txns, k) && old(db.id) + k <= |migrations| ==>
        db.id >= old(db.id) + k && (old(db.id) + k == |migrations| ==> ok)
    {
      hide Went, AllCommit;
      ProgressAll(db, migrations, txns);
      RunMigrationsWent(db, migrations, txns);
      var current := db.id;
      var rest := txns;
      while current < |migrations|
        invariant current == db.id
        invariant RunMigrations(db, migrations, rest) == RunMigrations(old(db), migrations, txns)
        invariant Succeeds(db, migrations, rest) <==> Succeeds(old(db), migrations, txns)
        decreases |migrations| - current
      {
        if rest == [] {
          return false;
        }
        var id := current + 1;
        var text := migrations[current];
        if rest[0] != Fails {
          if Skipped(text) {
            db := db.(id := id);
          } else {
            db := Db(id, db.log + [Applied(id, text)]);
          }
        }
        if rest[0] != Commits {
          return false;
        }
        rest := rest[1..];
        current := current + 1;
      }
      return true;
    }
  }
}
