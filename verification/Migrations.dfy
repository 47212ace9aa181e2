/** The migration runner: a loop that checks each migration and applies it in one
    transaction with its tracker row, alone and against other runners. */
module Migrations {

  datatype Migration = Migration(version: string, sql: string)

  function Versions(ms: seq<Migration>): set<string> {
    set m | m in ms :: m.version
  }

  lemma VersionsSnoc(ms: seq<Migration>, m: Migration)
    ensures Versions(ms + [m]) == Versions(ms) + {m.version}
  {
    assert m in ms + [m];
    assert forall x :: x in ms + [m] <==> x in ms || x == m;
  }

  /** What has to be applied, in listed order, when the tracker holds `tracker`. */
  function Missing(files: seq<Migration>, tracker: set<string>): seq<Migration> {
    if files == [] then []
    else
      var before, m := Missing(files[..|files| - 1], tracker), files[|files| - 1];
      if m.version in tracker || m.version in Versions(before) then before else before + [m]
  }

  lemma {:induction false} MissingCompletes(files: seq<Migration>, tracker: set<string>)
    ensures Versions(files) <= tracker + Versions(Missing(files, tracker))
    ensures Versions(Missing(files, tracker)) <= Versions(files)
    ensures Versions(Missing(files, tracker)) !! tracker
  {
    if files != [] {
      var init, m := files[..|files| - 1], files[|files| - 1];
      MissingCompletes(init, tracker);
      assert files == init + [m];
      VersionsSnoc(init, m);
      VersionsSnoc(Missing(init, tracker), m);
    }
  }

  /** Nothing is missing exactly when the tracker knows every version: a second run of a
      completed one applies nothing. */
  lemma {:induction false} NothingMissing(files: seq<Migration>, tracker: set<string>)
    ensures Missing(files, tracker) == [] <==> Versions(files) <= tracker
  {
    MissingCompletes(files, tracker);
    if files != [] {
      var init, m := files[..|files| - 1], files[|files| - 1];
      NothingMissing(init, tracker);
      assert files == init + [m];
      VersionsSnoc(init, m);
    }
  }

  /** The transactions that have committed, and the tracker table. */
  datatype Db = Db(log: seq<Migration>, tracker: set<string>)

  /** Every version was committed once, and the tracker knows exactly those. */
  ghost predicate Consistent(db: Db) {
    && db.tracker == Versions(db.log)
    && forall i, j :: 0 <= i < j < |db.log| ==> db.log[i].version != db.log[j].version
  }

  function Commit(db: Db, m: Migration): Db {
    Db(db.log + [m], db.tracker + {m.version})
  }

  lemma CommitKeepsConsistent(db: Db, m: Migration)
    requires Consistent(db) && m.version !in db.tracker
    ensures Consistent(Commit(db, m))
  {
    VersionsSnoc(db.log, m);
    forall i | 0 <= i < |db.log|
      ensures db.log[i].version != m.version
    {
      assert db.log[i] in db.log;
    }
  }

  /** The state a lone runner is in after the first `k` files. */
  function UpTo(db: Db, files: seq<Migration>, k: nat): Db
    requires k <= |files|
  {
    var ms := Missing(files[..k], db.tracker);
    Db(db.log + ms, db.tracker + Versions(ms))
  }

  lemma UpToStep(db: Db, files: seq<Migration>, k: nat)
    requires k < |files|
    ensures var now := UpTo(db, files, k);
            UpTo(db, files, k + 1) == if files[k].version in now.tracker then now else Commit(now, files[k])
  {
    assert files[..k + 1][..k] == files[..k];
    VersionsSnoc(Missing(files[..k], db.tracker), files[k]);
  }

  lemma UpToNone(db: Db, files: seq<Migration>)
    ensures UpTo(db, files, 0) == db && Missing(files[..0], db.tracker) == []
  {
  }

  lemma {:induction false} UpToConsistent(db: Db, files: seq<Migration>, k: nat)
    requires Consistent(db) && k <= |files|
    ensures Consistent(UpTo(db, files, k))
    decreases k
  {
    if k == 0 {
      assert UpTo(db, files, 0) == db;
    } else {
      UpToConsistent(db, files, k - 1);
      UpToStep(db, files, k - 1);
      if files[k - 1].version !in UpTo(db, files, k - 1).tracker {
        CommitKeepsConsistent(UpTo(db, files, k - 1), files[k - 1]);
      }
    }
  }

  // ---------- One run of `migrate.sh up` ----------

  /** What can go wrong at each file: the check fails and reads as a no, or the transaction
      fails. */
  datatype Faults = Faults(misread: set<nat>, broken: set<nat>)

  class Database {
    var log: seq<Migration>
    var tracker: set<string>

    function State(): Db
      reads this
    {
      Db(log, tracker)
    }

    constructor ()
      ensures State() == Db([], {}) && Consistent(State())
    {
      log, tracker := [], {};
    }

    /** `is_applied`; a check that cannot be made counts as a no. */
    method IsApplied(version: string, fails: bool) returns (yes: bool)
      ensures yes <==> version in tracker && !fails
    {
      yes := version in tracker && !fails;
    }

    /** `psql -1`: the migration and its tracker row, or nothing. The tracker's primary key
        refuses a version that is there already. */
    method Transaction(m: Migration, fails: bool) returns (ok: bool)
      modifies this
      ensures ok <==> m.version !in old(tracker) && !fails
      ensures State() == if ok then Commit(old(State()), m) else old(State())
    {
      var before := State();
      log, tracker := log + [m], tracker + {m.version};
      ok := m.version !in before.tracker && !fails;
      if !ok {
        log, tracker := before.log, before.tracker;
      }
    }

    /** `cmd_up`, where `ready` says that psql is there and the tracker table too, or can be
        created. It succeeds exactly when no check of a recorded version fails and no
        transaction of a missing one does; a failed run leaves what a shorter one would. */
    method Up(files: seq<Migration>, ready: bool, f: Faults) returns (ok: bool, applied: nat)
      requires Consistent(State())
      modifies this
      ensures ok <==> ready && forall i :: 0 <= i < |files| ==> Passes(old(State()), files, i, f)
      ensures ok ==> State() == UpTo(old(State()), files, |files|)
      ensures ok ==> applied == |Missing(files, old(tracker))| && Versions(files) <= tracker
      ensures exists k :: 0 <= k <= |files| && State() == UpTo(old(State()), files, k)
      ensures Consistent(State())
    {
      hide Missing, Versions, Consistent;
      ok, applied := true, 0;
      ghost var before := State();
      UpToNone(before, files);
      if !ready {
        return false, 0;
      }
      for i := 0 to |files|
        invariant State() == UpTo(before, files, i)
        invariant applied == |Missing(files[..i], before.tracker)|
        invariant forall j :: 0 <= j < i ==> Passes(before, files, j, f)
      {
        UpToConsistent(before, files, i);
        UpToStep(before, files, i);
        assert files[..i + 1][..i] == files[..i];
        var yes := IsApplied(files[i].version, i in f.misread);
        if yes {
          continue;
        }
        var done := Transaction(files[i], i in f.broken);
        if !done {
          assert !Passes(before, files, i, f);
          return false, applied;
        }
        applied := applied + 1;
      }
      UpToConsistent(before, files, |files|);
      assert files[..|files|] == files;
      MissingCompletes(files, before.tracker);
    }
  }

  predicate Passes(db: Db, files: seq<Migration>, i: nat, f: Faults)
    requires i < |files|
  {
    if files[i].version in UpTo(db, files, i).tracker then i !in f.misread else i !in f.broken
  }
}
