/** Any number of migration runners at once, with crashes and checks that answer no when
    they should not. */
module MigrationRaces {
  import opened Migrations

  /** Where a runner stands in the list of files. */
  datatype Runner = Checking(i: nat) | Applying(i: nat) | Done | Stopped

  datatype State = State(db: Db, runners: map<nat, Runner>)

  datatype Action =
    | Start(p: nat)
    | Yes(p: nat)          // the check finds the version
    | No(p: nat)           // it does not, or it fails
    | Finish(p: nat)       // no file is left
    | Commits(p: nat)      // the transaction goes through
    | LosesReply(p: nat)   // it goes through, and the runner dies
    | Fails(p: nat)        // it does not, and the runner exits
    | Crash(p: nat)

  predicate Enabled(s: State, files: seq<Migration>, a: Action) {
    match a
    case Start(p) => p !in s.runners
    case Yes(p) =>
      && p in s.runners && s.runners[p].Checking? && s.runners[p].i < |files|
      && files[s.runners[p].i].version in s.db.tracker
    case No(p) => p in s.runners && s.runners[p].Checking? && s.runners[p].i < |files|
    case Finish(p) => p in s.runners && s.runners[p].Checking? && s.runners[p].i >= |files|
    case Commits(p) => CanCommit(s, files, p)
    case LosesReply(p) => CanCommit(s, files, p)
    case Fails(p) => p in s.runners && s.runners[p].Applying?
    case Crash(p) => p in s.runners
  }

  /** The tracker's primary key lets a version through once. */
  predicate CanCommit(s: State, files: seq<Migration>, p: nat) {
    && p in s.runners && s.runners[p].Applying? && s.runners[p].i < |files|
    && files[s.runners[p].i].version !in s.db.tracker
  }

  function Apply(s: State, files: seq<Migration>, a: Action): State
    requires Enabled(s, files, a)
  {
    match a
    case Start(p) => s.(runners := s.runners[p := Checking(0)])
    case Yes(p) => s.(runners := s.runners[p := Checking(s.runners[p].i + 1)])
    case No(p) => s.(runners := s.runners[p := Applying(s.runners[p].i)])
    case Finish(p) => s.(runners := s.runners[p := Done])
    case Commits(p) =>
      State(Commit(s.db, files[s.runners[p].i]), s.runners[p := Checking(s.runners[p].i + 1)])
    case LosesReply(p) => State(Commit(s.db, files[s.runners[p].i]), s.runners[p := Stopped])
    case Fails(p) => s.(runners := s.runners[p := Stopped])
    case Crash(p) => s.(runners := s.runners[p := Stopped])
  }

  predicate Legal(s: State, files: seq<Migration>, run: seq<Action>)
    decreases |run|
  {
    run == [] || (Enabled(s, files, run[0]) && Legal(Apply(s, files, run[0]), files, run[1..]))
  }

  function Play(s: State, files: seq<Migration>, run: seq<Action>): State
    requires Legal(s, files, run)
    decreases |run|
  {
    if run == [] then s else Play(Apply(s, files, run[0]), files, run[1..])
  }

  /** How many files a runner has behind it. */
  function Behind(r: Runner, n: nat): nat {
    match r
    case Checking(i) => i
    case Applying(i) => i
    case Done => n
    case Stopped => 0
  }

  /** A runner leaves behind only versions that the tracker holds. */
  ghost predicate RunnerOk(s: State, files: seq<Migration>, r: Runner) {
    Behind(r, |files|) <= |files| &&
    forall j :: 0 <= j < Behind(r, |files|) ==> files[j].version in s.db.tracker
  }

  /** The database is in the state of a lone runner somewhere in the list. */
  ghost predicate LikeOneRunner(s: State, start: Db, files: seq<Migration>) {
    exists k :: 0 <= k <= |files| && s.db == UpTo(start, files, k)
  }

  ghost predicate Inv(s: State, start: Db, files: seq<Migration>) {
    && LikeOneRunner(s, start, files)
    && forall p :: p in s.runners ==> RunnerOk(s, files, s.runners[p])
  }

  /** Files whose versions are all recorded change nothing. */
  lemma {:induction false} SkipRecorded(db: Db, files: seq<Migration>, k: nat, i: nat)
    requires k <= i <= |files|
    requires forall j :: k <= j < i ==> files[j].version in UpTo(db, files, k).tracker
    ensures UpTo(db, files, i) == UpTo(db, files, k)
    decreases i
  {
    if k < i {
      SkipRecorded(db, files, k, i - 1);
      UpToStep(db, files, i - 1);
    }
  }

  lemma {:induction false} TrackerGrows(db: Db, files: seq<Migration>, k: nat, i: nat)
    requires k <= i <= |files|
    ensures UpTo(db, files, k).tracker <= UpTo(db, files, i).tracker
    decreases i
  {
    if k < i {
      TrackerGrows(db, files, k, i - 1);
      UpToStep(db, files, i - 1);
    }
  }

  /** The file that a runner commits is the next one for a lone runner, too. */
  lemma CommitIsNext(s: State, start: Db, files: seq<Migration>, i: nat)
    requires LikeOneRunner(s, start, files) && i < |files| && files[i].version !in s.db.tracker
    requires forall j :: 0 <= j < i ==> files[j].version in s.db.tracker
    ensures Commit(s.db, files[i]) == UpTo(start, files, i + 1)
  {
    hide UpTo;
    var k :| 0 <= k <= |files| && s.db == UpTo(start, files, k);
    if i < k {
      UpToStep(start, files, i);
      TrackerGrows(start, files, i + 1, k);
    } else {
      SkipRecorded(start, files, k, i);
      UpToStep(start, files, i);
    }
  }

  lemma StepKeepsInv(s: State, start: Db, files: seq<Migration>, a: Action)
    requires Inv(s, start, files) && Enabled(s, files, a)
    ensures Inv(Apply(s, files, a), start, files)
  {
    hide UpTo;
    if a.Commits? || a.LosesReply? {
      var i := s.runners[a.p].i;
      assert RunnerOk(s, files, s.runners[a.p]);
      CommitIsNext(s, start, files, i);
    } else {
      assert a.p in s.runners ==> RunnerOk(s, files, s.runners[a.p]);
    }
  }

  lemma {:induction false} RunKeepsInv(s: State, start: Db, files: seq<Migration>, run: seq<Action>)
    requires Inv(s, start, files) && Legal(s, files, run)
    ensures Inv(Play(s, files, run), start, files)
    decreases |run|
  {
    hide Inv, Enabled, Apply;
    if run != [] {
      StepKeepsInv(s, start, files, run[0]);
      RunKeepsInv(Apply(s, files, run[0]), start, files, run[1..]);
    }
  }

  /** Whatever the runners do to each other, the database goes through the states of one
      undisturbed runner: each version commits at most once, in listed order, with its
      tracker row; and a runner that reports success leaves nothing to apply. */
  lemma RunnersActAsOne(start: Db, files: seq<Migration>, run: seq<Action>)
    requires Consistent(start) && Legal(State(start, map[]), files, run)
    ensures var t := Play(State(start, map[]), files, run);
            && Consistent(t.db)
            && (exists k :: 0 <= k <= |files| && t.db == UpTo(start, files, k))
            && (forall p :: p in t.runners && t.runners[p].Done? ==>
                  Missing(files, t.db.tracker) == [] && t.db == UpTo(start, files, |files|))
  {
    var s := State(start, map[]);
    assert UpTo(start, files, 0) == start;
    RunKeepsInv(s, start, files, run);
    var t := Play(s, files, run);
    var k :| 0 <= k <= |files| && t.db == UpTo(start, files, k);
    UpToConsistent(start, files, k);
    forall p | p in t.runners && t.runners[p].Done?
      ensures Missing(files, t.db.tracker) == [] && t.db == UpTo(start, files, |files|)
    {
      assert RunnerOk(t, files, t.runners[p]);
      NothingMissing(files, t.db.tracker);
      SkipRecorded(start, files, k, |files|);
    }
  }

  // ---------- A runner that nothing disturbs ----------

  lemma FirstStep(s: State, files: seq<Migration>, a: Action, rest: seq<Action>)
    requires Enabled(s, files, a) && Legal(Apply(s, files, a), files, rest)
    ensures Legal(s, files, [a] + rest) && Play(s, files, [a] + rest) == Play(Apply(s, files, a), files, rest)
  {
    hide Enabled, Apply;
    assert ([a] + rest)[1..] == rest;
  }

  lemma {:induction false} FinishesFrom(s: State, start: Db, files: seq<Migration>, p: nat, i: nat)
    returns (run: seq<Action>)
    requires i <= |files| && s.db == UpTo(start, files, i) && p in s.runners && s.runners[p] == Checking(i)
    ensures Legal(s, files, run)
    ensures var t := Play(s, files, run);
            t.db == UpTo(start, files, |files|) && p in t.runners && t.runners[p] == Done
    decreases |files| - i
  {
    hide UpTo, Legal, Play;
    if i == |files| {
      run := [Finish(p)];
      NoStep(Apply(s, files, Finish(p)), files);
      FirstStep(s, files, Finish(p), []);
      assert [Finish(p)] + [] == run;
    } else {
      UpToStep(start, files, i);
      if files[i].version in s.db.tracker {
        var rest := FinishesFrom(Apply(s, files, Yes(p)), start, files, p, i + 1);
        FirstStep(s, files, Yes(p), rest);
        run := [Yes(p)] + rest;
      } else {
        var s1 := Apply(s, files, No(p));
        var rest := FinishesFrom(Apply(s1, files, Commits(p)), start, files, p, i + 1);
        FirstStep(s1, files, Commits(p), rest);
        FirstStep(s, files, No(p), [Commits(p)] + rest);
        run := [No(p)] + ([Commits(p)] + rest);
      }
    }
  }

  lemma NoStep(s: State, files: seq<Migration>)
    ensures Legal(s, files, []) && Play(s, files, []) == s
  {
  }

  /** From any state, with any others crashed or waiting, a new runner can finish by its own
      steps alone, and then everything that was missing has been applied, in listed order. */
  lemma NewRunnerFinishes(s: State, files: seq<Migration>, p: nat) returns (run: seq<Action>)
    requires p !in s.runners
    ensures Legal(s, files, run)
    ensures var t := Play(s, files, run);
            && p in t.runners && t.runners[p] == Done
            && t.db.log == s.db.log + Missing(files, s.db.tracker)
            && Missing(files, t.db.tracker) == []
  {
    var s1 := Apply(s, files, Start(p));
    UpToNone(s.db, files);
    hide Legal, Play;
    var rest := FinishesFrom(s1, s.db, files, p, 0);
    FirstStep(s, files, Start(p), rest);
    run := [Start(p)] + rest;
    assert files[..|files|] == files;
    MissingCompletes(files, s.db.tracker);
    NothingMissing(files, Play(s, files, run).db.tracker);
  }
}
