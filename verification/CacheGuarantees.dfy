/** What requests may rely on in the cache-aside protocol. */
module CacheGuarantees {
  import opened CacheAside

  ghost predicate Shows(v: Value, r: Row) { v.Table? && r in v.snap.rows }

  // ---------- When a committed row is on every later list ----------

  /** Every list request that starts after `s` and completes has the row. */
  ghost predicate AlwaysListed(s: State, r: Row) {
    forall run, p | Legal(s, run) && p !in s.handlers && p in Play(s, run).handlers ::
      ListHas(Play(s, run).handlers[p], r)
  }

  ghost predicate ListHas(h: Handler, r: Row) {
    h.Served? && h.key == AllKey ==> Shows(h.value, r)
  }

  /** No fill that is still under way was read before the row was there. */
  ghost predicate FillsShow(s: State, r: Row) {
    && (forall p :: p in s.handlers ==> FillShows(s.handlers[p], r))
    && (forall c :: c in s.late ==> CommandShows(c, r))
  }

  ghost predicate FillShows(h: Handler, r: Row) {
    h.Filling? && h.key == AllKey ==> Shows(h.value, r)
  }

  ghost predicate CommandShows(c: Command, r: Row) {
    c.SetCommand? && c.key == AllKey ==> Shows(c.value, r)
  }

  ghost predicate EntryShows(s: State, r: Row) {
    AllKey in s.redis && Live(s.redis[AllKey], s.now) ==> Shows(s.redis[AllKey].value, r)
  }

  ghost predicate NothingStale(s: State, r: Row) {
    EntryShows(s, r) && FillsShow(s, r)
  }

  /** The same along a run: `early` are the requests that were there at its start. */
  ghost predicate StaysListed(s: State, r: Row, early: set<nat>) {
    && r in s.history && NothingStale(s, r)
    && forall p :: p in s.handlers && p !in early ==> ListHas(s.handlers[p], r)
  }

  lemma FullListing(rows: seq<Row>, h: seq<Row>, r: Row)
    requires IsListing(rows, h)
    ensures r in rows <==> r in h
  {
    assert r in multiset(rows) <==> r in multiset(h);
  }

  lemma StepKeepsEntry(s: State, a: Action, r: Row)
    requires Enabled(s, a) && NothingStale(s, r)
    ensures EntryShows(Apply(s, a), r)
  {
    hide IsListing, AfterSelect, AfterGet;
    assert a.Arrive? ==> s.late[a.i] in s.late;
  }

  lemma StepKeepsFills(s: State, a: Action, r: Row)
    requires Enabled(s, a) && r in s.history && FillsShow(s, r)
    ensures r in Apply(s, a).history && FillsShow(Apply(s, a), r)
  {
    hide IsListing, EntryShows;
    if a.SelectAll? {
      FullListing(a.rows, s.history, r);
    }
  }

  lemma StepKeepsLists(s: State, a: Action, r: Row, early: set<nat>)
    requires Enabled(s, a) && StaysListed(s, r, early)
    requires forall p :: p in early ==> p in s.handlers
    ensures forall p :: p in Apply(s, a).handlers && p !in early ==> ListHas(Apply(s, a).handlers[p], r)
  {
    hide IsListing;
  }

  lemma StepStaysListed(s: State, a: Action, r: Row, early: set<nat>)
    requires Enabled(s, a) && StaysListed(s, r, early)
    requires forall p :: p in early ==> p in s.handlers
    ensures StaysListed(Apply(s, a), r, early)
  {
    StepKeepsEntry(s, a, r);
    StepKeepsFills(s, a, r);
    StepKeepsLists(s, a, r, early);
    hide Enabled, Apply, EntryShows, FillsShow, ListHas;
  }

  lemma {:induction false} RunStaysListed(s: State, run: seq<Action>, r: Row, early: set<nat>)
    requires Inv(s) && Legal(s, run) && StaysListed(s, r, early)
    requires forall p :: p in early ==> p in s.handlers
    ensures StaysListed(Play(s, run), r, early)
    decreases |run|
  {
    hide Inv, StaysListed;
    if run != [] {
      StepKeepsInv(s, run[0]);
      StepStaysListed(s, run[0], r, early);
      RunStaysListed(Apply(s, run[0]), run[1..], r, early);
    }
  }

  lemma {:induction false} FreshPid(taken: set<nat>) returns (p: nat)
    ensures p !in taken
  {
    var bound := Bound(taken);
    p := bound;
  }

  lemma {:induction false} Bound(taken: set<nat>) returns (b: nat)
    ensures forall p :: p in taken ==> p < b
  {
    if taken == {} {
      b := 0;
    } else {
      var x :| x in taken;
      var rest := Bound(taken - {x});
      b := if rest > x then rest else x + 1;
      assert forall p :: p in taken ==> p == x || p in taken - {x};
    }
  }

  /** A live list entry is what the next list request gets. */
  lemma NextListRequest(s: State) returns (p: nat, run: seq<Action>)
    requires AllKey in s.redis && Live(s.redis[AllKey], s.now)
    ensures p !in s.handlers && Legal(s, run) && p in Play(s, run).handlers
    ensures Play(s, run).handlers[p] == Served(AllKey, s.redis[AllKey].value, FromCache(s.now, s.redis[AllKey]))
  {
    p := FreshPid(s.handlers.Keys);
    run := [Start(p, Looking(AllKey)), Get(p)];
    var s1 := Apply(s, run[0]);
    assert run[1..] == [Get(p)];
    PlayOne(s1, Get(p));
  }

  /** A stale fill that arrives now is what the next list request gets. */
  lemma StaleFillIsServed(s: State, r: Row, a: Action)
    requires Enabled(s, a) && Inv(s)
    requires forall p :: p in Apply(s, a).handlers ==> p in s.handlers
    requires forall p :: p in s.handlers ==> p in Apply(s, a).handlers
    requires !EntryShows(Apply(s, a), r)
    ensures !AlwaysListed(s, r)
  {
    hide Enabled, Apply, Inv;
    var p, tail := NextListRequest(Apply(s, a));
    var run := [a] + tail;
    assert run[1..] == tail;
    assert Play(s, run) == Play(Apply(s, a), tail);
    assert !ListHas(Play(s, run).handlers[p], r);
  }

  /** A committed row is on every list requested from now on, if and only if the cached list
      is gone, expired or has it, and every fill under way has it. */
  lemma AlwaysListedIff(s: State, r: Row)
    requires Inv(s) && r in s.history
    ensures AlwaysListed(s, r) <==> NothingStale(s, r)
  {
    if NothingStale(s, r) {
      forall run, p | Legal(s, run) && p !in s.handlers && p in Play(s, run).handlers
        ensures ListHas(Play(s, run).handlers[p], r)
      {
        RunStaysListed(s, run, r, s.handlers.Keys);
      }
    } else if !EntryShows(s, r) {
      StaleFillIsServed(s, r, Tick(0));
    } else if p :| p in s.handlers && !FillShows(s.handlers[p], r) {
      StaleFillIsServed(s, r, Set(p, 1));
    } else {
      var c :| c in s.late && !CommandShows(c, r);
      var i :| 0 <= i < |s.late| && s.late[i] == c;
      StaleFillIsServed(s, r, Arrive(i));
    }
  }

  /** After a create's DEL went through, only fills that were read before its row can hide
      it: the row is on every later list, of every service, if and only if there are none. */
  lemma FreshAfterDel(s: State, p: nat)
    requires Inv(s) && Enabled(s, Del(p))
    ensures var t, r := Apply(s, Del(p)), s.handlers[p].row;
            r in t.history && (AlwaysListed(t, r) <==> FillsShow(s, r))
  {
    var t, r := Apply(s, Del(p)), s.handlers[p].row;
    StepKeepsInv(s, Del(p));
    assert HandlerOk(s, s.handlers[p]);
    AlwaysListedIff(t, r);
    hide Inv, AlwaysListed;
    assert FillsShow(t, r) <==> FillsShow(s, r) by {
      assert forall q :: q in s.handlers ==> (FillShows(t.handlers[q], r) <==> FillShows(s.handlers[q], r));
    }
  }

  /** Whatever is stale in the cache, a list that comes from the database is not. */
  ghost predicate ReadsShow(s: State, r: Row, early: set<nat>) {
    && r in s.history
    && forall p :: p in s.handlers && p !in early ==> ReadShows(s.handlers[p], r)
  }

  ghost predicate ReadShows(h: Handler, r: Row) {
    && FillShows(h, r)
    && (h.Served? && h.key == AllKey && h.source.FromDb? ==> Shows(h.value, r))
  }

  lemma StepKeepsReadsShowing(s: State, a: Action, r: Row, early: set<nat>)
    requires Enabled(s, a) && ReadsShow(s, r, early)
    requires forall p :: p in early ==> p in s.handlers
    ensures ReadsShow(Apply(s, a), r, early)
  {
    hide IsListing;
    if a.SelectAll? {
      FullListing(a.rows, s.history, r);
    }
  }

  lemma {:induction false} DatabaseRepliesAreFresh(s: State, run: seq<Action>, r: Row, early: set<nat>)
    requires Legal(s, run) && ReadsShow(s, r, early)
    requires forall p :: p in early ==> p in s.handlers
    ensures ReadsShow(Play(s, run), r, early)
    decreases |run|
  {
    hide ReadsShow;
    if run != [] {
      StepKeepsReadsShowing(s, run[0], r, early);
      StepKeepsRequests(s, run[0]);
      DatabaseRepliesAreFresh(Apply(s, run[0]), run[1..], r, early);
    }
  }

  lemma StepKeepsRequests(s: State, a: Action)
    requires Enabled(s, a)
    ensures forall p :: p in s.handlers ==> p in Apply(s, a).handlers
  {
  }

  /** Every reply is right: a list is the exact table of some past instant, newest first, an
      item the row of its id; and what comes from the cache was stored, as it is, less than
      its lifetime before. */
  lemma RepliesAreRight(s: State, run: seq<Action>, p: nat)
    requires Init(s) && Legal(s, run)
    requires p in Play(s, run).handlers && Play(s, run).handlers[p].Served?
    ensures var t, h := Play(s, run), Play(s, run).handlers[p];
            match h.key
            case AllKey =>
              && h.value.Table?
              && (exists n :: 0 <= n <= |t.history| && multiset(h.value.snap.rows) == multiset(t.history[..n]))
              && forall i, j :: 0 <= i < j < |h.value.snap.rows| ==>
                   h.value.snap.rows[i].createdAt >= h.value.snap.rows[j].createdAt
            case ItemKey(id) => h.value.One? && h.value.row in t.history && h.value.row.id == id
    ensures var source, value := Play(s, run).handlers[p].source, Play(s, run).handlers[p].value;
            source.FromCache? ==>
              source.entry.value == value && source.entry.setAt <= source.at < source.entry.setAt + source.entry.ttl
  {
    RunKeepsInv(s, run);
    assert HandlerOk(Play(s, run), Play(s, run).handlers[p]);
  }

  // ---------- How long a fill is served ----------

  /** A step that stores, deletes or evicts the entry of a key. */
  predicate Touches(s: State, a: Action, key: Key) {
    match a
    case Set(p, _) => At(s, p) && s.handlers[p].Filling? && s.handlers[p].key == key
    case Del(_) => key == AllKey
    case Arrive(i) => i < |s.late| && s.late[i].key == key
    case Evict(k) => k == key
    case _ => false
  }

  ghost predicate Untouched(s: State, run: seq<Action>, key: Key)
    requires Legal(s, run)
    decreases |run|
  {
    run == [] || (!Touches(s, run[0], key) && Untouched(Apply(s, run[0]), run[1..], key))
  }

  lemma UntouchedStep(s: State, a: Action, key: Key)
    requires Enabled(s, a) && !Touches(s, a, key)
    ensures key in s.redis <==> key in Apply(s, a).redis
    ensures key in s.redis ==> Apply(s, a).redis[key] == s.redis[key]
  {
    hide IsListing, AfterGet, AfterSelect;
  }

  lemma {:induction false} UntouchedStays(s: State, run: seq<Action>, key: Key)
    requires Legal(s, run) && Untouched(s, run, key) && key in s.redis
    ensures key in Play(s, run).redis && Play(s, run).redis[key] == s.redis[key]
    decreases |run|
  {
    hide Enabled, Apply, Touches;
    if run != [] {
      UntouchedStep(s, run[0], key);
      UntouchedStays(Apply(s, run[0]), run[1..], key);
    }
  }

  /** A SET that went through is what requests for its key are served until the last instant
      of its lifetime, and not a moment longer, however many there are, unless the entry is
      replaced, deleted or evicted. */
  lemma FillIsServedForItsTtl(s: State, p: nat, ttl: int, run: seq<Action>, q: nat)
    requires Enabled(s, Set(p, ttl)) && Legal(Apply(s, Set(p, ttl)), run)
    requires Untouched(Apply(s, Set(p, ttl)), run, s.handlers[p].key)
    ensures var h, t := s.handlers[p], Play(Apply(s, Set(p, ttl)), run);
            q in t.handlers && t.handlers[q] == Looking(h.key) ==>
              && Enabled(t, Get(q))
              && Apply(t, Get(q)).handlers[q]
                 == if t.now < s.now + ttl then Served(h.key, h.value, FromCache(t.now, Entry(h.value, s.now, ttl)))
                    else Querying(h.key)
  {
    hide IsListing, Legal, Play, Untouched;
    UntouchedStays(Apply(s, Set(p, ttl)), run, s.handlers[p].key);
  }

  // ---------- Items ----------

  /** A committed row is readable by id at once: a later request for it is never told that
      it is missing, and gets nothing but this row. */
  ghost predicate Readable(s: State, r: Row, early: set<nat>) {
    && r in s.history
    && forall p :: p in s.handlers && p !in early ==> s.handlers[p] != NotFound(r.id)
  }

  lemma StepKeepsReadable(s: State, a: Action, r: Row, early: set<nat>)
    requires Inv(s) && Enabled(s, a) && Readable(s, r, early)
    requires forall p :: p in early ==> p in s.handlers
    ensures Readable(Apply(s, a), r, early)
  {
    hide Inv, IsListing;
    if a.SelectOne? {
      LookupFinds(s.history, s.handlers[a.p].key.id);
    }
  }

  lemma {:induction false} RunKeepsReadable(s: State, run: seq<Action>, r: Row, early: set<nat>)
    requires Inv(s) && Legal(s, run) && Readable(s, r, early)
    requires forall p :: p in early ==> p in s.handlers
    ensures Readable(Play(s, run), r, early)
    decreases |run|
  {
    hide Inv, Readable;
    if run != [] {
      StepKeepsInv(s, run[0]);
      StepKeepsReadable(s, run[0], r, early);
      RunKeepsReadable(Apply(s, run[0]), run[1..], r, early);
    }
  }

  lemma CommittedRowIsReadable(s: State, r: Row, run: seq<Action>, p: nat)
    requires Inv(s) && r in s.history && Legal(s, run)
    requires p !in s.handlers && p in Play(s, run).handlers
    ensures var h := Play(s, run).handlers[p];
            && h != NotFound(r.id)
            && (h.Served? && h.key == ItemKey(r.id) ==> h.value == One(r))
  {
    var t := Play(s, run);
    RunKeepsInv(s, run);
    RunKeepsReadable(s, run, r, s.handlers.Keys);
    assert HandlerOk(t, t.handlers[p]);
    assert r in t.history;
  }

  // ---------- How old a list can be ----------

  /** List fills reach Redis within `delay` of their SELECT, and live at most `ttl`. */
  ghost predicate Prompt(s: State, a: Action, delay: int, ttl: int) {
    match a
    case Set(p, ttl') =>
      At(s, p) && s.handlers[p].Filling? && s.handlers[p].key == AllKey && s.handlers[p].value.Table? ==>
        s.now - s.handlers[p].value.snap.takenAt <= delay && ttl' <= ttl
    case Arrive(i) =>
      i < |s.late| && s.late[i].SetCommand? && s.late[i].key == AllKey && s.late[i].value.Table? ==>
        s.now - s.late[i].value.snap.takenAt <= delay && s.late[i].ttl <= ttl
    case _ => true
  }

  ghost predicate LegalPrompt(s: State, run: seq<Action>, delay: int, ttl: int)
    decreases |run|
  {
    run == [] ||
    (Enabled(s, run[0]) && Prompt(s, run[0], delay, ttl) && LegalPrompt(Apply(s, run[0]), run[1..], delay, ttl))
  }

  ghost predicate EntryIsYoung(e: Entry, delay: int, ttl: int) {
    e.value.Table? ==> e.setAt - e.value.snap.takenAt <= delay && e.ttl <= ttl
  }

  ghost predicate HitIsYoung(h: Handler, delay: int, ttl: int) {
    h.Served? && h.key == AllKey && h.source.FromCache? ==> EntryIsYoung(h.source.entry, delay, ttl)
  }

  ghost predicate Young(s: State, delay: int, ttl: int) {
    && (AllKey in s.redis ==> EntryIsYoung(s.redis[AllKey], delay, ttl))
    && forall p :: p in s.handlers ==> HitIsYoung(s.handlers[p], delay, ttl)
  }

  lemma StepKeepsYoung(s: State, a: Action, delay: int, ttl: int)
    requires Enabled(s, a) && Prompt(s, a, delay, ttl) && Young(s, delay, ttl)
    ensures Young(Apply(s, a), delay, ttl)
  {
    hide IsListing;
  }

  lemma {:induction false} RunKeepsYoung(s: State, run: seq<Action>, delay: int, ttl: int)
    requires LegalPrompt(s, run, delay, ttl) && Young(s, delay, ttl)
    ensures Legal(s, run) && Young(Play(s, run), delay, ttl)
    decreases |run|
  {
    hide Young;
    if run != [] {
      StepKeepsYoung(s, run[0], delay, ttl);
      RunKeepsYoung(Apply(s, run[0]), run[1..], delay, ttl);
    }
  }

  /** The reply is a cached list, and the row was committed at least `age` before it. */
  predicate CommittedBefore(s: State, k: nat, h: Handler, age: int)
    requires k < |s.committedAt|
  {
    h.Served? && h.key == AllKey && h.source.FromCache? && s.committedAt[k] <= h.source.at - age
  }

  /** Bounded staleness: a list served from the cache at some time holds every row that was
      committed at least `delay + ttl` before that, whatever failed on the way. */
  lemma StalenessIsBounded(s: State, run: seq<Action>, delay: int, ttl: int, p: nat, k: nat)
    requires Init(s) && LegalPrompt(s, run, delay, ttl) && Legal(s, run)
    requires p in Play(s, run).handlers && k < |Play(s, run).history|
    ensures var t, h := Play(s, run), Play(s, run).handlers[p];
            && |t.committedAt| == |t.history|
            && (CommittedBefore(t, k, h, delay + ttl) ==> Shows(h.value, t.history[k]))
  {
    var t := Play(s, run);
    RunKeepsInv(s, run);
    RunKeepsYoung(s, run, delay, ttl);
    var h := t.handlers[p];
    assert HandlerOk(t, h) && HitIsYoung(h, delay, ttl);
    if CommittedBefore(t, k, h, delay + ttl) {
      var snap := h.value.snap;
      assert k < snap.asOf;
      assert t.history[..snap.asOf][k] == t.history[k];
      FullListing(snap.rows, t.history[..snap.asOf], t.history[k]);
    }
  }

  // ---------- The list does lag behind a create ----------

  const EMPTY: State := State([], [], map[], [], map[], 0)

  /** A service has read the table while it was empty. */
  lemma ReadWhileEmpty() returns (run: seq<Action>)
    ensures Legal(EMPTY, run)
    ensures Play(EMPTY, run) == Goto(EMPTY, 0, Filling(AllKey, Table(Snapshot([], 0, 0))))
  {
    PlayLast(EMPTY, [], Start(0, Looking(AllKey)));
    run := [] + [Start(0, Looking(AllKey))];
    PlayLast(EMPTY, run, Get(0));
    run := run + [Get(0)];
    assert Play(EMPTY, run) == Goto(EMPTY, 0, Querying(AllKey));
    PlayLast(EMPTY, run, SelectAll(0, []));
    run := run + [SelectAll(0, [])];
    assert Play(EMPTY, run) == Goto(EMPTY, 0, Filling(AllKey, Table(Snapshot([], 0, 0))));
  }

  /** Meanwhile another one has inserted a row. */
  lemma InsertMeanwhile() returns (run: seq<Action>)
    ensures Legal(EMPTY, run)
    ensures var s := Play(EMPTY, run);
            && s.handlers == map[0 := Filling(AllKey, Table(Snapshot([], 0, 0))), 1 := Invalidating(Row(1, "x", 0))]
            && s.late == [] && s.history == [Row(1, "x", 0)] && s.committedAt == [0] && s.now == 0
  {
    hide IsListing;
    run := ReadWhileEmpty();
    PlayLast(EMPTY, run, Start(1, Inserting("x")));
    run := run + [Start(1, Inserting("x"))];
    PlayLast(EMPTY, run, Insert(1, 1, 0));
    run := run + [Insert(1, 1, 0)];
  }

  /** When it then deletes the cached list, the first one's SET may still arrive: rows are
      not at once visible to every service. */
  lemma CreateCanStayHidden() returns (run: seq<Action>, r: Row)
    ensures Init(EMPTY) && Legal(EMPTY, run)
    ensures var t := Play(EMPTY, run);
            1 in t.handlers && t.handlers[1] == Created(r) && r in t.history && !AlwaysListed(t, r)
  {
    hide Inv, AlwaysListed, Legal, Play;
    run := InsertMeanwhile();
    var s := Play(EMPTY, run);
    assert Inv(EMPTY) by {
      InitIsInv(EMPTY);
    }
    RunKeepsInv(EMPTY, run);
    r := Row(1, "x", 0);
    assert !FillShows(s.handlers[0], r);
    FreshAfterDel(s, 1);
    PlayLast(EMPTY, run, Del(1));
    run := run + [Del(1)];
  }

  lemma InitIsInv(s: State)
    requires Init(s)
    ensures Inv(s)
  {
  }

  /** Without a bound on the delay of fills there is none on staleness: a list served from
      the cache can lack a row that was committed any time ago. */
  lemma StalenessIsUnbounded(age: nat) returns (run: seq<Action>)
    ensures Legal(EMPTY, run)
    ensures var t := Play(EMPTY, run);
            && |t.history| == |t.committedAt| == 1 && 2 in t.handlers
            && CommittedBefore(t, 0, t.handlers[2], age) && !Shows(t.handlers[2].value, t.history[0])
  {
    hide Legal, Play;
    run := InsertMeanwhile();
    PlayLast(EMPTY, run, Tick(age));
    run := run + [Tick(age)];
    PlayLast(EMPTY, run, Set(0, 1));
    run := run + [Set(0, 1)];
    PlayLast(EMPTY, run, Start(2, Looking(AllKey)));
    run := run + [Start(2, Looking(AllKey))];
    PlayLast(EMPTY, run, Get(2));
    run := run + [Get(2)];
  }
}
