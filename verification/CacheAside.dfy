/** The cache-aside protocol of all services over one database and one Redis: a step system
    with any number of requests in flight, where every cache or database step may fail, a
    cache command may be abandoned and still arrive later, and entries expire or vanish.
    Rows are only ever inserted. */
module CacheAside {

  datatype Row = Row(id: int, content: string, createdAt: int)

  /** What a SELECT of the whole table returned: when, and after how many commits. */
  datatype Snapshot = Snapshot(rows: seq<Row>, asOf: nat, takenAt: int)

  datatype Key = AllKey | ItemKey(id: int)

  datatype Value = Table(snap: Snapshot) | One(row: Row)

  datatype Entry = Entry(value: Value, setAt: int, ttl: int)

  datatype Command = SetCommand(key: Key, value: Value, ttl: int) | DelCommand(key: Key)

  datatype Source = FromDb | FromCache(at: int, entry: Entry)

  /** Where a request stands: the call it makes next, or its reply. */
  datatype Handler =
    | Looking(key: Key)
    | Querying(key: Key)
    | Filling(key: Key, value: Value)
    | Served(key: Key, value: Value, source: Source)
    | NotFound(id: int)
    | Inserting(content: string)
    | Invalidating(row: Row)
    | Created(row: Row)
    | Unavailable                 // an error reply, 500 or 503
    | Crashed

  datatype State = State(
    history: seq<Row>,        // in commit order
    committedAt: seq<int>,
    redis: map<Key, Entry>,
    late: seq<Command>,       // abandoned by their requests, still on their way
    handlers: map<nat, Handler>,
    now: int
  )

  datatype Action =
    | Start(p: nat, request: Handler)
    | Get(p: nat)
    | GetFails(p: nat)
    | SelectAll(p: nat, rows: seq<Row>)
    | SelectOne(p: nat)
    | Insert(p: nat, id: int, createdAt: int)
    | DbFails(p: nat)
    | Set(p: nat, ttl: int)
    | SetAbandoned(p: nat, ttl: int)
    | SetFails(p: nat)
    | Del(p: nat)
    | DelAbandoned(p: nat)
    | DelFails(p: nat)
    | OutOfMemory(p: nat)     // while the reply, or the text to cache, is being built
    | Arrive(i: nat)
    | Lose(i: nat)
    | Evict(key: Key)
    | Tick(delta: nat)
    | Crash(p: nat)

  // ---------- The table ----------

  ghost predicate UniqueIds(h: seq<Row>) {
    forall i, j :: 0 <= i < j < |h| ==> h[i].id != h[j].id
  }

  /** A listing of the table, newest first; rows of the same time come in any order. */
  ghost predicate IsListing(rows: seq<Row>, h: seq<Row>) {
    && multiset(rows) == multiset(h)
    && forall i, j :: 0 <= i < j < |rows| ==> rows[i].createdAt >= rows[j].createdAt
  }

  function Lookup(h: seq<Row>, id: int): seq<Row> {
    if h == [] then [] else if h[0].id == id then [h[0]] else Lookup(h[1..], id)
  }

  lemma {:induction false} LookupFinds(h: seq<Row>, id: int)
    ensures Lookup(h, id) == [] <==> forall r :: r in h ==> r.id != id
    ensures Lookup(h, id) != [] ==> Lookup(h, id)[0] in h && Lookup(h, id)[0].id == id
  {
    if h != [] && h[0].id != id {
      LookupFinds(h[1..], id);
      assert h == [h[0]] + h[1..];
    }
  }

  // ---------- Steps ----------

  predicate At(s: State, p: nat) { p in s.handlers }

  predicate Live(e: Entry, now: int) { now < e.setAt + e.ttl }

  predicate IsRequest(h: Handler) { h.Looking? || h.Inserting? }

  ghost predicate Enabled(s: State, a: Action) {
    match a
    case Start(p, request) => p !in s.handlers && IsRequest(request)
    case Get(p) => At(s, p) && s.handlers[p].Looking?
    case GetFails(p) => At(s, p) && s.handlers[p].Looking?
    case SelectAll(p, rows) => At(s, p) && s.handlers[p] == Querying(AllKey) && IsListing(rows, s.history)
    case SelectOne(p) => At(s, p) && s.handlers[p].Querying? && s.handlers[p].key.ItemKey?
    case Insert(p, id, createdAt) =>
      At(s, p) && s.handlers[p].Inserting? && forall r :: r in s.history ==> r.id != id
    case DbFails(p) => At(s, p) && (s.handlers[p].Querying? || s.handlers[p].Inserting?)
    case Set(p, ttl) => At(s, p) && s.handlers[p].Filling? && ttl > 0
    case SetAbandoned(p, ttl) => At(s, p) && s.handlers[p].Filling? && ttl > 0
    case SetFails(p) => At(s, p) && s.handlers[p].Filling?
    case Del(p) => At(s, p) && s.handlers[p].Invalidating?
    case DelAbandoned(p) => At(s, p) && s.handlers[p].Invalidating?
    case DelFails(p) => At(s, p) && s.handlers[p].Invalidating?
    case OutOfMemory(p) => At(s, p) && (s.handlers[p].Filling? || s.handlers[p].Served? || s.handlers[p].Created?)
    case Arrive(i) => i < |s.late|
    case Lose(i) => i < |s.late|
    case Evict(key) => true
    case Tick(delta) => true
    case Crash(p) => At(s, p)
  }

  function Goto(s: State, p: nat, h: Handler): State {
    s.(handlers := s.handlers[p := h])
  }

  function Execute(s: State, c: Command): State {
    match c
    case SetCommand(key, value, ttl) => s.(redis := s.redis[key := Entry(value, s.now, ttl)])
    case DelCommand(key) => s.(redis := s.redis - {key})
  }

  function Without(late: seq<Command>, i: nat): seq<Command>
    requires i < |late|
  {
    late[..i] + late[i + 1..]
  }

  function AfterGet(s: State, key: Key): Handler {
    if key in s.redis && Live(s.redis[key], s.now)
    then Served(key, s.redis[key].value, FromCache(s.now, s.redis[key]))
    else Querying(key)
  }

  function AfterSelect(h: seq<Row>, id: int): Handler {
    var found := Lookup(h, id);
    if found == [] then NotFound(id) else Filling(ItemKey(id), One(found[0]))
  }

  function Apply(s: State, a: Action): State
    requires Enabled(s, a)
  {
    match a
    case Start(p, request) => Goto(s, p, request)
    case Get(p) => Goto(s, p, AfterGet(s, s.handlers[p].key))
    case GetFails(p) => Goto(s, p, Querying(s.handlers[p].key))
    case SelectAll(p, rows) => Goto(s, p, Filling(AllKey, Table(Snapshot(rows, |s.history|, s.now))))
    case SelectOne(p) => Goto(s, p, AfterSelect(s.history, s.handlers[p].key.id))
    case Insert(p, id, createdAt) =>
      var row := Row(id, s.handlers[p].content, createdAt);
      Goto(s, p, Invalidating(row)).(history := s.history + [row], committedAt := s.committedAt + [s.now])
    case DbFails(p) => Goto(s, p, Unavailable)
    case Set(p, ttl) =>
      var h := s.handlers[p];
      Goto(Execute(s, SetCommand(h.key, h.value, ttl)), p, Served(h.key, h.value, FromDb))
    case SetAbandoned(p, ttl) =>
      var h := s.handlers[p];
      Goto(s, p, Served(h.key, h.value, FromDb)).(late := s.late + [SetCommand(h.key, h.value, ttl)])
    case SetFails(p) => Goto(s, p, Served(s.handlers[p].key, s.handlers[p].value, FromDb))
    case Del(p) => Goto(Execute(s, DelCommand(AllKey)), p, Created(s.handlers[p].row))
    case DelAbandoned(p) => Goto(s, p, Created(s.handlers[p].row)).(late := s.late + [DelCommand(AllKey)])
    case DelFails(p) => Goto(s, p, Created(s.handlers[p].row))
    case OutOfMemory(p) => Goto(s, p, Unavailable)
    case Arrive(i) => Execute(s, s.late[i]).(late := Without(s.late, i))
    case Lose(i) => s.(late := Without(s.late, i))
    case Evict(key) => s.(redis := s.redis - {key})
    case Tick(delta) => s.(now := s.now + delta)
    case Crash(p) => Goto(s, p, Crashed)
  }

  ghost predicate Legal(s: State, run: seq<Action>)
    decreases |run|
  {
    run == [] || (Enabled(s, run[0]) && Legal(Apply(s, run[0]), run[1..]))
  }

  function Play(s: State, run: seq<Action>): State
    requires Legal(s, run)
    decreases |run|
  {
    if run == [] then s else Play(Apply(s, run[0]), run[1..])
  }

  lemma PlayOne(s: State, a: Action)
    requires Enabled(s, a)
    ensures Legal(s, [a]) && Play(s, [a]) == Apply(s, a)
  {
  }

  lemma {:induction false} PlayLast(s: State, run: seq<Action>, a: Action)
    requires Legal(s, run) && Enabled(Play(s, run), a)
    ensures Legal(s, run + [a]) && Play(s, run + [a]) == Apply(Play(s, run), a)
    decreases |run|
  {
    hide Enabled, Apply;
    if run == [] {
      PlayOne(s, a);
      assert run + [a] == [a];
    } else {
      PlayLast(Apply(s, run[0]), run[1..], a);
      assert (run + [a])[1..] == run[1..] + [a];
    }
  }

  // ---------- What every step keeps ----------

  ghost predicate SnapshotOk(s: State, snap: Snapshot) {
    && snap.asOf <= |s.history| && IsListing(snap.rows, s.history[..snap.asOf])
    && snap.takenAt <= s.now
    && forall k :: snap.asOf <= k < |s.committedAt| ==> s.committedAt[k] >= snap.takenAt
  }

  /** The list key holds the exact table of some past instant, an item key the row itself. */
  ghost predicate ValueOk(s: State, key: Key, value: Value) {
    match key
    case AllKey => value.Table? && SnapshotOk(s, value.snap)
    case ItemKey(id) => value.One? && value.row in s.history && value.row.id == id
  }

  ghost predicate EntryOk(s: State, key: Key, e: Entry) {
    ValueOk(s, key, e.value) && e.setAt <= s.now
  }

  /** A hit is the value of an entry that was live when it was read. */
  ghost predicate HitOk(s: State, key: Key, value: Value, source: Source)
    requires source.FromCache?
  {
    && source.entry.value == value && EntryOk(s, key, source.entry)
    && source.entry.setAt <= source.at <= s.now && Live(source.entry, source.at)
  }

  ghost predicate HandlerOk(s: State, h: Handler) {
    match h
    case Filling(key, value) => ValueOk(s, key, value)
    case Served(key, value, source) =>
      && ValueOk(s, key, value)
      && (source.FromCache? ==> HitOk(s, key, value, source))
    case Invalidating(row) => row in s.history
    case Created(row) => row in s.history
    case _ => true
  }

  ghost predicate CommandOk(s: State, c: Command)
    requires c.SetCommand?
  {
    ValueOk(s, c.key, c.value) && c.ttl > 0
  }

  ghost predicate Inv(s: State) {
    && UniqueIds(s.history) && |s.committedAt| == |s.history|
    && (forall key :: key in s.redis ==> EntryOk(s, key, s.redis[key]))
    && (forall c :: c in s.late && c.SetCommand? ==> CommandOk(s, c))
    && (forall p :: p in s.handlers ==> HandlerOk(s, s.handlers[p]))
  }

  /** Any table, with nothing cached and nothing in flight. */
  ghost predicate Init(s: State) {
    && UniqueIds(s.history) && |s.committedAt| == |s.history|
    && s.redis == map[] && s.late == [] && s.handlers == map[]
  }

  /** What was true of values stays true while rows are added and time passes. */
  ghost predicate Extends(s: State, t: State) {
    && |s.committedAt| == |s.history| && |t.committedAt| == |t.history|
    && s.history <= t.history && s.committedAt <= t.committedAt && s.now <= t.now
    && forall k :: |s.history| <= k < |t.history| ==> t.committedAt[k] >= s.now
  }

  lemma ValueStays(s: State, t: State, key: Key, value: Value)
    requires Extends(s, t) && ValueOk(s, key, value)
    ensures ValueOk(t, key, value)
  {
    if key.AllKey? {
      var n := value.snap.asOf;
      assert t.history[..n] == s.history[..n];
    }
  }

  lemma HandlerStays(s: State, t: State, h: Handler)
    requires Extends(s, t) && HandlerOk(s, h)
    ensures HandlerOk(t, h)
  {
    hide SnapshotOk;
    if h.Filling? || h.Served? {
      ValueStays(s, t, h.key, h.value);
    }
  }

  /** A step that only lengthens the history and touches one request keeps the invariant. */
  lemma InvFrame(s: State, t: State)
    requires Inv(s) && Extends(s, t) && UniqueIds(t.history)
    requires forall key :: key in t.redis ==>
               (key in s.redis && t.redis[key] == s.redis[key]) || EntryOk(t, key, t.redis[key])
    requires forall c :: c in t.late && c.SetCommand? ==> c in s.late || CommandOk(t, c)
    requires forall p :: p in t.handlers ==>
               (p in s.handlers && t.handlers[p] == s.handlers[p]) || HandlerOk(t, t.handlers[p])
    ensures Inv(t)
  {
    hide ValueOk;
    forall key | key in t.redis
      ensures EntryOk(t, key, t.redis[key])
    {
      if key in s.redis && t.redis[key] == s.redis[key] {
        ValueStays(s, t, key, s.redis[key].value);
      }
    }
    forall c | c in t.late && c.SetCommand?
      ensures CommandOk(t, c)
    {
      if c in s.late {
        ValueStays(s, t, c.key, c.value);
      }
    }
    forall p | p in t.handlers
      ensures HandlerOk(t, t.handlers[p])
    {
      if p in s.handlers && t.handlers[p] == s.handlers[p] {
        HandlerStays(s, t, s.handlers[p]);
      }
    }
  }

  lemma DatabaseStepKeepsInv(s: State, a: Action)
    requires Inv(s) && Enabled(s, a)
    requires a.SelectAll? || a.SelectOne? || a.Insert?
    ensures Inv(Apply(s, a)) && Extends(s, Apply(s, a))
  {
    hide IsListing;
    var t := Apply(s, a);
    if a.SelectAll? {
      assert s.history[..|s.history|] == s.history;
    } else if a.SelectOne? {
      LookupFinds(s.history, s.handlers[a.p].key.id);
    } else {
      assert s.history <= t.history && s.committedAt <= t.committedAt;
    }
    InvFrame(s, t);
  }

  lemma CacheStepKeepsInv(s: State, a: Action)
    requires Inv(s) && Enabled(s, a)
    requires !a.SelectAll? && !a.SelectOne? && !a.Insert?
    ensures Inv(Apply(s, a)) && Extends(s, Apply(s, a))
  {
    var t := Apply(s, a);
    if a.Tick? {
      InvFrame(s, t);
    } else {
      hide SnapshotOk, UniqueIds;
      assert a.Arrive? ==> s.late[a.i] in s.late;
      assert a.Set? || a.SetAbandoned? || a.SetFails? ==> HandlerOk(s, s.handlers[a.p]);
      SameTable(s, t);
      InvFrame(s, t);
    }
  }

  lemma SameTable(s: State, t: State)
    requires Inv(s) && t.history == s.history && t.committedAt == s.committedAt && t.now == s.now
    ensures Extends(s, t)
    ensures forall key, value :: ValueOk(s, key, value) <==> ValueOk(t, key, value)
  {
  }

  lemma StepKeepsInv(s: State, a: Action)
    requires Inv(s) && Enabled(s, a)
    ensures Inv(Apply(s, a)) && Extends(s, Apply(s, a))
  {
    hide Inv, Enabled, Apply, Extends;
    if a.SelectAll? || a.SelectOne? || a.Insert? {
      DatabaseStepKeepsInv(s, a);
    } else {
      CacheStepKeepsInv(s, a);
    }
  }

  /** In every reachable state, every cached, pending or served value is right. */
  lemma {:induction false} RunKeepsInv(s: State, run: seq<Action>)
    requires Inv(s) && Legal(s, run)
    ensures Inv(Play(s, run)) && Extends(s, Play(s, run))
    decreases |run|
  {
    hide Inv, Enabled, Apply;
    if run == [] {
      ExtendsItself(s);
    } else {
      StepKeepsInv(s, run[0]);
      RunKeepsInv(Apply(s, run[0]), run[1..]);
    }
  }

  lemma ExtendsItself(s: State)
    requires Inv(s)
    ensures Extends(s, s)
  {
  }
}
