/** The data handlers of the C service, call by call, while all other requests, of this
    service and of the others, go on between the calls. Each is one request's path through
    the cache-aside protocol, so everything that holds of all its runs holds of it. */
module Handlers {
  import opened CStrings
  import opened CacheAside
  import Ids
  import Sequences

  /** How a cache command ends: as it should, without effect, or without effect so far. */
  datatype Outcome = Works | Fails | Abandoned

  /** What goes wrong during one request: its cache lookup, its database call, its cache
      command, and the memory for the text to cache and for the reply. */
  datatype Faults = Faults(lookup: bool, db: bool, text: bool, command: Outcome, reply: bool)

  /** What everybody else does before the next call, in a given state. */
  type World = State -> seq<Action>

  predicate IsStepOf(a: Action, p: nat) {
    match a
    case Start(q, _) => q == p
    case Get(q) => q == p
    case GetFails(q) => q == p
    case SelectAll(q, _) => q == p
    case SelectOne(q) => q == p
    case Insert(q, _, _) => q == p
    case DbFails(q) => q == p
    case Set(q, _) => q == p
    case SetAbandoned(q, _) => q == p
    case SetFails(q) => q == p
    case Del(q) => q == p
    case DelAbandoned(q) => q == p
    case DelFails(q) => q == p
    case OutOfMemory(q) => q == p
    case Crash(q) => q == p
    case Arrive(_) => false
    case Lose(_) => false
    case Evict(_) => false
    case Tick(_) => false
  }

  /** The steps of request `p` in a run. */
  function Own(run: seq<Action>, p: nat): seq<Action> {
    if run == [] then []
    else if IsStepOf(run[0], p) then [run[0]] + Own(run[1..], p)
    else Own(run[1..], p)
  }

  ghost predicate LeavesAlone(world: World, p: nat) {
    forall s :: Legal(s, world(s)) && Own(world(s), p) == []
  }

  // ---------- A run, with the steps of one request in it ----------

  datatype Path = Path(start: State, run: seq<Action>, own: seq<Action>)

  /** Nobody else took a step in it. */
  predicate Alone(path: Path) { path.run == path.own }

  ghost predicate Quiet(world: World) { forall s :: world(s) == [] }

  ghost predicate LeadsTo(path: Path, s: State, p: nat) {
    Legal(path.start, path.run) && Play(path.start, path.run) == s && Own(path.run, p) == path.own
  }

  lemma {:induction false} OwnConcat(run: seq<Action>, more: seq<Action>, p: nat)
    ensures Own(run + more, p) == Own(run, p) + Own(more, p)
  {
    if run == [] {
      assert run + more == more;
    } else {
      hide IsStepOf;
      OwnConcat(run[1..], more, p);
      assert (run + more)[1..] == run[1..] + more;
      Sequences.Regroup([run[0]], Own(run[1..], p), Own(more, p));
    }
  }

  lemma {:induction false} PlayConcat(s: State, run: seq<Action>, more: seq<Action>)
    requires Legal(s, run) && Legal(Play(s, run), more)
    ensures Legal(s, run + more) && Play(s, run + more) == Play(Play(s, run), more)
    decreases |run|
  {
    hide Enabled, Apply;
    if run == [] {
      assert run + more == more;
    } else {
      PlayConcat(Apply(s, run[0]), run[1..], more);
      assert (run + more)[1..] == run[1..] + more;
    }
  }

  lemma OtherStep(s: State, a: Action, p: nat)
    requires Enabled(s, a) && !IsStepOf(a, p)
    ensures p in s.handlers <==> p in Apply(s, a).handlers
    ensures p in s.handlers ==> Apply(s, a).handlers[p] == s.handlers[p]
  {
    hide IsListing, AfterGet, AfterSelect;
  }

  lemma {:induction false} OtherSteps(s: State, run: seq<Action>, p: nat)
    requires Legal(s, run) && Own(run, p) == []
    ensures p in s.handlers <==> p in Play(s, run).handlers
    ensures p in s.handlers ==> Play(s, run).handlers[p] == s.handlers[p]
    decreases |run|
  {
    hide Enabled, Apply, IsStepOf;
    if run != [] {
      OtherStep(s, run[0], p);
      OtherSteps(Apply(s, run[0]), run[1..], p);
    }
  }

  lemma OneStep(path: Path, s: State, a: Action, p: nat) returns (next: Path)
    requires LeadsTo(path, s, p) && Enabled(s, a) && IsStepOf(a, p)
    ensures next == Path(path.start, path.run + [a], path.own + [a]) && LeadsTo(next, Apply(s, a), p)
    ensures Alone(path) ==> Alone(next)
  {
    hide Enabled, Apply, IsStepOf;
    next := Path(path.start, path.run + [a], path.own + [a]);
    PlayLast(path.start, path.run, a);
    OwnConcat(path.run, [a], p);
    assert [a][1..] == [] && Own([a], p) == [a];
  }

  // ---------- The services ----------

  /** The database and the Redis that the services share, and the requests in flight. */
  class Service {
    var history: seq<Row>
    var committedAt: seq<int>
    var redis: map<Key, Entry>
    var late: seq<Command>
    var handlers: map<nat, Handler>
    var now: int
    const cacheTtl: int

    function Now(): State
      reads this
    {
      State(history, committedAt, redis, late, handlers, now)
    }

    /** The configured lifetime, or 30 when it is not positive. */
    function Ttl(): (ttl: int)
      ensures ttl > 0
      ensures cacheTtl > 0 ==> ttl == cacheTtl
      ensures cacheTtl <= 0 ==> ttl == 30
    {
      if cacheTtl <= 0 then 30 else cacheTtl
    }

    constructor (cacheTtl: int, s: State)
      ensures Now() == s && this.cacheTtl == cacheTtl
    {
      this.cacheTtl := cacheTtl;
      history, committedAt, redis, late, handlers, now :=
        s.history, s.committedAt, s.redis, s.late, s.handlers, s.now;
    }

    /** Everybody else goes on. */
    method Others(world: World, p: nat, ghost path: Path) returns (ghost next: Path)
      requires LeavesAlone(world, p) && LeadsTo(path, Now(), p)
      modifies this
      ensures LeadsTo(next, Now(), p) && next.start == path.start && next.own == path.own
      ensures Alone(path) && Quiet(world) ==> Alone(next)
      ensures Quiet(world) ==> Now() == old(Now())
      ensures p in handlers <==> p in old(handlers)
      ensures p in handlers ==> handlers[p] == old(handlers[p])
    {
      hide Enabled, Apply, IsStepOf;
      var run := world(Now());
      var t := Play(Now(), run);
      OtherSteps(Now(), run, p);
      PlayConcat(path.start, path.run, run);
      OwnConcat(path.run, run, p);
      next := Path(path.start, path.run + run, path.own);
      assert path.own + [] == path.own && path.run + [] == path.run;
      history, committedAt, redis, late, handlers, now :=
        t.history, t.committedAt, t.redis, t.late, t.handlers, t.now;
    }

    method Accept(p: nat, request: Handler, ghost path: Path) returns (ghost next: Path)
      requires LeadsTo(path, Now(), p) && p !in handlers && IsRequest(request)
      modifies this`handlers
      ensures LeadsTo(next, Now(), p) && next.start == path.start && next.own == path.own + [Start(p, request)]
      ensures Alone(path) ==> Alone(next)
      ensures p in handlers && handlers[p] == request
    {
      hide LeadsTo;
      next := OneStep(path, Now(), Start(p, request), p);
      handlers := handlers[p := request];
    }

    /** `cache_get`: an entry is served only when the call itself succeeds. */
    method CacheGet(p: nat, key: Key, fails: bool, ghost path: Path) returns (e: Option<Entry>, ghost next: Path)
      requires LeadsTo(path, Now(), p) && p in handlers && handlers[p] == Looking(key)
      modifies this`handlers
      ensures LeadsTo(next, Now(), p) && next.start == path.start
      ensures Alone(path) ==> Alone(next)
      ensures next.own == path.own + [if fails then GetFails(p) else Get(p)]
      ensures p in handlers && (e.Some? ==> !fails)
      ensures handlers[p] == match e
                             case Some(entry) => Served(key, entry.value, FromCache(now, entry))
                             case None => Querying(key)
    {
      hide LeadsTo;
      next := OneStep(path, Now(), if fails then GetFails(p) else Get(p), p);
      e := if !fails && key in redis && Live(redis[key], now) then Some(redis[key]) else None;
      handlers := handlers[p := if e.Some? then Served(key, e.value.value, FromCache(now, e.value)) else Querying(key)];
    }

    /** A database call that does not work. */
    method DbFails(p: nat, ghost path: Path) returns (ghost next: Path)
      requires LeadsTo(path, Now(), p) && p in handlers && (handlers[p].Querying? || handlers[p].Inserting?)
      modifies this`handlers
      ensures LeadsTo(next, Now(), p) && next.start == path.start && next.own == path.own + [CacheAside.DbFails(p)]
      ensures Alone(path) ==> Alone(next)
      ensures p in handlers && handlers[p] == Unavailable
    {
      hide LeadsTo;
      next := OneStep(path, Now(), CacheAside.DbFails(p), p);
      handlers := handlers[p := Unavailable];
    }

    /** `db_query_all`; `db` is how the database orders rows of the same time. */
    method QueryAll(p: nat, db: seq<Row> -> seq<Row>, ghost path: Path) returns (rows: seq<Row>, ghost next: Path)
      requires LeadsTo(path, Now(), p) && p in handlers && handlers[p] == Querying(AllKey)
      requires forall h :: IsListing(db(h), h)
      modifies this`handlers
      ensures LeadsTo(next, Now(), p) && next.start == path.start && next.own == path.own + [SelectAll(p, rows)]
      ensures Alone(path) ==> Alone(next)
      ensures p in handlers && handlers[p] == Filling(AllKey, Table(Snapshot(rows, |history|, now)))
    {
      hide LeadsTo, IsListing;
      rows := db(history);
      next := OneStep(path, Now(), SelectAll(p, rows), p);
      handlers := handlers[p := Filling(AllKey, Table(Snapshot(rows, |history|, now)))];
    }

    /** `db_query_one`. */
    method QueryOne(p: nat, id: int, ghost path: Path) returns (row: Option<Row>, ghost next: Path)
      requires LeadsTo(path, Now(), p) && p in handlers && handlers[p] == Querying(ItemKey(id))
      modifies this`handlers
      ensures LeadsTo(next, Now(), p) && next.start == path.start && next.own == path.own + [SelectOne(p)]
      ensures Alone(path) ==> Alone(next)
      ensures p in handlers
      ensures handlers[p] == match row
                             case Some(r) => Filling(ItemKey(id), One(r))
                             case None => NotFound(id)
    {
      hide LeadsTo;
      next := OneStep(path, Now(), SelectOne(p), p);
      var found := Lookup(history, id);
      row := if found == [] then None else Some(found[0]);
      handlers := handlers[p := if found == [] then NotFound(id) else Filling(ItemKey(id), One(found[0]))];
    }

    /** `cache_set`. */
    method CacheSet(p: nat, key: Key, value: Value, outcome: Outcome, ghost path: Path) returns (ghost next: Path)
      requires LeadsTo(path, Now(), p) && p in handlers && handlers[p] == Filling(key, value)
      modifies this`redis, this`late, this`handlers
      ensures LeadsTo(next, Now(), p) && next.start == path.start
      ensures Alone(path) ==> Alone(next)
      ensures next.own == path.own + [SetStep(outcome, p, Ttl())]
      ensures redis == if outcome.Works? then old(redis)[key := Entry(value, now, Ttl())] else old(redis)
      ensures p in handlers && handlers[p] == Served(key, value, FromDb)
    {
      hide LeadsTo;
      next := OneStep(path, Now(), SetStep(outcome, p, Ttl()), p);
      match outcome {
        case Works => redis := redis[key := Entry(value, now, Ttl())];
        case Fails =>
        case Abandoned => late := late + [SetCommand(key, value, Ttl())];
      }
      handlers := handlers[p := Served(key, value, FromDb)];
    }

    /** `db_insert`; the database chooses the id. */
    method Insert(p: nat, content: string, ids: seq<Row> -> int, createdAt: int, ghost path: Path)
      returns (row: Row, ghost next: Path)
      requires LeadsTo(path, Now(), p) && p in handlers && handlers[p] == Inserting(content)
      requires forall h: seq<Row>, r :: r in h ==> r.id != ids(h)
      modifies this`history, this`committedAt, this`handlers
      ensures LeadsTo(next, Now(), p) && next.start == path.start
      ensures Alone(path) ==> Alone(next)
      ensures next.own == path.own + [CacheAside.Insert(p, row.id, createdAt)]
      ensures row == Row(ids(old(history)), content, createdAt) && history == old(history) + [row]
      ensures p in handlers && handlers[p] == Invalidating(row)
    {
      hide LeadsTo;
      row := Row(ids(history), content, createdAt);
      next := OneStep(path, Now(), CacheAside.Insert(p, row.id, createdAt), p);
      history, committedAt := history + [row], committedAt + [now];
      handlers := handlers[p := Invalidating(row)];
    }

    /** `cache_del` of the list. */
    method CacheDel(p: nat, row: Row, outcome: Outcome, ghost path: Path) returns (ghost next: Path)
      requires LeadsTo(path, Now(), p) && p in handlers && handlers[p] == Invalidating(row)
      modifies this`redis, this`late, this`handlers
      ensures LeadsTo(next, Now(), p) && next.start == path.start
      ensures Alone(path) ==> Alone(next)
      ensures next.own == path.own + [DelStep(outcome, p)]
      ensures redis == if outcome.Works? then old(redis) - {AllKey} else old(redis)
      ensures p in handlers && handlers[p] == Created(row)
    {
      hide LeadsTo;
      next := OneStep(path, Now(), DelStep(outcome, p), p);
      match outcome {
        case Works => redis := redis - {AllKey};
        case Fails =>
        case Abandoned => late := late + [DelCommand(AllKey)];
      }
      handlers := handlers[p := Created(row)];
    }

    /** Building a text; the request ends here when there is no memory for it. */
    method Build(p: nat, fails: bool, ghost path: Path) returns (ghost next: Path)
      requires LeadsTo(path, Now(), p) && p in handlers
      requires handlers[p].Filling? || handlers[p].Served? || handlers[p].Created?
      modifies this`handlers
      ensures LeadsTo(next, Now(), p) && next.start == path.start && next.own == path.own + MemoryStep(fails, p)
      ensures Alone(path) ==> Alone(next)
      ensures p in handlers && handlers[p] == if fails then Unavailable else old(handlers[p])
    {
      hide LeadsTo;
      next := path;
      assert path.own + [] == path.own;
      if fails {
        next := OneStep(path, Now(), OutOfMemory(p), p);
        handlers := handlers[p := Unavailable];
      }
    }

    /** A read request up to the answer of the cache. */
    method Read(p: nat, key: Key, world: World, fails: bool) returns (cached: Option<Entry>, ghost path: Path)
      requires p !in handlers && LeavesAlone(world, p)
      modifies this
      ensures path.start == old(Now()) && LeadsTo(path, Now(), p) && path.own == Reading(p, key, fails)
      ensures Quiet(world) ==> Alone(path) && redis == old(redis) && now == old(now)
      ensures p in handlers
      ensures match cached
              case Some(_) => handlers[p].Served? && handlers[p].source.FromCache?
              case None => handlers[p] == Querying(key)
    {
      hide LeadsTo, LeavesAlone, Own;
      path := NoStep(Now(), p);
      path := Others(world, p, path);
      path := Accept(p, Looking(key), path);
      path := Others(world, p, path);
      cached, path := CacheGet(p, key, fails, path);
      assert path.own == [] + [Start(p, Looking(key))] + [if fails then GetFails(p) else Get(p)];
      path := Others(world, p, path);
    }

    /** What follows a database answer: the text, the cache command, the reply. */
    method FillAndReply(p: nat, key: Key, value: Value, world: World, f: Faults, ghost path: Path)
      returns (ghost next: Path)
      requires LeadsTo(path, Now(), p) && p in handlers && handlers[p] == Filling(key, value) && LeavesAlone(world, p)
      modifies this
      ensures LeadsTo(next, Now(), p) && next.start == path.start && next.own == path.own + FillingPath(p, f, Ttl())
      ensures Alone(path) && Quiet(world) ==> Alone(next)
      ensures p in handlers && handlers[p] == if f.text || f.reply then Unavailable else Served(key, value, FromDb)
      ensures Quiet(world) && !f.text && f.command.Works? ==> redis == old(redis)[key := Entry(value, old(now), Ttl())]
    {
      hide LeadsTo, LeavesAlone, Own;
      next := Build(p, f.text, path);
      if f.text {
        return;
      }
      assert next.own == path.own;
      next := Others(world, p, next);
      next := CacheSet(p, key, value, f.command, next);
      next := Others(world, p, next);
      next := Build(p, f.reply, next);
      Sequences.Regroup(path.own, [SetStep(f.command, p, Ttl())], MemoryStep(f.reply, p));
    }

    /** `handle_list`. */
    method HandleList(p: nat, world: World, db: seq<Row> -> seq<Row>, f: Faults)
      returns (reply: Handler, ghost path: Path, ghost hit: bool, ghost rows: seq<Row>)
      requires p !in handlers && LeavesAlone(world, p) && forall h :: IsListing(db(h), h)
      modifies this
      ensures path.start == old(Now()) && LeadsTo(path, Now(), p)
      ensures path.own == ListPath(p, f, hit, rows, Ttl()) && (Quiet(world) ==> Alone(path))
      ensures p in handlers && reply == handlers[p] && (reply.Served? || reply.Unavailable?)
      ensures reply.Unavailable? <==> if hit then f.reply else f.db || f.text || f.reply
      ensures Quiet(world) && !f.lookup && !f.reply && AllKey in old(redis) && Live(old(redis)[AllKey], old(now)) ==>
                reply == Served(AllKey, old(redis)[AllKey].value, FromCache(old(now), old(redis)[AllKey]))
      ensures Quiet(world) && f.command.Works? && reply.Served? && reply.source.FromDb? ==>
                redis == old(redis)[AllKey := Entry(reply.value, old(now), Ttl())]
    {
      hide LeadsTo, LeavesAlone, IsListing, Own, Reading, FillingPath;
      var cached;
      cached, path := Read(p, AllKey, world, f.lookup);
      hit, rows := cached.Some?, [];
      if cached.Some? {
        path := Build(p, f.reply, path);
      } else if f.db {
        path := DbFails(p, path);
      } else {
        var listed;
        listed, path := QueryAll(p, db, path);
        rows := listed;
        path := FillAndReply(p, AllKey, handlers[p].value, world, f, path);
        Sequences.Regroup(Reading(p, AllKey, f.lookup), [SelectAll(p, rows)], FillingPath(p, f, Ttl()));
      }
      reply := handlers[p];
      LiveEntryDecides(path, Now(), p, AllKey, f, hit, ListAnswer(p, f, hit, rows, Ttl()));
    }

    /** `handle_one`. */
    method HandleOne(p: nat, idText: string, world: World, f: Faults)
      returns (ok: bool, reply: Handler, ghost path: Path, ghost id: int, ghost hit: bool)
      requires p !in handlers && LeavesAlone(world, p)
      modifies this
      ensures ok <==> exists i :: Ids.IdText(idText, i)
      ensures !ok ==> Now() == old(Now())
      ensures ok ==> Ids.IdText(idText, id)
      ensures ok ==> path.start == old(Now()) && LeadsTo(path, Now(), p)
      ensures ok ==> p in handlers && reply == handlers[p] && (reply.Served? || reply.NotFound? || reply.Unavailable?)
      ensures ok ==> path.own == ItemPath(p, id, f, hit, reply.NotFound?, Ttl()) && (Quiet(world) ==> Alone(path))
      ensures ok ==> (reply.Unavailable? <==> if hit then f.reply else f.db || (!reply.NotFound? && (f.text || f.reply)))
      ensures ok && Quiet(world) && !f.lookup && !f.reply
              && ItemKey(id) in old(redis) && Live(old(redis)[ItemKey(id)], old(now)) ==>
                reply == Served(ItemKey(id), old(redis)[ItemKey(id)].value, FromCache(old(now), old(redis)[ItemKey(id)]))
      ensures ok && Quiet(world) && f.command.Works? && reply.Served? && reply.source.FromDb? ==>
                redis == old(redis)[ItemKey(id) := Entry(reply.value, old(now), Ttl())]
    {
      hide LeadsTo, LeavesAlone, Own, Reading, FillingPath;
      path := NoStep(Now(), p);
      reply, hit := Unavailable, false;
      var number;
      ok, number := Ids.ParsePositiveLong(idText);
      id := number;
      if !ok {
        return;
      }
      var cached;
      cached, path := Read(p, ItemKey(number), world, f.lookup);
      hit := cached.Some?;
      if cached.Some? {
        path := Build(p, f.reply, path);
      } else if f.db {
        path := DbFails(p, path);
      } else {
        var row;
        row, path := QueryOne(p, number, path);
        if row.Some? {
          path := FillAndReply(p, ItemKey(number), One(row.value), world, f, path);
          Sequences.Regroup(Reading(p, ItemKey(id), f.lookup), [SelectOne(p)], FillingPath(p, f, Ttl()));
        }
      }
      reply := handlers[p];
      LiveEntryDecides(path, Now(), p, ItemKey(id), f, hit, ItemAnswer(p, f, hit, reply.NotFound?, Ttl()));
    }

    /** What follows an insert. */
    method InvalidateAndReply(p: nat, row: Row, world: World, f: Faults, ghost path: Path) returns (ghost next: Path)
      requires LeadsTo(path, Now(), p) && p in handlers && handlers[p] == Invalidating(row) && LeavesAlone(world, p)
      modifies this
      ensures LeadsTo(next, Now(), p) && next.start == path.start
      ensures Alone(path) && Quiet(world) ==> Alone(next)
      ensures next.own == path.own + ([DelStep(f.command, p)] + MemoryStep(f.reply, p))
      ensures p in handlers && handlers[p] == if f.reply then Unavailable else Created(row)
      ensures Quiet(world) ==> redis == (if f.command.Works? then old(redis) - {AllKey} else old(redis))
      ensures Quiet(world) ==> history == old(history)
    {
      hide LeadsTo, LeavesAlone, Own;
      next := Others(world, p, path);
      next := CacheDel(p, row, f.command, next);
      next := Others(world, p, next);
      next := Build(p, f.reply, next);
      Sequences.Regroup(path.own, [DelStep(f.command, p)], MemoryStep(f.reply, p));
    }

    /** `handle_create`, behind the parsing of the body. */
    method HandleCreate(p: nat, content: string, world: World, ids: seq<Row> -> int, createdAt: int, f: Faults)
      returns (ok: bool, reply: Handler, ghost path: Path, ghost id: int)
      requires p !in handlers && LeavesAlone(world, p) && forall h: seq<Row>, r :: r in h ==> r.id != ids(h)
      modifies this
      ensures ok <==> content != ""
      ensures !ok ==> Now() == old(Now())
      ensures ok ==> path.start == old(Now()) && LeadsTo(path, Now(), p)
      ensures ok ==> path.own == CreatePath(p, content, id, createdAt, f)
      ensures ok ==> p in handlers && reply == handlers[p]
      ensures ok ==> reply == if f.db || f.reply then Unavailable else Created(Row(id, content, createdAt))
      ensures ok && Quiet(world) && !f.db ==>
                && history == old(history) + [Row(id, content, createdAt)]
                && redis == if f.command.Works? then old(redis) - {AllKey} else old(redis)
    {
      hide LeadsTo, LeavesAlone, Own;
      path := NoStep(Now(), p);
      reply, id := Unavailable, 0;
      ok := content != "";
      if !ok {
        return;
      }
      path := Others(world, p, path);
      path := Accept(p, Inserting(content), path);
      path := Others(world, p, path);
      if f.db {
        path := DbFails(p, path);
        reply := handlers[p];
        return;
      }
      var row;
      row, path := Insert(p, content, ids, createdAt, path);
      id := row.id;
      path := InvalidateAndReply(p, row, world, f, path);
      reply := handlers[p];
    }
  }

  /** What the protocol guarantees in every reachable state, it guarantees behind a handler. */
  lemma PathKeepsInv(path: Path, s: State, p: nat)
    requires LeadsTo(path, s, p) && Inv(path.start)
    ensures Inv(s) && Extends(path.start, s)
  {
    RunKeepsInv(path.start, path.run);
  }

  lemma NoStep(s: State, p: nat) returns (path: Path)
    ensures path == Path(s, [], []) && LeadsTo(path, s, p)
  {
    path := Path(s, [], []);
  }

  function SetStep(outcome: Outcome, p: nat, ttl: int): Action {
    match outcome
    case Works => Set(p, ttl)
    case Fails => SetFails(p)
    case Abandoned => SetAbandoned(p, ttl)
  }

  function DelStep(outcome: Outcome, p: nat): Action {
    match outcome
    case Works => Del(p)
    case Fails => DelFails(p)
    case Abandoned => DelAbandoned(p)
  }

  function MemoryStep(fails: bool, p: nat): seq<Action> {
    if fails then [OutOfMemory(p)] else []
  }

  // ---------- The calls that each handler makes, in order ----------

  function Reading(p: nat, key: Key, fails: bool): seq<Action> {
    [Start(p, Looking(key)), if fails then GetFails(p) else Get(p)]
  }

  function FillingPath(p: nat, f: Faults, ttl: int): seq<Action> {
    if f.text then [OutOfMemory(p)] else [SetStep(f.command, p, ttl)] + MemoryStep(f.reply, p)
  }

  function ListAnswer(p: nat, f: Faults, hit: bool, rows: seq<Row>, ttl: int): seq<Action> {
    if hit then MemoryStep(f.reply, p)
    else if f.db then [DbFails(p)]
    else [SelectAll(p, rows)] + FillingPath(p, f, ttl)
  }

  function ListPath(p: nat, f: Faults, hit: bool, rows: seq<Row>, ttl: int): seq<Action> {
    Reading(p, AllKey, f.lookup) + ListAnswer(p, f, hit, rows, ttl)
  }

  function ItemAnswer(p: nat, f: Faults, hit: bool, missing: bool, ttl: int): seq<Action> {
    if hit then MemoryStep(f.reply, p)
    else if f.db then [DbFails(p)]
    else [SelectOne(p)] + if missing then [] else FillingPath(p, f, ttl)
  }

  function ItemPath(p: nat, id: int, f: Faults, hit: bool, missing: bool, ttl: int): seq<Action> {
    Reading(p, ItemKey(id), f.lookup) + ItemAnswer(p, f, hit, missing, ttl)
  }

  function CreatePath(p: nat, content: string, id: int, createdAt: int, f: Faults): seq<Action> {
    [Start(p, Inserting(content))] +
    if f.db then [DbFails(p)]
    else [Insert(p, id, createdAt)] + ([DelStep(f.command, p)] + MemoryStep(f.reply, p))
  }

  // ---------- When the cache answers ----------

  lemma {:induction false} PlaySplit(s: State, run: seq<Action>, more: seq<Action>)
    requires Legal(s, run + more)
    ensures Legal(s, run) && Legal(Play(s, run), more) && Play(s, run + more) == Play(Play(s, run), more)
    decreases |run|
  {
    hide Enabled, Apply;
    if run == [] {
      assert run + more == more;
    } else {
      assert (run + more)[1..] == run[1..] + more;
      PlaySplit(Apply(s, run[0]), run[1..], more);
    }
  }

  lemma FirstStep(s: State, a: Action, rest: seq<Action>)
    requires Legal(s, [a] + rest)
    ensures Enabled(s, a) && Legal(Apply(s, a), rest) && Play(s, [a] + rest) == Play(Apply(s, a), rest)
  {
    hide Enabled, Apply;
    assert ([a] + rest)[1..] == rest;
  }

  lemma StartThenGet(s: State, p: nat, key: Key, fails: bool)
    requires Enabled(s, Start(p, Looking(key)))
    ensures var found := !fails && key in s.redis && s.now < s.redis[key].setAt + s.redis[key].ttl;
            var s1 := Apply(s, Start(p, Looking(key)));
            var a := if fails then GetFails(p) else Get(p);
            && Enabled(s1, a)
            && Apply(s1, a) == Goto(s, p, if found then Served(key, s.redis[key].value, FromCache(s.now, s.redis[key])) else Querying(key))
  {
    hide IsListing;
  }

  /** What a request for a key finds when nobody else steps in between. */
  lemma AfterReading(s: State, p: nat, key: Key, fails: bool, rest: seq<Action>)
    requires Legal(s, Reading(p, key, fails) + rest)
    ensures var found := !fails && key in s.redis && s.now < s.redis[key].setAt + s.redis[key].ttl;
            var t := Goto(s, p, if found then Served(key, s.redis[key].value, FromCache(s.now, s.redis[key])) else Querying(key));
            Legal(t, rest) && Play(s, Reading(p, key, fails) + rest) == Play(t, rest)
  {
    hide Enabled, Apply;
    var a, b := Start(p, Looking(key)), if fails then GetFails(p) else Get(p);
    assert Reading(p, key, fails) + rest == [a] + ([b] + rest);
    FirstStep(s, a, [b] + rest);
    FirstStep(Apply(s, a), b, rest);
    StartThenGet(s, p, key, fails);
  }

  predicate AsksDatabase(a: Action) {
    a.DbFails? || a.SelectAll? || a.SelectOne?
  }

  /** The steps behind the cache's answer, as both read handlers take them. */
  predicate FollowsAnswer(rest: seq<Action>, p: nat, f: Faults, hit: bool) {
    if hit then rest == MemoryStep(f.reply, p)
    else rest != [] && AsksDatabase(rest[0]) && rest[0].p == p
  }

  /** A live entry is what a request is served, whatever the database would do. */
  lemma LiveEntryIsServed(s: State, p: nat, key: Key, f: Faults, hit: bool, rest: seq<Action>)
    requires Legal(s, Reading(p, key, f.lookup) + rest) && FollowsAnswer(rest, p, f, hit)
    requires !f.lookup && !f.reply && key in s.redis && s.now < s.redis[key].setAt + s.redis[key].ttl
    ensures hit
    ensures var t := Play(s, Reading(p, key, f.lookup) + rest);
            p in t.handlers && t.handlers[p] == Served(key, s.redis[key].value, FromCache(s.now, s.redis[key]))
  {
    hide IsListing;
    AfterReading(s, p, key, f.lookup, rest);
  }

  lemma LiveEntryDecides(path: Path, t: State, p: nat, key: Key, f: Faults, hit: bool, rest: seq<Action>)
    requires LeadsTo(path, t, p) && path.own == Reading(p, key, f.lookup) + rest && FollowsAnswer(rest, p, f, hit)
    ensures Alone(path) && !f.lookup && !f.reply && key in path.start.redis && Live(path.start.redis[key], path.start.now) ==>
              p in t.handlers
              && t.handlers[p] == Served(key, path.start.redis[key].value, FromCache(path.start.now, path.start.redis[key]))
  {
    if Alone(path) && !f.lookup && !f.reply && key in path.start.redis && Live(path.start.redis[key], path.start.now) {
      LiveEntryIsServed(path.start, p, key, f, hit, rest);
    }
  }
}
