/** The connection manager of the Node service's Redis client: one connect at a time, and a
    cooldown after failures. Its asynchronous code is cut wherever an await can take time;
    a call that is rejected records its failure at that moment. */
module RedisClient {
  import opened CStrings

  const COOLDOWN_MS: int := 1000

  /** The variables of the closure; a connection is known by its number. */
  datatype Vars = Vars(client: Option<nat>, connecting: Option<nat>, lastFailureAt: int)

  datatype Call = Use(c: nat) | Wait(c: nat, isNew: bool) | Rejected

  /** What `getClient` answers; `created` numbers the connection that it would create. */
  function Answer(v: Vars, open: set<nat>, now: int, created: nat): Call {
    if v.client.Some? && v.client.value in open then Use(v.client.value)
    else if now - v.lastFailureAt < COOLDOWN_MS then Rejected
    else if v.connecting.None? then Wait(created, true)
    else Wait(v.connecting.value, false)
  }

  function Failed(v: Vars, now: int): Vars {
    Vars(None, v.connecting, now)
  }

  function AfterCall(v: Vars, open: set<nat>, now: int, created: nat): Vars {
    match Answer(v, open, now, created)
    case Use(_) => v
    case Rejected => Failed(v, now)
    case Wait(c, _) => v.(connecting := Some(c))
  }

  function Connected(v: Vars, c: nat): Vars { v.(client := Some(c)) }

  function NotedFailure(v: Vars, now: int): Vars { v.(lastFailureAt := now) }

  function Settled(v: Vars): Vars { v.(connecting := None) }

  /** The closure itself. */
  class Cache {
    var client: Option<nat>
    var connecting: Option<nat>
    var lastFailureAt: int

    function State(): Vars
      reads this
    {
      Vars(client, connecting, lastFailureAt)
    }

    constructor ()
      ensures State() == Vars(None, None, 0)
    {
      client, connecting, lastFailureAt := None, None, 0;
    }

    /** `getClient`, up to its answer. A new connect means that the client is not connected,
        that the cooldown has passed since the last failure, and that no other connect is
        known; who waits, waits for the one connect that is known afterwards; who gets a
        connection gets an open one. */
    method GetClient(open: set<nat>, now: int, created: nat) returns (r: Call)
      modifies this`connecting
      ensures r.Wait? && r.isNew ==> now - lastFailureAt >= COOLDOWN_MS && old(connecting).None? && r.c == created
      ensures r.Wait? ==> connecting == Some(r.c) && !(client.Some? && client.value in open)
      ensures r.Wait? && !r.isNew ==> connecting == old(connecting)
      ensures r.Use? ==> r.c in open && client == Some(r.c)
      ensures r.Rejected? ==> now - lastFailureAt < COOLDOWN_MS && !(client.Some? && client.value in open)
      ensures r == Answer(old(State()), open, now, created)
      ensures State() == if r.Wait? then old(State()).(connecting := Some(r.c)) else old(State())
    {
      if client.Some? && client.value in open {
        return Use(client.value);
      }
      if now - lastFailureAt < COOLDOWN_MS {
        return Rejected;
      }
      var isNew := connecting.None?;
      if isNew {
        connecting := Some(created);
      }
      return Wait(connecting.value, isNew);
    }

    /** The `catch` of `safeRun`: says which connection to disconnect. */
    method RecordFailure(now: int) returns (disconnect: Option<nat>)
      modifies this
      ensures State() == Failed(old(State()), now) && disconnect == old(client)
    {
      lastFailureAt := now;
      disconnect := client;
      client := None;
    }

    /** `safeRun`, up to its first await. A rejection counts as a failure: for a whole
        cooldown from now on, nobody can start a connect. */
    method Begin(open: set<nat>, now: int, created: nat) returns (r: Call)
      modifies this
      ensures r.Rejected? ==> lastFailureAt == now && client.None?
      ensures r.Rejected? ==> forall t, c :: t < now + COOLDOWN_MS ==> Answer(State(), open, t, c).Rejected?
      ensures !r.Rejected? ==> lastFailureAt == old(lastFailureAt) && client == old(client)
      ensures r == Answer(old(State()), open, now, created)
      ensures State() == AfterCall(old(State()), open, now, created)
    {
      r := GetClient(open, now, created);
      if r.Rejected? {
        var _ := RecordFailure(now);
      }
    }

    /** The `then`, `catch` and `finally` behind `connect`. */
    method OnConnected(c: nat)
      modifies this`client
      ensures State() == Connected(old(State()), c)
    {
      client := Some(c);
    }

    method OnConnectFailed(now: int)
      modifies this`lastFailureAt
      ensures State() == NotedFailure(old(State()), now)
    {
      lastFailureAt := now;
    }

    method OnSettled()
      modifies this`connecting
      ensures State() == Settled(old(State()))
    {
      connecting := None;
    }

    /** The `error` listener. */
    method OnError(now: int)
      modifies this`lastFailureAt
      ensures State() == NotedFailure(old(State()), now)
    {
      lastFailureAt := now;
    }
  }

  // ---------- All interleavings ----------

  datatype Request = Waiting(c: nat) | Running(c: nat) | Over

  datatype System = System(
    vars: Vars,
    open: set<nat>,           // connections whose socket is open
    inFlight: set<nat>,       // connects that have neither succeeded nor failed
    settling: set<nat>,       // those that have, but whose `finally` has not run
    succeeded: set<nat>,
    startedAt: map<nat, int>,
    failedStarts: seq<int>,   // when the connects that failed had started, in the order of failing
    requests: map<nat, Request>,
    now: int
  )

  datatype Action =
    | Begin(p: nat, created: nat)
    | ConnectOk(c: nat)
    | ConnectFails(c: nat)
    | Finally(c: nat)
    | Resume(p: nat)
    | Answered(p: nat)
    | OperationFails(p: nat)
    | ErrorEvent
    | SocketCloses(c: nat)
    | Tick(delta: nat)

  predicate Enabled(s: System, a: Action) {
    match a
    case Begin(p, created) => p !in s.requests && created !in s.startedAt
    case ConnectOk(c) => c in s.inFlight
    case ConnectFails(c) => c in s.inFlight && c in s.startedAt
    case Finally(c) => c in s.settling
    case Resume(p) =>
      && p in s.requests && s.requests[p].Waiting?
      && s.requests[p].c !in s.inFlight && s.requests[p].c !in s.settling
    case Answered(p) => p in s.requests && s.requests[p].Running?
    case OperationFails(p) => p in s.requests && s.requests[p].Running?
    case ErrorEvent => true
    case SocketCloses(c) => true
    case Tick(delta) => true
  }

  function Disconnected(open: set<nat>, client: Option<nat>): set<nat> {
    if client.Some? then open - {client.value} else open
  }

  /** The `catch` of `safeRun` runs for request `p`. */
  function Fail(s: System, p: nat): System {
    s.(vars := Failed(s.vars, s.now), open := Disconnected(s.open, s.vars.client), requests := s.requests[p := Over])
  }

  function AfterBegin(s: System, p: nat, created: nat): System {
    var vars := AfterCall(s.vars, s.open, s.now, created);
    match Answer(s.vars, s.open, s.now, created)
    case Use(c) => s.(requests := s.requests[p := Running(c)])
    case Rejected => Fail(s, p)
    case Wait(c, isNew) =>
      var t := s.(vars := vars, requests := s.requests[p := Waiting(c)]);
      if isNew then t.(inFlight := t.inFlight + {c}, startedAt := t.startedAt[c := s.now]) else t
  }

  function Apply(s: System, a: Action): System
    requires Enabled(s, a)
  {
    match a
    case Begin(p, created) => AfterBegin(s, p, created)
    case ConnectOk(c) =>
      s.(vars := Connected(s.vars, c), open := s.open + {c}, inFlight := s.inFlight - {c},
         settling := s.settling + {c}, succeeded := s.succeeded + {c})
    case ConnectFails(c) =>
      s.(vars := NotedFailure(s.vars, s.now), inFlight := s.inFlight - {c},
         settling := s.settling + {c}, failedStarts := s.failedStarts + [s.startedAt[c]])
    case Finally(c) => s.(vars := Settled(s.vars), settling := s.settling - {c})
    case Resume(p) =>
      if s.requests[p].c in s.succeeded then s.(requests := s.requests[p := Running(s.requests[p].c)])
      else Fail(s, p)
    case Answered(p) => s.(requests := s.requests[p := Over])
    case OperationFails(p) => Fail(s, p)
    case ErrorEvent => s.(vars := NotedFailure(s.vars, s.now))
    case SocketCloses(c) => s.(open := s.open - {c})
    case Tick(delta) => s.(now := s.now + delta)
  }

  predicate Legal(s: System, run: seq<Action>)
    decreases |run|
  {
    run == [] || (Enabled(s, run[0]) && Legal(Apply(s, run[0]), run[1..]))
  }

  function Play(s: System, run: seq<Action>): System
    requires Legal(s, run)
    decreases |run|
  {
    if run == [] then s else Play(Apply(s, run[0]), run[1..])
  }

  predicate Init(s: System) {
    && s.vars == Vars(None, None, 0) && s.open == {} && s.inFlight == {} && s.settling == {}
    && s.succeeded == {} && s.startedAt == map[] && s.failedStarts == [] && s.requests == map[]
    && s.now >= COOLDOWN_MS
  }

  // ---------- One connect at a time, a cooldown apart ----------

  ghost predicate SpacedOut(times: seq<int>) {
    forall i :: 0 < i < |times| ==> times[i] >= times[i - 1] + COOLDOWN_MS
  }

  ghost predicate Inv(s: System) {
    // a connect that has not run its `finally` is the one in `connecting`
    && (forall c :: c in s.inFlight + s.settling ==> s.vars.connecting == Some(c))
    && (s.vars.connecting.Some? ==> s.vars.connecting.value in s.inFlight + s.settling)
    && s.inFlight !! s.settling
    && (forall c :: c in s.inFlight ==> c in s.startedAt && s.startedAt[c] <= s.now)
    && (forall c :: c in s.startedAt ==> s.startedAt[c] <= s.now)
    && s.vars.lastFailureAt <= s.now
    && SpacedOut(s.failedStarts)
    && (s.failedStarts != [] ==>
          var last := s.failedStarts[|s.failedStarts| - 1];
          last <= s.vars.lastFailureAt && forall c :: c in s.inFlight ==> s.startedAt[c] >= last + COOLDOWN_MS)
  }

  lemma ConnectFailsKeepsInv(s: System, c: nat)
    requires Inv(s) && Enabled(s, ConnectFails(c))
    ensures Inv(Apply(s, ConnectFails(c)))
  {
    var t := Apply(s, ConnectFails(c));
    assert t.failedStarts[..|s.failedStarts|] == s.failedStarts;
  }

  lemma BeginKeepsInv(s: System, p: nat, created: nat)
    requires Inv(s) && Enabled(s, Begin(p, created))
    ensures Inv(Apply(s, Begin(p, created)))
  {
    hide SpacedOut;
  }

  lemma StepKeepsInv(s: System, a: Action)
    requires Inv(s) && Enabled(s, a)
    ensures Inv(Apply(s, a))
  {
    if a.ConnectFails? {
      ConnectFailsKeepsInv(s, a.c);
    } else if a.Begin? {
      BeginKeepsInv(s, a.p, a.created);
    } else {
      hide SpacedOut, AfterBegin;
    }
  }

  lemma {:induction false} RunKeepsInv(s: System, run: seq<Action>)
    requires Inv(s) && Legal(s, run)
    ensures Inv(Play(s, run))
    decreases |run|
  {
    hide Inv, Enabled, Apply;
    if run != [] {
      StepKeepsInv(s, run[0]);
      RunKeepsInv(Apply(s, run[0]), run[1..]);
    }
  }

  lemma {:induction false} SpacedOutSpan(times: seq<int>, i: nat, j: nat)
    requires SpacedOut(times) && i <= j < |times|
    ensures times[j] - times[i] >= (j - i) * COOLDOWN_MS
    decreases j
  {
    if i < j {
      SpacedOutSpan(times, i, j - 1);
    }
  }

  /** In every run at most one connect is in flight, and `k` attempts that fail take at
      least `k - 1` cooldowns from the first start to the last. */
  lemma ReconnectDiscipline(s: System, run: seq<Action>, i: nat, j: nat)
    requires Init(s) && Legal(s, run)
    ensures var t := Play(s, run);
            && (forall c, d :: c in t.inFlight && d in t.inFlight ==> c == d)
            && (i <= j < |t.failedStarts| ==> t.failedStarts[j] - t.failedStarts[i] >= (j - i) * COOLDOWN_MS)
  {
    RunKeepsInv(s, run);
    var t := Play(s, run);
    if i <= j < |t.failedStarts| {
      SpacedOutSpan(t.failedStarts, i, j);
    }
  }

  // ---------- Every start against every failure before it ----------

  lemma {:induction false} PlayPrefix(s: System, run: seq<Action>, k: nat)
    requires Legal(s, run) && k <= |run|
    ensures Legal(s, run[..k])
    ensures k < |run| ==>
              && Enabled(Play(s, run[..k]), run[k]) && Legal(s, run[..k + 1])
              && Play(s, run[..k + 1]) == Apply(Play(s, run[..k]), run[k])
    decreases k
  {
    hide Enabled, Apply;
    if k > 0 {
      PlayPrefix(Apply(s, run[0]), run[1..], k - 1);
      assert run[..k][1..] == run[1..][..k - 1];
      assert k < |run| ==> run[..k + 1][1..] == run[1..][..k];
    } else if k < |run| {
      assert run[..1][1..] == [];
    }
  }

  /** The steps that record a failure. */
  predicate RecordsFailure(s: System, a: Action) {
    match a
    case Begin(_, created) => Answer(s.vars, s.open, s.now, created).Rejected?
    case ConnectFails(_) => true
    case OperationFails(_) => true
    case ErrorEvent => true
    case Resume(p) => p in s.requests && s.requests[p].Waiting? && s.requests[p].c !in s.succeeded
    case _ => false
  }

  lemma FailureIsRecorded(s: System, a: Action)
    requires Inv(s) && Enabled(s, a)
    ensures RecordsFailure(s, a) ==> Apply(s, a).vars.lastFailureAt == s.now
    ensures Apply(s, a).vars.lastFailureAt >= s.vars.lastFailureAt && Apply(s, a).now >= s.now
    ensures Apply(s, a).startedAt != s.startedAt ==> s.now - s.vars.lastFailureAt >= COOLDOWN_MS
  {
  }

  lemma {:induction false} FailureIsRemembered(s: System, run: seq<Action>, j: nat, k: nat)
    requires Inv(s) && Legal(s, run) && j < k <= |run|
    ensures Legal(s, run[..j]) && Legal(s, run[..k])
    ensures RecordsFailure(Play(s, run[..j]), run[j]) ==>
              Play(s, run[..k]).vars.lastFailureAt >= Play(s, run[..j]).now
    decreases k
  {
    hide Inv, Enabled, Apply, RecordsFailure;
    PlayPrefix(s, run, j);
    PlayPrefix(s, run, k - 1);
    RunKeepsInv(s, run[..k - 1]);
    FailureIsRecorded(Play(s, run[..k - 1]), run[k - 1]);
    if j < k - 1 {
      FailureIsRemembered(s, run, j, k - 1);
    }
  }

  /** In every run, a connect that starts does so at least a cooldown after every failure
      recorded before it: of a connect or an operation, an error event, or a rejection. */
  lemma StartsAreCooled(s: System, run: seq<Action>, j: nat, k: nat)
    requires Inv(s) && Legal(s, run) && j < k < |run|
    ensures Legal(s, run[..j]) && Legal(s, run[..k]) && Legal(s, run[..k + 1])
    ensures var before, t := Play(s, run[..j]), Play(s, run[..k]);
            RecordsFailure(before, run[j]) && Play(s, run[..k + 1]).startedAt != t.startedAt
            ==> t.now - before.now >= COOLDOWN_MS
  {
    hide Inv, Enabled, Apply, RecordsFailure;
    FailureIsRemembered(s, run, j, k);
    PlayPrefix(s, run, k);
    RunKeepsInv(s, run[..k]);
    FailureIsRecorded(Play(s, run[..k]), run[k]);
  }

  // ---------- A connection that was made is used ----------

  /** The steps after which the client does not have connection `c` any more. */
  predicate Drops(s: System, a: Action, c: nat) {
    match a
    case OperationFails(_) => true
    case Resume(p) => p in s.requests && s.requests[p].Waiting? && s.requests[p].c !in s.succeeded
    case SocketCloses(d) => d == c
    case _ => false
  }

  predicate NeverDropped(s: System, run: seq<Action>, c: nat)
    requires Legal(s, run)
    decreases |run|
  {
    run == [] || (!Drops(s, run[0], c) && NeverDropped(Apply(s, run[0]), run[1..], c))
  }

  ghost predicate HasConnection(s: System, c: nat) {
    Inv(s) && s.vars.client == Some(c) && c in s.open && s.inFlight == {}
  }

  lemma ConnectionStep(s: System, a: Action, c: nat)
    requires HasConnection(s, c) && Enabled(s, a) && !Drops(s, a, c)
    ensures HasConnection(Apply(s, a), c) && Apply(s, a).startedAt == s.startedAt
  {
    StepKeepsInv(s, a);
    hide Inv;
  }

  lemma {:induction false} ConnectionStays(s: System, run: seq<Action>, c: nat)
    requires HasConnection(s, c) && Legal(s, run) && NeverDropped(s, run, c)
    ensures HasConnection(Play(s, run), c) && Play(s, run).startedAt == s.startedAt
    decreases |run|
  {
    hide HasConnection, Enabled, Apply, Drops;
    if run != [] {
      ConnectionStep(s, run[0], c);
      ConnectionStays(Apply(s, run[0]), run[1..], c);
    }
  }

  /** After a connect has succeeded, and until a failing call drops the connection or its
      socket closes: every request gets exactly this connection, and no other connect starts. */
  lemma SuccessIsUsed(s: System, c: nat, run: seq<Action>)
    requires Inv(s) && Enabled(s, ConnectOk(c)) && Legal(Apply(s, ConnectOk(c)), run)
    requires NeverDropped(Apply(s, ConnectOk(c)), run, c)
    ensures var t := Play(Apply(s, ConnectOk(c)), run);
            && t.startedAt == s.startedAt && t.inFlight == {}
            && (forall now, created :: Answer(t.vars, t.open, now, created) == Use(c))
            && (forall p, created :: Enabled(t, Begin(p, created)) ==>
                  Apply(t, Begin(p, created)).requests[p] == Running(c))
  {
    hide Legal, Play, NeverDropped;
    StepKeepsInv(s, ConnectOk(c));
    assert HasConnection(Apply(s, ConnectOk(c)), c) by {
      OnlyOneInFlight(s, c);
    }
    ConnectionStays(Apply(s, ConnectOk(c)), run, c);
  }

  lemma OnlyOneInFlight(s: System, c: nat)
    requires Inv(s) && c in s.inFlight
    ensures s.inFlight - {c} == {}
  {
    assert forall d :: d in s.inFlight ==> s.vars.connecting == Some(d);
  }

  /** A failing call drops the connection for good: nobody gets it again. */
  lemma FailureDropsConnection(s: System, a: Action, c: nat, now: int, created: nat)
    requires Enabled(s, a) && s.vars.client == Some(c)
    requires a.OperationFails? || (a.Resume? && Drops(s, a, c))
    ensures var t := Apply(s, a);
            c !in t.open && Answer(t.vars, t.open, now, created) != Use(c)
  {
  }

  // ---------- The cooldown starts over with every request ----------

  /** Not connected, and not trying to: a client whose socket has closed counts, too. */
  predicate Down(s: System) {
    (s.vars.client.None? || s.vars.client.value !in s.open) && s.vars.connecting.None?
  }

  /** What starts the cooldown over while the client that was down at `s` stays down. */
  predicate StartsOver(s: System, a: Action) {
    match a
    case Begin(_, _) => true
    case OperationFails(_) => true
    case ErrorEvent => true
    case Resume(p) => p in s.requests && s.requests[p].Waiting? && s.requests[p].c !in s.succeeded
    case _ => false
  }

  function Elapsed(a: Action): nat {
    if a.Tick? then a.delta else 0
  }

  /** How long the cooldown has run at the end of `run`. */
  function Pause(s: System, run: seq<Action>): int {
    if run == [] then s.now - s.vars.lastFailureAt
    else
      var a := run[|run| - 1];
      if StartsOver(s, a) then 0 else Pause(s, run[..|run| - 1]) + Elapsed(a)
  }

  /** Some request comes after a pause of a whole cooldown. */
  predicate SomeRequestIsLate(s: System, run: seq<Action>) {
    exists k :: 0 <= k < |run| && LateRequest(s, run, k)
  }

  predicate LateRequest(s: System, run: seq<Action>, k: nat)
    requires k < |run|
  {
    run[k].Begin? && Pause(s, run[..k]) >= COOLDOWN_MS
  }

  /** What has not changed while the client stayed down. */
  ghost predicate StillDown(s: System, t: System, pause: int) {
    && Inv(t) && Down(t) && t.startedAt == s.startedAt && t.succeeded == s.succeeded
    && t.now - t.vars.lastFailureAt == pause
    && forall p :: p in t.requests && t.requests[p].Waiting? ==> p in s.requests && s.requests[p] == t.requests[p]
  }

  lemma StillDownStep(s: System, t: System, a: Action, pause: int)
    requires StillDown(s, t, pause) && Enabled(t, a)
    ensures a.Begin? && pause >= COOLDOWN_MS ==> Apply(t, a).startedAt != t.startedAt
    ensures !(a.Begin? && pause >= COOLDOWN_MS) ==>
              StillDown(s, Apply(t, a), if StartsOver(s, a) then 0 else pause + Elapsed(a))
  {
    StepKeepsInv(t, a);
    hide SpacedOut;
  }

  lemma {:induction false} StaysDown(s: System, run: seq<Action>, k: nat)
    requires Inv(s) && Down(s) && Legal(s, run) && k <= |run|
    requires forall j :: 0 <= j < k ==> !LateRequest(s, run, j)
    ensures Legal(s, run[..k]) && StillDown(s, Play(s, run[..k]), Pause(s, run[..k]))
    decreases k
  {
    hide Inv, Enabled, Apply, StartsOver;
    PlayPrefix(s, run, k);
    if k == 0 {
      assert run[..0] == [];
    } else {
      StaysDown(s, run, k - 1);
      PlayPrefix(s, run, k - 1);
      assert !LateRequest(s, run, k - 1);
      StillDownStep(s, Play(s, run[..k - 1]), run[k - 1], Pause(s, run[..k - 1]));
      assert run[..k][..k - 1] == run[..k - 1];
    }
  }

  lemma StepKeepsStarts(s: System, a: Action)
    requires Enabled(s, a)
    ensures s.startedAt.Keys <= Apply(s, a).startedAt.Keys
    ensures a.Begin? && Apply(s, a).startedAt != s.startedAt ==> a.created in Apply(s, a).startedAt && a.created !in s.startedAt
  {
  }

  lemma {:induction false} StartsStay(s: System, run: seq<Action>, k: nat)
    requires Legal(s, run) && k <= |run|
    ensures Legal(s, run[..k]) && Play(s, run[..k]).startedAt.Keys <= Play(s, run).startedAt.Keys
    decreases |run| - k
  {
    hide Enabled, Apply;
    PlayPrefix(s, run, k);
    if k < |run| {
      StepKeepsStarts(Play(s, run[..k]), run[k]);
      StartsStay(s, run, k + 1);
    } else {
      assert run[..k] == run;
    }
  }

  /** In every run from a client that is down, whatever else happens in it: a connect starts
      if and only if some request comes a whole cooldown after the last thing that starts
      the cooldown over, and every rejected request does. */
  lemma ReconnectsIffLate(s: System, run: seq<Action>)
    requires Inv(s) && Down(s) && Legal(s, run)
    ensures var t := Play(s, run);
            if SomeRequestIsLate(s, run) then t.startedAt != s.startedAt
            else t.startedAt == s.startedAt && Down(t)
  {
    hide Inv, Enabled, Apply, Pause, StartsOver;
    assert run[..|run|] == run;
    if SomeRequestIsLate(s, run) {
      var k := FirstLate(s, run);
      StaysDown(s, run, k);
      PlayPrefix(s, run, k);
      var t := Play(s, run[..k]);
      StillDownStep(s, t, run[k], Pause(s, run[..k]));
      StepKeepsStarts(t, run[k]);
      StartsStay(s, run, k + 1);
      assert run[k].created in Play(s, run).startedAt && run[k].created !in s.startedAt;
    } else {
      StaysDown(s, run, |run|);
    }
  }

  lemma FirstLate(s: System, run: seq<Action>) returns (k: nat)
    requires SomeRequestIsLate(s, run)
    ensures k < |run| && LateRequest(s, run, k) && forall j :: 0 <= j < k ==> !LateRequest(s, run, j)
  {
    hide LateRequest;
    k := 0;
    while !LateRequest(s, run, k)
      invariant k < |run| && forall j :: 0 <= j < k ==> !LateRequest(s, run, j)
      decreases |run| - k
    {
      k := k + 1;
    }
  }

  /** How long ago the last request came, or else the last failure. */
  function Gap(s: System, run: seq<Action>): int {
    if run == [] then s.now - s.vars.lastFailureAt
    else
      var a := run[|run| - 1];
      if a.Begin? then 0 else Gap(s, run[..|run| - 1]) + Elapsed(a)
  }

  lemma {:induction false} PauseWithinGap(s: System, run: seq<Action>)
    requires s.vars.lastFailureAt <= s.now
    ensures 0 <= Pause(s, run) <= Gap(s, run)
  {
    if run != [] {
      PauseWithinGap(s, run[..|run| - 1]);
    }
  }

  /** So a client that is down stays down while requests keep coming, each less than a
      cooldown after the one before, however long Redis has been back. */
  lemma SteadyTrafficStarves(s: System, run: seq<Action>)
    requires Inv(s) && Down(s) && Legal(s, run)
    requires forall k :: 0 <= k < |run| && run[k].Begin? ==> Gap(s, run[..k]) < COOLDOWN_MS
    ensures Play(s, run).startedAt == s.startedAt && Down(Play(s, run))
  {
    hide Gap, Pause, Enabled, Apply;
    forall k | 0 <= k < |run|
      ensures !LateRequest(s, run, k)
    {
      PauseWithinGap(s, run[..k]);
    }
    ReconnectsIffLate(s, run);
  }
}
