/**
 Connection admission, drain and restart as a step system: the accept loop, the
 handler goroutines, `main` with `Shutdown`, and the goroutine in `wg.Wait`.
 Every action is one atomic step of one of them; a run is any interleaving.
 */
module Admission {
  import opened Options
  import Disk
  import History
  import Replace

  /** What getPeerCredentials reported for an accepted connection. */
  datatype Peer = NoCredentials | Credentials(uid: nat)

  /** Where the accept loop stands. */
  datatype LoopPc =
    | Accepting               // blocked in AcceptUnix
    | Accepted(peer: Peer)    // has a connection, about to authorize it
    | Authorized(uid: nat)    // at the select on connSem
    | Holding(uid: nat)       // token taken, wg.Add(1) still to come
    | Counted(uid: nat)       // wg.Add(1) done, goroutine still to start
    | Returned

  /** Where a handler goroutine stands. `Replacing` and `Asking` occur in an
      update: the binary was replaced, then a restart was requested. */
  datatype HandlerPc = Running | Replacing | Asking | AfterDone | Gone

  /** What a successful update put in place: its release tag and the file. */
  datatype Installed = Installed(tag: string, file: Disk.File)

  datatype Handler = Handler(uid: nat, pc: HandlerPc) {
    predicate Live() { pc.Running? || pc.Replacing? || pc.Asking? }
    predicate Held() { pc.AfterDone? }  // wg.Done() ran, token not yet released
  }

  /** Where main stands: in its select, on the way into Shutdown, waiting for the
      drain with the listener closed, out of Shutdown, gone. */
  datatype MainPc = Serving | Stopping | Waiting | Drained | TimedOut | Exited

  datatype State = State(
    capacity: int, allowed: nat,
    version: string,                // compiled into the running binary
    binary: Option<Disk.File>,      // the file at the binary's path
    applied: seq<Installed>,        // successful updates, in order
    loop: LoopPc, handlers: seq<Handler>,
    tokens: int, wg: int,
    slot: int,                      // requests in restartChan
    main: MainPc, restarting: bool, // restartRequested
    zeroSeen: bool,                 // wg.Wait returned
    accepted: nat, refused: nat, busy: nat)

  /** server.New: a configured limit of zero or less means 100. */
  function Init(maxConnections: int, allowed: nat, version: string, binary: Option<Disk.File>): State {
    State(if maxConnections <= 0 then 100 else maxConnections, allowed, version, binary, [],
          Accepting, [], 0, 0, 0, Serving, false, false, 0, 0, 0)
  }

  datatype Action =
    | Accept(peer: Peer) | AcceptError | AcceptClosed
    | Refuse | Authorize | Acquire | Busy | AddOne | Spawn
    | Apply(i: nat, update: Installed) | Ask(i: nat) | MarkDone(i: nat) | Release(i: nat)
    | Signal | TakeRestart | CloseListener | SeeZero | ReportDrained | TimeOut | Exit

  predicate ListenerOpen(s: State) { s.main.Serving? || s.main.Stopping? }

  predicate Trusted(s: State, p: Peer) { p.Credentials? && p.uid == s.allowed }

  /** PerformUpdate replaces the binary only by a sound one of a newer release. */
  predicate Improves(version: string, u: Installed) {
    History.Offers(version, u.tag) && Replace.Sound(u.file)
  }

  predicate At(s: State, i: nat, pc: HandlerPc) { i < |s.handlers| && s.handlers[i].pc == pc }

  predicate Enabled(s: State, a: Action) {
    !s.main.Exited? &&
    match a
    case Accept(_) => s.loop.Accepting? && ListenerOpen(s)
    case AcceptError => s.loop.Accepting? && ListenerOpen(s)
    case AcceptClosed => s.loop.Accepting? && !ListenerOpen(s)
    case Refuse => s.loop.Accepted? && !Trusted(s, s.loop.peer)
    case Authorize => s.loop.Accepted? && Trusted(s, s.loop.peer)
    case Acquire => s.loop.Authorized? && s.tokens < s.capacity
    case Busy => s.loop.Authorized? && s.tokens >= s.capacity
    case AddOne => s.loop.Holding?
    case Spawn => s.loop.Counted?
    case Apply(i, u) => At(s, i, Running) && Improves(s.version, u)
    case Ask(i) => At(s, i, Replacing)
    case MarkDone(i) => At(s, i, Running) || At(s, i, Asking)
    case Release(i) => At(s, i, AfterDone) && s.tokens > 0  // a receive waits for an element
    case Signal => s.main.Serving?
    case TakeRestart => s.main.Serving? && s.slot > 0
    case CloseListener => s.main.Stopping?
    case SeeZero => s.main.Waiting? && s.wg == 0 && !s.zeroSeen
    case ReportDrained => s.main.Waiting? && s.zeroSeen
    case TimeOut => s.main.Waiting?
    case Exit => s.main.Drained? || s.main.TimedOut?
  }

  function Fire(s: State, a: Action): State
    requires Enabled(s, a)
  {
    match a
    case Accept(p) => s.(loop := Accepted(p), accepted := s.accepted + 1)
    case AcceptError => s
    case AcceptClosed => s.(loop := Returned)
    case Refuse => s.(loop := Accepting, refused := s.refused + 1)
    case Authorize => s.(loop := Authorized(s.loop.peer.uid))
    case Acquire => s.(loop := Holding(s.loop.uid), tokens := s.tokens + 1)
    case Busy => s.(loop := Accepting, busy := s.busy + 1)
    case AddOne => s.(loop := Counted(s.loop.uid), wg := s.wg + 1)
    case Spawn => s.(loop := Accepting, handlers := s.handlers + [Handler(s.loop.uid, Running)])
    case Apply(i, u) => s.(handlers := s.handlers[i := s.handlers[i].(pc := Replacing)],
                           applied := s.applied + [u], binary := Some(u.file))
    case Ask(i) => s.(handlers := s.handlers[i := s.handlers[i].(pc := Asking)],
                      slot := if s.slot < 1 then s.slot + 1 else s.slot)
    case MarkDone(i) => s.(handlers := s.handlers[i := s.handlers[i].(pc := AfterDone)], wg := s.wg - 1)
    case Release(i) => s.(handlers := s.handlers[i := s.handlers[i].(pc := Gone)], tokens := s.tokens - 1)
    case Signal => s.(main := Stopping)
    case TakeRestart => s.(main := Stopping, slot := s.slot - 1, restarting := true)
    case CloseListener => s.(main := Waiting)
    case SeeZero => s.(zeroSeen := true)
    case ReportDrained => s.(main := Drained)
    case TimeOut => s.(main := TimedOut)
    case Exit => s.(main := Exited)
  }

  lemma PlainKeeps(s: State, a: Action)
    requires Enabled(s, a) && !a.Apply?
    ensures var s' := Fire(s, a);
            && s'.capacity == s.capacity && s'.allowed == s.allowed && s'.version == s.version
            && s'.binary == s.binary && s'.applied == s.applied
  {
  }

  predicate Legal(s: State, run: seq<Action>)
    decreases |run|
  {
    run == [] || (Enabled(s, run[0]) && Legal(Fire(s, run[0]), run[1..]))
  }

  function End(s: State, run: seq<Action>): State
    requires Legal(s, run)
    decreases |run|
  {
    if run == [] then s else End(Fire(s, run[0]), run[1..])
  }

  // ----- counting handlers

  function LiveCount(hs: seq<Handler>): (n: nat)
    ensures n <= |hs|
  {
    if hs == [] then 0 else (if hs[0].Live() then 1 else 0) + LiveCount(hs[1..])
  }

  function HeldCount(hs: seq<Handler>): (n: nat)
    ensures n <= |hs|
  {
    if hs == [] then 0 else (if hs[0].Held() then 1 else 0) + HeldCount(hs[1..])
  }

  lemma {:induction false} CountsSet(hs: seq<Handler>, i: nat, h: Handler)
    requires i < |hs|
    ensures LiveCount(hs[i := h]) == LiveCount(hs) - (if hs[i].Live() then 1 else 0) + (if h.Live() then 1 else 0)
    ensures HeldCount(hs[i := h]) == HeldCount(hs) - (if hs[i].Held() then 1 else 0) + (if h.Held() then 1 else 0)
  {
    if i == 0 {
      assert hs[i := h][1..] == hs[1..];
    } else {
      assert hs[i := h][1..] == hs[1..][i - 1 := h];
      CountsSet(hs[1..], i - 1, h);
    }
  }

  lemma {:induction false} CountsSnoc(hs: seq<Handler>, h: Handler)
    ensures LiveCount(hs + [h]) == LiveCount(hs) + (if h.Live() then 1 else 0)
    ensures HeldCount(hs + [h]) == HeldCount(hs) + (if h.Held() then 1 else 0)
  {
    if hs == [] {
      assert hs + [h] == [h];
    } else {
      assert (hs + [h])[1..] == hs[1..] + [h];
      CountsSnoc(hs[1..], h);
    }
  }

  lemma {:induction false} CountsAt(hs: seq<Handler>, i: nat)
    requires i < |hs|
    ensures hs[i].Live() ==> LiveCount(hs) >= 1
    ensures hs[i].Held() ==> HeldCount(hs) >= 1
  {
    if i > 0 { CountsAt(hs[1..], i - 1); }
  }

  lemma {:induction false} SomeHeld(hs: seq<Handler>) returns (i: nat)
    requires HeldCount(hs) > 0
    ensures i < |hs| && hs[i].Held()
  {
    if hs[0].Held() {
      i := 0;
    } else {
      var j := SomeHeld(hs[1..]);
      i := j + 1;
    }
  }

  // ----- the invariant

  predicate InHand(l: LoopPc) { l.Accepted? || l.Authorized? || l.Holding? || l.Counted? }

  function One(b: bool): nat { if b then 1 else 0 }

  ghost predicate Accounts(s: State) {
    && s.wg == LiveCount(s.handlers) + One(s.loop.Counted?)
    && s.tokens == s.wg + HeldCount(s.handlers) + One(s.loop.Holding?)
    && s.tokens <= s.capacity && 1 <= s.capacity
    && s.accepted == |s.handlers| + s.refused + s.busy + One(InHand(s.loop))
  }

  ghost predicate OnlyAllowed(s: State) {
    && (forall i | 0 <= i < |s.handlers| :: s.handlers[i].uid == s.allowed)
    && (s.loop.Authorized? || s.loop.Holding? || s.loop.Counted? ==> s.loop.uid == s.allowed)
  }

  /** The binary is what the last successful update put there, and each one was an
      improvement. */
  ghost predicate Installs(version: string, binary: Option<Disk.File>, applied: seq<Installed>) {
    && (applied != [] ==> binary == Some(applied[|applied| - 1].file))
    && (forall u | u in applied :: Improves(version, u))
  }

  ghost predicate RestartBacked(s: State) {
    && 0 <= s.slot <= 1
    && (forall i | 0 <= i < |s.handlers| :: s.handlers[i].pc in {Replacing, Asking} ==> s.applied != [])
    && (s.slot == 1 || s.restarting ==> s.applied != [])
    && Installs(s.version, s.binary, s.applied)
    && (s.restarting ==> !s.main.Serving?)
    && (s.zeroSeen || s.loop.Returned? ==> !ListenerOpen(s))
  }

  ghost predicate Inv(s: State) { Accounts(s) && OnlyAllowed(s) && RestartBacked(s) }

  lemma InitOk(maxConnections: int, allowed: nat, version: string, binary: Option<Disk.File>)
    ensures Inv(Init(maxConnections, allowed, version, binary))
  {
  }

  /** The steps that change a handler. */
  predicate MovesHandler(a: Action) { a.Apply? || a.Ask? || a.MarkDone? || a.Release? }

  lemma HandlerAccounts(s: State, a: Action)
    requires Accounts(s) && Enabled(s, a) && MovesHandler(a)
    ensures Accounts(Fire(s, a))
  {
    CountsSet(s.handlers, a.i, Fire(s, a).handlers[a.i]);
  }

  lemma SpawnAccounts(s: State)
    requires Accounts(s) && Enabled(s, Spawn)
    ensures Accounts(Fire(s, Spawn))
  {
    CountsSnoc(s.handlers, Handler(s.loop.uid, Running));
  }

  lemma OtherAccounts(s: State, a: Action)
    requires Accounts(s) && Enabled(s, a) && !MovesHandler(a) && !a.Spawn?
    ensures Accounts(Fire(s, a))
  {
  }

  lemma AccountsStep(s: State, a: Action)
    requires Accounts(s) && Enabled(s, a)
    ensures Accounts(Fire(s, a))
  {
    if MovesHandler(a) {
      HandlerAccounts(s, a);
    } else if a.Spawn? {
      SpawnAccounts(s);
    } else {
      OtherAccounts(s, a);
    }
  }

  lemma InstallsMore(version: string, binary: Option<Disk.File>, applied: seq<Installed>, u: Installed)
    requires Installs(version, binary, applied) && Improves(version, u)
    ensures Installs(version, Some(u.file), applied + [u])
  {
  }

  lemma RestartBackedStep(s: State, a: Action)
    requires RestartBacked(s) && Enabled(s, a)
    ensures RestartBacked(Fire(s, a))
  {
    if a.Apply? { InstallsMore(s.version, s.binary, s.applied, a.update); } else { PlainKeeps(s, a); }
  }

  lemma OnlyAllowedStep(s: State, a: Action)
    requires OnlyAllowed(s) && Enabled(s, a)
    ensures OnlyAllowed(Fire(s, a))
  {
  }

  lemma InvStep(s: State, a: Action)
    requires Inv(s) && Enabled(s, a)
    ensures Inv(Fire(s, a))
  {
    AccountsStep(s, a);
    OnlyAllowedStep(s, a);
    RestartBackedStep(s, a);
  }

  lemma {:induction false} InvRun(s: State, run: seq<Action>)
    requires Inv(s) && Legal(s, run)
    ensures Inv(End(s, run))
    decreases |run|
  {
    if run != [] {
      InvStep(s, run[0]);
      InvRun(Fire(s, run[0]), run[1..]);
    }
  }

  /** In every reachable state: the tokens are exactly the counted handlers, those
      between Done and release, and the loop's own; so the limits hold, every
      handler serves the allowed user, and each accepted connection is accounted
      for. */
  lemma Admitted(maxConnections: int, allowed: nat, version: string, binary: Option<Disk.File>, run: seq<Action>)
    requires Legal(Init(maxConnections, allowed, version, binary), run)
    ensures var s := End(Init(maxConnections, allowed, version, binary), run);
            && Inv(s)
            && LiveCount(s.handlers) <= s.wg <= s.tokens <= s.capacity
            && s.capacity == (if maxConnections <= 0 then 100 else maxConnections)
            && s.allowed == allowed
            && (forall h | h in s.handlers :: h.uid == allowed)
  {
    InvRun(Init(maxConnections, allowed, version, binary), run);
    FixedRun(Init(maxConnections, allowed, version, binary), run);
  }

  lemma {:induction false} FixedRun(s: State, run: seq<Action>)
    requires Legal(s, run)
    ensures End(s, run).capacity == s.capacity && End(s, run).allowed == s.allowed && End(s, run).version == s.version
    decreases |run|
  {
    if run != [] { FixedRun(Fire(s, run[0]), run[1..]); }
  }

  /** "Server at maximum capacity" is answered only while handlers hold every
      token; some of them may already be past their work. */
  lemma BusyOnlyWhenFull(s: State)
    requires Inv(s) && Enabled(s, Busy)
    ensures LiveCount(s.handlers) + HeldCount(s.handlers) == s.capacity
  {
  }

  /** wg.Done never takes the counter below zero, and the deferred receive on
      connSem never waits. */
  lemma DefersAreSafe(s: State, i: nat)
    requires Inv(s) && i < |s.handlers|
    ensures s.handlers[i].Live() ==> s.wg > 0
    ensures s.handlers[i].Held() && !s.main.Exited? ==> Enabled(s, Release(i))
  {
    CountsAt(s.handlers, i);
  }

  /** No token and no count is lost: once every handler has let go and the loop is
      between connections, both are back to zero. */
  lemma NothingLeaks(s: State)
    requires Inv(s) && forall h | h in s.handlers :: h.pc.Gone?
    ensures s.tokens == One(s.loop.Holding? || s.loop.Counted?) && s.wg == One(s.loop.Counted?)
  {
    AllGone(s.handlers);
  }

  lemma {:induction false} AllGone(hs: seq<Handler>)
    requires forall h | h in hs :: h.pc.Gone?
    ensures LiveCount(hs) == 0 && HeldCount(hs) == 0
  {
    if hs != [] {
      assert hs[0] in hs && forall h | h in hs[1..] :: h in hs;
      AllGone(hs[1..]);
    }
  }

  // ----- draining

  lemma {:induction false} ClosedStaysClosed(s: State, run: seq<Action>)
    requires !ListenerOpen(s) && Legal(s, run)
    ensures !ListenerOpen(End(s, run))
    decreases |run|
  {
    if run != [] { ClosedStaysClosed(Fire(s, run[0]), run[1..]); }
  }

  /** After the listener is closed at most one more handler starts: the one for
      the connection the loop has in hand. */
  lemma {:induction false} AtMostOneMore(s: State, run: seq<Action>)
    requires !ListenerOpen(s) && Legal(s, run)
    ensures |s.handlers| <= |End(s, run).handlers| <= |s.handlers| + One(InHand(s.loop))
    decreases |run|
  {
    if run != [] { AtMostOneMore(Fire(s, run[0]), run[1..]); }
  }

  /** Once the loop has returned, the number of live handlers never grows. */
  lemma {:induction false} ReturnedOnlyShrinks(s: State, run: seq<Action>)
    requires s.loop.Returned? && Legal(s, run)
    ensures End(s, run).loop.Returned? && LiveCount(End(s, run).handlers) <= LiveCount(s.handlers)
    decreases |run|
  {
    if run != [] {
      var a := run[0];
      if a.Apply? || a.Ask? || a.MarkDone? || a.Release? {
        CountsSet(s.handlers, a.i, Fire(s, a).handlers[a.i]);
      }
      ReturnedOnlyShrinks(Fire(s, a), run[1..]);
    }
  }

  /** The connection in the loop's hand will still get a handler. */
  predicate MayStillStart(s: State) {
    (s.loop.Accepted? && Trusted(s, s.loop.peer)) || s.loop.Authorized? || s.loop.Holding?
  }

  lemma {:induction false} IdleStaysIdle(s: State, run: seq<Action>)
    requires Inv(s) && !ListenerOpen(s) && s.wg == 0 && !MayStillStart(s) && Legal(s, run)
    ensures LiveCount(End(s, run).handlers) == 0
    decreases |run|
  {
    if run != [] {
      InvStep(s, run[0]);
      if run[0].Apply? || run[0].Ask? || run[0].MarkDone? { CountsAt(s.handlers, run[0].i); }
      IdleStaysIdle(Fire(s, run[0]), run[1..]);
    }
  }

  lemma OneStep(s: State, a: Action)
    requires Enabled(s, a)
    ensures Legal(s, [a]) && End(s, [a]) == Fire(s, a)
  {
    var run := [a];
    assert run[0] == a && run[1..] == [];
    assert Legal(Fire(s, a), run[1..]);
  }

  lemma Extend(s: State, run: seq<Action>, a: Action)
    requires Legal(s, run) && Enabled(End(s, run), a)
    ensures Legal(s, run + [a]) && End(s, run + [a]) == Fire(End(s, run), a)
  {
    OneStep(End(s, run), a);
    Append(s, run, [a]);
  }

  lemma Prepend(s: State, a: Action, run: seq<Action>)
    requires Enabled(s, a) && Legal(Fire(s, a), run)
    ensures Legal(s, [a] + run) && End(s, [a] + run) == End(Fire(s, a), run)
  {
    assert ([a] + run)[1..] == run;
  }

  /** From a closed listener and an empty wait group, a way to one more handler. */
  lemma {:induction false} OneMoreStarts(s: State) returns (run: seq<Action>)
    requires Inv(s) && s.wg == 0 && MayStillStart(s) && !s.main.Exited?
    ensures Legal(s, run) && LiveCount(End(s, run).handlers) > 0
    decreases if s.loop.Accepted? then 3 else if s.loop.Authorized? then 2 else 1, s.tokens
  {
    var a;
    if s.loop.Accepted? {
      a := Authorize;
    } else if s.loop.Holding? {
      var s1 := Fire(s, AddOne);
      var s2 := Fire(s1, Spawn);
      InvStep(s, AddOne);
      InvStep(s1, Spawn);
      assert Legal(s2, []);
      Prepend(s1, Spawn, []);
      Prepend(s, AddOne, [Spawn] + []);
      return [AddOne] + ([Spawn] + []);
    } else if s.tokens < s.capacity {
      a := Acquire;
    } else {
      var i := SomeHeld(s.handlers);
      a := Release(i);
    }
    InvStep(s, a);
    var rest := OneMoreStarts(Fire(s, a));
    Prepend(s, a, rest);
    run := [a] + rest;
  }

  /** What the drain is worth. At a closed listener and an empty wait group, a
      handler can run later exactly if the loop still has an admissible connection
      in hand that it has not counted yet. */
  lemma QuietExactly(s: State)
    requires Inv(s) && !ListenerOpen(s) && !s.main.Exited? && s.wg == 0
    ensures (exists run :: Legal(s, run) && LiveCount(End(s, run).handlers) > 0) <==> MayStillStart(s)
  {
    if MayStillStart(s) {
      var run := OneMoreStarts(s);
      assert Legal(s, run) && LiveCount(End(s, run).handlers) > 0;
    } else {
      forall run | Legal(s, run) ensures LiveCount(End(s, run).handlers) == 0 {
        IdleStaysIdle(s, run);
      }
    }
  }

  /** In any run, at the moment wg.Wait sees zero: a handler can run later exactly if
      the loop has such a connection in hand. */
  lemma DrainedExactly(start: State, run: seq<Action>)
    requires Inv(start) && Legal(start, run) && Enabled(End(start, run), SeeZero)
    ensures var s := Fire(End(start, run), SeeZero);
            (exists more :: Legal(s, more) && LiveCount(End(s, more).handlers) > 0) <==> MayStillStart(s)
  {
    InvRun(start, run);
    InvStep(End(start, run), SeeZero);
    QuietExactly(Fire(End(start, run), SeeZero));
  }

  /** In particular: if the loop has returned when wg.Wait sees zero, no handler runs
      from then on. */
  lemma ReturnedThenDrained(start: State, run: seq<Action>, more: seq<Action>)
    requires Inv(start) && Legal(start, run) && End(start, run).loop.Returned? && Enabled(End(start, run), SeeZero)
    requires Legal(Fire(End(start, run), SeeZero), more)
    ensures LiveCount(End(Fire(End(start, run), SeeZero), more).handlers) == 0
  {
    InvRun(start, run);
    InvStep(End(start, run), SeeZero);
    IdleStaysIdle(Fire(End(start, run), SeeZero), more);
  }

  /** A fresh server with room for one connection. */
  function Fresh(uid: nat): State { Init(1, uid, "1", None) }

  lemma ToDrained(uid: nat) returns (run: seq<Action>)
    ensures Legal(Fresh(uid), run)
    ensures End(Fresh(uid), run) == Fresh(uid).(accepted := 1, loop := Accepted(Credentials(uid)), main := Drained, zeroSeen := true)
  {
    var s := Fresh(uid);
    run := [];
    Extend(s, run, Accept(Credentials(uid)));
    run := run + [Accept(Credentials(uid))];
    Extend(s, run, Signal);
    run := run + [Signal];
    Extend(s, run, CloseListener);
    run := run + [CloseListener];
    Extend(s, run, SeeZero);
    run := run + [SeeZero];
    Extend(s, run, ReportDrained);
    run := run + [ReportDrained];
  }

  lemma {:induction false} Append(s: State, r1: seq<Action>, r2: seq<Action>)
    requires Legal(s, r1) && Legal(End(s, r1), r2)
    ensures Legal(s, r1 + r2) && End(s, r1 + r2) == End(End(s, r1), r2)
    decreases |r1|
  {
    if r1 == [] {
      assert r1 + r2 == r2;
    } else {
      assert (r1 + r2)[1..] == r1[1..] + r2;
      Append(Fire(s, r1[0]), r1[1..], r2);
    }
  }

  /** And the other case occurs: a connection accepted just before the listener
      closes is started after "drained" was reported. */
  lemma DrainedThenStarted(uid: nat) returns (before: seq<Action>, after: seq<Action>)
    ensures Legal(Fresh(uid), before) && End(Fresh(uid), before).main.Drained?
    ensures LiveCount(End(Fresh(uid), before).handlers) == 0
    ensures Legal(Fresh(uid), before + after) && LiveCount(End(Fresh(uid), before + after).handlers) > 0
  {
    before := ToDrained(uid);
    InvRun(Fresh(uid), before);
    after := OneMoreStarts(End(Fresh(uid), before));
    Append(Fresh(uid), before, after);
  }

  // ----- restart

  /** The slot never holds two requests, and asking never waits. */
  lemma AskNeverWaits(s: State, i: nat)
    requires RestartBacked(s) && At(s, i, Replacing) && !s.main.Exited?
    ensures Enabled(s, Ask(i)) && Fire(s, Ask(i)).slot == 1
  {
  }

  /** The binary on the disk is what the last successful update put there. */
  ghost predicate Updated(s: State) {
    s.applied != [] && (var u := s.applied[|s.applied| - 1]; s.binary == Some(u.file) && Improves(s.version, u))
  }

  /** In every reachable state with a pending or taken restart, the binary on the
      disk is what the last successful update put there: sound, and of a release
      newer than the running version. */
  lemma RestartNeedsReplacement(start: State, run: seq<Action>)
    requires Inv(start) && Legal(start, run)
    ensures var s := End(start, run);
            && s.version == start.version && 0 <= s.slot <= 1
            && (s.restarting || s.slot > 0 ==> Updated(s))
  {
    InvRun(start, run);
    FixedRun(start, run);
  }

  /** A run to the restart branch, for any update that may be applied. */
  lemma RestartHappens(uid: nat, version: string, u: Installed) returns (run: seq<Action>)
    requires Improves(version, u)
    ensures Legal(Init(1, uid, version, None), run)
    ensures End(Init(1, uid, version, None), run).restarting && End(Init(1, uid, version, None), run).applied == [u]
  {
    var s := Init(1, uid, version, None);
    run := ToRunning(uid, version);
    Extend(s, run, Apply(0, u));
    run := run + [Apply(0, u)];
    Extend(s, run, Ask(0));
    run := run + [Ask(0)];
    Extend(s, run, TakeRestart);
    run := run + [TakeRestart];
  }

  lemma ToRunning(uid: nat, version: string) returns (run: seq<Action>)
    ensures var s := Init(1, uid, version, None);
            Legal(s, run) && End(s, run) == s.(accepted := 1, handlers := [Handler(uid, Running)], tokens := 1, wg := 1)
  {
    var s := Init(1, uid, version, None);
    run := [];
    Extend(s, run, Accept(Credentials(uid)));
    run := run + [Accept(Credentials(uid))];
    Extend(s, run, Authorize);
    run := run + [Authorize];
    Extend(s, run, Acquire);
    run := run + [Acquire];
    Extend(s, run, AddOne);
    run := run + [AddOne];
    Extend(s, run, Spawn);
    run := run + [Spawn];
  }

  /** The binary changes only by updates: it is the first one, or the last applied. */
  lemma {:induction false} BinaryIsLast(s: State, run: seq<Action>)
    requires Legal(s, run)
    ensures var s' := End(s, run);
            && s.applied <= s'.applied
            && s'.binary == if s'.applied == s.applied then s.binary else Some(s'.applied[|s'.applied| - 1].file)
    decreases |run|
  {
    if run != [] { BinaryIsLast(Fire(s, run[0]), run[1..]); }
  }

  /** From a start without updates: the binary is the first one, or the sound file that
      the last update put in place. */
  lemma LatestBinary(s: State, run: seq<Action>)
    requires Inv(s) && Legal(s, run) && s.applied == []
    ensures var s' := End(s, run);
            if s'.applied == [] then s'.binary == s.binary
            else s'.binary == Some(s'.applied[|s'.applied| - 1].file) && Replace.Sound(s'.applied[|s'.applied| - 1].file)
  {
    InvRun(s, run);
    BinaryIsLast(s, run);
    LastImproves(End(s, run));
  }

  lemma LastImproves(s: State)
    requires RestartBacked(s)
    ensures s.applied != [] ==> Replace.Sound(s.applied[|s.applied| - 1].file)
  {
    if s.applied != [] { assert s.applied[|s.applied| - 1] in s.applied; }
  }

  /** The successful updates of a run, in order. */
  function Applies(run: seq<Action>): seq<Installed> {
    if run == [] then [] else (if run[0].Apply? then [run[0].update] else []) + Applies(run[1..])
  }

  lemma {:induction false} AppliedAre(s: State, run: seq<Action>)
    requires Legal(s, run)
    ensures End(s, run).applied == s.applied + Applies(run)
    decreases |run|
  {
    if run == [] {
      assert s.applied + [] == s.applied;
    } else {
      AppliedAre(Fire(s, run[0]), run[1..]);
      AppliedFirst(s, run[0], Applies(run[1..]));
    }
  }

  lemma AppliedFirst(s: State, a: Action, rest: seq<Installed>)
    requires Enabled(s, a)
    ensures Fire(s, a).applied + rest == s.applied + ((if a.Apply? then [a.update] else []) + rest)
  {
    if a.Apply? { assert s.applied + [a.update] + rest == s.applied + ([a.update] + rest); } else { PlainKeeps(s, a); }
  }
}
