/** A command's streaming neither deadlocks nor runs forever. */
module Progress {
  import opened Streaming
  import Executor

  function MainRank(m: MainPc): nat {
    match m
    case Starting => 5
    case Joining => 4
    case Waiting => 3
    case Closing(_) => 2
    case Answering(_) => 1
    case Finished => 0
  }

  function PumpRank(p: PumpPc): nat {
    match p
    case Idle => 4
    case Ready(_, _) => 3
    case Sending(_, _) => 2
    case Reading => 1
    case Joined => 0
  }

  function Unread(s: State): nat { |s.out.rest| + |s.err.rest| }

  function Pumping(s: State): nat { PumpRank(s.out.pc) + PumpRank(s.err.pc) }

  function Unsent(s: State): nat {
    if s.ch.lock.Held? && !s.ch.broken && s.ch.sent <= |s.ch.lock.line| then |s.ch.lock.line| - s.ch.sent else 0
  }

  predicate Ahead(s': State, s: State) {
    var (m, m') := (MainRank(s.main), MainRank(s'.main));
    m' < m || (m' == m && (Unread(s') < Unread(s) || (Unread(s') == Unread(s) && Pumping(s') < Pumping(s))))
  }

  predicate Level(s': State, s: State) {
    MainRank(s'.main) == MainRank(s.main) && Unread(s') == Unread(s) && Pumping(s') == Pumping(s)
  }

  /** s' is lexicographically below s. */
  predicate Below(s': State, s: State) {
    Ahead(s', s) || (Level(s', s) && Unsent(s') < Unsent(s))
  }

  /** The actions that change nothing a run is after. */
  predicate Stutters(a: Action) {
    a.Cancel? || (a.ReadOut? && a.n == 0 && !a.last) || (a.ReadErr? && a.n == 0 && !a.last)
  }

  /** The pump that holds the mutex is sending, and the handler that holds it is
      answering, so leaving it is progress. */
  lemma ReturnDescends(s: State, c: Channel)
    requires Guards(s) && MainOk(s) && s.ch.lock.Held?
    ensures Below(Return(s, c), s)
  {
  }

  lemma ReadDescends(p: Pump, n: nat, last: bool)
    requires CanRead(p, n) && (n > 0 || last)
    ensures var p' := Read(p, n, last); |p'.rest| < |p.rest| || (p'.rest == p.rest && PumpRank(p'.pc) < PumpRank(p.pc))
  {
  }

  lemma PutDescends(s: State, n: nat)
    requires Enabled(s, Put(n))
    ensures Below(Fire(s, Put(n)), s)
  {
    var s' := Fire(s, Put(n));
    assert s'.out == s.out && s'.err == s.err && s'.main == s.main;
    assert s'.ch.sent == s.ch.sent + n && s'.ch.lock == s.ch.lock;
  }

  lemma HandlerDescends(s: State, a: Action)
    requires Enabled(s, a) && (a.Start? || a.StartFails? || a.Join? || a.WaitReturns? || a.TakeMain?)
    ensures Ahead(Fire(s, a), s)
  {
    assert MainRank(Fire(s, a).main) < MainRank(s.main);
  }

  lemma TakePumps(s: State, a: Action)
    requires Enabled(s, a) && (a.TakeOut? || a.TakeErr?)
    ensures Fire(s, a).out == (if a.TakeOut? then Enter(s.out) else s.out)
    ensures Fire(s, a).err == (if a.TakeErr? then Enter(s.err) else s.err)
    ensures Fire(s, a).main == s.main
  {
  }

  lemma TakeDescends(s: State, a: Action)
    requires Enabled(s, a) && (a.TakeOut? || a.TakeErr?)
    ensures Ahead(Fire(s, a), s)
  {
    TakePumps(s, a);
  }

  lemma PullDescends(s: State, a: Action)
    requires Enabled(s, a) && (a.ReadOut? || a.ReadErr?) && !Stutters(a)
    ensures Below(Fire(s, a), s)
  {
    if a.ReadOut? { ReadDescends(s.out, a.n, a.last); } else { ReadDescends(s.err, a.n, a.last); }
  }

  /** Every other action descends, whatever the scheduler picks, so no run goes on
      forever once the pipes are exhausted. */
  lemma StepDescends(s: State, a: Action)
    requires Guards(s) && MainOk(s) && Enabled(s, a) && !Stutters(a)
    ensures Below(Fire(s, a), s)
  {
    if a.ReadOut? || a.ReadErr? {
      PullDescends(s, a);
    } else if a.TakeOut? || a.TakeErr? {
      TakeDescends(s, a);
    } else if a.Put? {
      PutDescends(s, a.n);
    } else if a.PutFails? || a.Unlock? {
      ReturnDescends(s, NextChannel(s, a));
      CancelKeeps(Return(s, NextChannel(s, a)), s);
    } else {
      HandlerDescends(s, a);
    }
  }

  lemma CancelKeeps(s': State, s: State)
    requires Below(s', s)
    ensures Below(s'.(cancelled := true), s)
  {
  }

  lemma BelowTransitive(a: State, b: State, c: State)
    requires Below(a, b) && Below(b, c)
    ensures Below(a, c)
  {
  }

  /** So does every run of such actions. */
  lemma {:induction false} RunDescends(s: State, run: seq<Action>, stdout: string, stderr: string)
    requires Inv(s, stdout, stderr) && Legal(s, run) && run != [] && forall a | a in run :: !Stutters(a)
    ensures Inv(End(s, run), stdout, stderr) && Below(End(s, run), s)
    decreases |run|
  {
    var a, rest := run[0], run[1..];
    StepDescends(s, a);
    InvStep(s, a, stdout, stderr);
    if rest != [] {
      RunDescends(Fire(s, a), rest, stdout, stderr);
      BelowTransitive(End(s, run), Fire(s, a), s);
    }
  }

  // ----- runs without end

  /** An infinite run. */
  ghost predicate Forever(path: nat -> State, acts: nat -> Action) {
    forall i: nat :: Enabled(path(i), acts(i)) && path(i + 1) == Fire(path(i), acts(i))
  }

  lemma StutterKeeps(s: State, a: Action)
    requires Enabled(s, a) && Stutters(a)
    ensures var s' := Fire(s, a);
            Level(s', s) && Unsent(s') == Unsent(s)
  {
  }

  lemma {:induction false} InvForever(path: nat -> State, acts: nat -> Action, stdout: string, stderr: string, i: nat)
    requires Forever(path, acts) && Inv(path(0), stdout, stderr)
    ensures Inv(path(i), stdout, stderr)
  {
    if i > 0 {
      InvForever(path, acts, stdout, stderr, i - 1);
      InvStep(path(i - 1), acts(i - 1), stdout, stderr);
    }
  }

  lemma {:induction false} StutterFor(path: nat -> State, acts: nat -> Action, i: nat, j: nat)
    requires Forever(path, acts) && i <= j && forall k: nat | i <= k < j :: Stutters(acts(k))
    ensures Level(path(j), path(i)) && Unsent(path(j)) == Unsent(path(i))
    decreases j - i
  {
    if i < j {
      StutterFor(path, acts, i, j - 1);
      StutterKeeps(path(j - 1), acts(j - 1));
    }
  }

  /** The first action from i on that changes something, not after j. */
  lemma {:induction false} FirstReal(acts: nat -> Action, i: nat, j: nat) returns (k: nat)
    requires i <= j && !Stutters(acts(j))
    ensures i <= k <= j && !Stutters(acts(k)) && forall l: nat | i <= l < k :: Stutters(acts(l))
    decreases j - i
  {
    if !Stutters(acts(i)) {
      k := i;
    } else {
      k := FirstReal(acts, i + 1, j);
    }
  }

  /** Whatever the scheduler does, an infinite run ends in nothing but empty reads
      and cancellations: only finitely many of its actions change anything. */
  lemma {:induction false} SettlesFrom(path: nat -> State, acts: nat -> Action, stdout: string, stderr: string, i: nat) returns (n: nat)
    requires Forever(path, acts) && Inv(path(0), stdout, stderr)
    ensures forall k: nat | n <= k :: Stutters(acts(k))
    decreases MainRank(path(i).main), Unread(path(i)), Pumping(path(i)), Unsent(path(i))
  {
    if forall k: nat | i <= k :: Stutters(acts(k)) {
      return i;
    }
    var j: nat :| i <= j && !Stutters(acts(j));
    var k := FirstReal(acts, i, j);
    StutterFor(path, acts, i, k);
    InvForever(path, acts, stdout, stderr, k);
    StepDescends(path(k), acts(k));
    n := SettlesFrom(path, acts, stdout, stderr, k + 1);
  }

  lemma Settles(path: nat -> State, acts: nat -> Action, stdout: string, stderr: string) returns (n: nat)
    requires Forever(path, acts) && path(0) == Init(stdout, stderr)
    ensures forall k: nat | n <= k :: Stutters(acts(k))
  {
    InitOk(stdout, stderr);
    n := SettlesFrom(path, acts, stdout, stderr, 0);
  }

  /** A pump that will not read again has read everything. */
  predicate Thorough(p: Pump) {
    (p.pc.Joined? || ((p.pc.Ready? || p.pc.Sending?) && p.pc.last)) ==> p.rest == ""
  }

  predicate AllRead(s: State) {
    Thorough(s.out) && Thorough(s.err) && (s.main.Starting? || s.main.Joining? || (s.out.rest == "" && s.err.rest == ""))
  }

  /** A scheduler that reads at most `width` bytes at a time and never loses the
      connection, for a command with a given fate. */
  function Choose(s: State, width: nat, f: Fate): Action {
    if s.ch.lock.Held? then
      if s.ch.broken then PutFails
      else if s.ch.sent < |s.ch.lock.line| then Put(|s.ch.lock.line| - s.ch.sent) else Unlock
    else if s.out.pc.Ready? then TakeOut
    else if s.err.pc.Ready? then TakeErr
    else if s.main.Closing? then TakeMain
    else if s.main.Starting? then (if f.failure.Some? then StartFails(f.failure.value) else Start)
    else if s.main.Waiting? then WaitReturns(f.ending)
    else if s.out.pc.Reading? then ReadOut(Size(s.out, width), Size(s.out, width) == |s.out.rest|)
    else if s.err.pc.Reading? then ReadErr(Size(s.err, width), Size(s.err, width) == |s.err.rest|)
    else Join
  }

  function Size(p: Pump, width: nat): nat { if |p.rest| <= width then |p.rest| else width }

  predicate Width(width: nat) { 0 < width <= Executor.BUFFER_SIZE }

  /** The command has been started only if it can be. */
  predicate Agrees(s: State, f: Fate) { s.main.Joining? || s.main.Waiting? ==> f.failure.None? }

  lemma AgreesStep(s: State, a: Action, f: Fate)
    requires Agrees(s, f) && Enabled(s, a) && Follows(f, a)
    ensures Agrees(Fire(s, a), f)
  {
  }

  lemma {:induction false} AgreesRun(s: State, run: seq<Action>, f: Fate)
    requires Agrees(s, f) && Legal(s, run) && forall a | a in run :: Follows(f, a)
    ensures Agrees(End(s, run), f)
    decreases |run|
  {
    if run != [] {
      assert run[0] in run && forall a | a in run[1..] :: a in run;
      AgreesStep(s, run[0], f);
      AgreesRun(Fire(s, run[0]), run[1..], f);
    }
  }

  lemma ChooseIsEnabled(s: State, width: nat, f: Fate)
    requires ChannelOk(s.ch) && Guards(s) && MainOk(s) && !s.main.Finished? && Width(width) && Agrees(s, f)
    ensures Enabled(s, Choose(s, width, f)) && !Stutters(Choose(s, width, f)) && Follows(f, Choose(s, width, f))
  {
    if s.ch.lock.Held? && !s.ch.broken {
      assert s.ch.lines[s.ch.done] == s.ch.lock.line;
    }
  }

  lemma ChooseReadsAll(s: State, width: nat, f: Fate)
    requires Guards(s) && MainOk(s) && Enabled(s, Choose(s, width, f)) && AllRead(s) && f.failure.None?
    ensures AllRead(Fire(s, Choose(s, width, f)))
  {
  }

  lemma ChooseKeeps(s: State, width: nat, f: Fate)
    requires Enabled(s, Choose(s, width, f))
    ensures Fire(s, Choose(s, width, f)).ch.broken == s.ch.broken
  {
    FireChannel(s, Choose(s, width, f));
  }

  ghost predicate Narrow(p: Pump, width: nat) { forall c | c in p.chunks :: |c| <= width }

  lemma ChooseStaysNarrow(s: State, width: nat, f: Fate)
    requires Enabled(s, Choose(s, width, f)) && Narrow(s.out, width) && Narrow(s.err, width)
    ensures var s' := Fire(s, Choose(s, width, f));
            Narrow(s'.out, width) && Narrow(s'.err, width)
  {
  }

  /** All a step of the scheduler keeps and achieves. */
  lemma ChooseStep(s: State, stdout: string, stderr: string, width: nat, f: Fate)
    requires Inv(s, stdout, stderr) && Width(width) && Agrees(s, f) && !s.main.Finished?
    ensures var a := Choose(s, width, f);
            && Enabled(s, a) && Follows(f, a)
            && (var s' := Fire(s, a);
                && Inv(s', stdout, stderr) && Agrees(s', f) && Below(s', s) && s'.ch.broken == s.ch.broken
                && (Narrow(s.out, width) && Narrow(s.err, width) ==> Narrow(s'.out, width) && Narrow(s'.err, width))
                && (AllRead(s) && f.failure.None? ==> AllRead(s')))
  {
    var a := Choose(s, width, f);
    ChooseIsEnabled(s, width, f);
    StepDescends(s, a);
    if AllRead(s) && f.failure.None? { ChooseReadsAll(s, width, f); }
    if Narrow(s.out, width) && Narrow(s.err, width) { ChooseStaysNarrow(s, width, f); }
    ChooseKeeps(s, width, f);
    InvStep(s, a, stdout, stderr);
    AgreesStep(s, a, f);
  }

  /** From every reachable state there is a run to the end: the mutex and the join
      cannot deadlock. It reads all that can still be read, in pieces of any width,
      and ends the way the operating system decides. */
  lemma {:induction false} Completes(s: State, stdout: string, stderr: string, width: nat, f: Fate) returns (run: seq<Action>)
    requires Inv(s, stdout, stderr) && Width(width) && Agrees(s, f)
    ensures Legal(s, run) && forall a | a in run :: Follows(f, a)
    ensures var s' := End(s, run);
            && s'.main.Finished? && s'.ch.broken == s.ch.broken
            && (Narrow(s.out, width) && Narrow(s.err, width) ==> Narrow(s'.out, width) && Narrow(s'.err, width))
            && (AllRead(s) && f.failure.None? ==> s'.out.rest == "" && s'.err.rest == "")
    decreases MainRank(s.main), Unread(s), Pumping(s), Unsent(s)
  {
    if s.main.Finished? {
      return [];
    }
    var a := Choose(s, width, f);
    ChooseStep(s, stdout, stderr, width, f);
    var s1 := Fire(s, a);
    var rest := Completes(s1, stdout, stderr, width, f);
    run := [a] + rest;
    assert run[1..] == rest;
  }
}
