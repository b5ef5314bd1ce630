/**
 One command on one connection: two pumps and the handler itself share the
 connection through `writeMu`. Every action is one atomic step of one of the
 three goroutines; a line reaches the connection in pieces of any size. A `char`
 stands for one byte.
 */
module Streaming {
  import opened Options
  import opened Text
  import opened Protocol
  import Executor

  datatype Who = Out | Err | Main

  type Stream = w: Who | !w.Main? witness Out

  /** How a command ends for its client. */
  datatype Ending = Exit(code: int) | Error(message: string)

  /** What goes through writeResponse while a command is handled. */
  datatype Entry = Chunk(who: Stream, data: string) | Final(ending: Ending)

  function Render(e: Entry): Response {
    match e
    case Chunk(Out, data) => StdoutResponse(data)
    case Chunk(_, data) => StderrResponse(data)
    case Final(Exit(code)) => ExitResponse(code)
    case Final(Error(message)) => ErrorResponse(message)
  }

  function RenderAll(es: seq<Entry>): (rs: seq<Response>)
    ensures |rs| == |es|
    ensures forall i | 0 <= i < |es| :: rs[i] == Render(es[i])
  {
    if es == [] then [] else [Render(es[0])] + RenderAll(es[1..])
  }

  /** How an entry is sent: the format of the lines, of which most of the proof
      needs to know nothing. */
  type EntryFormat = Entry -> string

  /** The format in use. */
  function Bytes(e: Entry): string { Line(Render(e)) }

  function EntryLines(f: EntryFormat, es: seq<Entry>): (ls: seq<string>)
    ensures |ls| == |es|
  {
    if es == [] then [] else [f(es[0])] + EntryLines(f, es[1..])
  }

  // ----- the connection and its mutex

  /** writeMu, with the line under way. */
  datatype Lock = Open | Held(who: Who, line: string)

  datatype Channel = Channel(
    lock: Lock,
    wire: string,        // bytes the connection took
    lines: seq<string>,  // lines in the order they took the mutex
    done: nat,           // how many of them were sent completely
    sent: nat,           // bytes sent of the next one
    broken: bool)        // a write has failed

  function Taken(c: Channel, w: Who, line: string): Channel {
    c.(lock := Held(w, line), lines := c.lines + [line])
  }

  function Sent(c: Channel, n: nat): Channel
    requires c.lock.Held? && c.sent + n <= |c.lock.line|
  {
    c.(wire := c.wire + c.lock.line[c.sent..c.sent + n], sent := c.sent + n)
  }

  // ----- the whole state

  /** Where a pump stands: not started, in Read, with data before or after it took
      the mutex, past wg.Done. `last` says the read also returned an error. */
  datatype PumpPc = Idle | Reading | Ready(data: string, last: bool) | Sending(data: string, last: bool) | Joined

  /** A pump, the bytes its pipe will still deliver, and the chunks read so far. */
  datatype Pump = Pump(rest: string, pc: PumpPc, chunks: seq<string>)

  /** Where the handler stands: before cmd.Start, in wg.Wait, in cmd.Wait, with the
      last response before or after it took the mutex, done. */
  datatype MainPc = Starting | Joining | Waiting | Closing(ending: Ending) | Answering(ending: Ending) | Finished

  /** `log` holds the entries in the order they took the mutex; `cancelled` stands
      for execCancel, a timeout, or a shutdown. */
  datatype State = State(format: EntryFormat, out: Pump, err: Pump, main: MainPc, log: seq<Entry>, ch: Channel, cancelled: bool)

  datatype Action =
    | Start | StartFails(message: string)
    | ReadOut(n: nat, last: bool) | ReadErr(n: nat, last: bool)
    | TakeOut | TakeErr | TakeMain
    | Put(n: nat) | PutFails | Unlock
    | Join | WaitReturns(ending: Ending)
    | Cancel

  function Init(stdout: string, stderr: string): State {
    State(Bytes, Pump(stdout, Idle, []), Pump(stderr, Idle, []), Starting, [], Channel(Open, "", [], 0, 0, false), false)
  }

  /** A read of n bytes, 4096 at most; `last` if it also returned an error. */
  function Read(p: Pump, n: nat, last: bool): Pump
    requires n <= |p.rest|
  {
    if n > 0 then Pump(p.rest[n..], Ready(p.rest[..n], last), p.chunks + [p.rest[..n]])
    else p.(pc := if last then Joined else Reading)
  }

  predicate CanRead(p: Pump, n: nat) { p.pc.Reading? && n <= |p.rest| && n <= 4096 }

  function Enter(p: Pump): Pump
    requires p.pc.Ready?
  {
    p.(pc := Sending(p.pc.data, p.pc.last))
  }

  function Leave(p: Pump): Pump {
    if p.pc.Sending? then p.(pc := if p.pc.last then Joined else Reading) else p
  }

  /** The holder of the mutex returns from writeResponse. */
  function Return(s: State, c: Channel): State {
    match s.ch.lock
    case Held(Out, _) => s.(out := Leave(s.out), ch := c)
    case Held(Err, _) => s.(err := Leave(s.err), ch := c)
    case Held(Main, _) => s.(main := Finished, ch := c)
    case Open => s.(ch := c)
  }

  predicate Enabled(s: State, a: Action) {
    match a
    case Start => s.main.Starting?
    case StartFails(_) => s.main.Starting?
    case ReadOut(n, _) => CanRead(s.out, n)
    case ReadErr(n, _) => CanRead(s.err, n)
    case TakeOut => s.ch.lock.Open? && s.out.pc.Ready?
    case TakeErr => s.ch.lock.Open? && s.err.pc.Ready?
    case TakeMain => s.ch.lock.Open? && s.main.Closing?
    case Put(n) => s.ch.lock.Held? && !s.ch.broken && 0 < n && s.ch.sent + n <= |s.ch.lock.line|
    case PutFails => s.ch.lock.Held? && (s.ch.broken || s.ch.sent < |s.ch.lock.line|)
    case Unlock => s.ch.lock.Held? && !s.ch.broken && s.ch.sent == |s.ch.lock.line|
    case Join => s.main.Joining? && s.out.pc.Joined? && s.err.pc.Joined?
    case WaitReturns(_) => s.main.Waiting?
    case Cancel => true
  }

  /** The entry that takes the mutex in a step, if any. */
  function Logs(s: State, a: Action): seq<Entry>
    requires Enabled(s, a)
  {
    match a
    case TakeOut => [Chunk(Out, s.out.pc.data)]
    case TakeErr => [Chunk(Err, s.err.pc.data)]
    case TakeMain => [Final(s.main.ending)]
    case _ => []
  }

  /** What a step does to the connection. */
  function NextChannel(s: State, a: Action): Channel
    requires Enabled(s, a)
  {
    match a
    case TakeOut => Taken(s.ch, Out, s.format(Chunk(Out, s.out.pc.data)))
    case TakeErr => Taken(s.ch, Err, s.format(Chunk(Err, s.err.pc.data)))
    case TakeMain => Taken(s.ch, Main, s.format(Final(s.main.ending)))
    case Put(n) => Sent(s.ch, n)
    case PutFails => s.ch.(lock := Open, broken := true)
    case Unlock => s.ch.(lock := Open, done := s.ch.done + 1, sent := 0)
    case _ => s.ch
  }

  function Fire(s: State, a: Action): State
    requires Enabled(s, a)
  {
    match a
    case Start => s.(main := Joining, out := s.out.(pc := Reading), err := s.err.(pc := Reading))
    case StartFails(m) => s.(main := Closing(Error(m)))
    case ReadOut(n, last) => s.(out := Read(s.out, n, last))
    case ReadErr(n, last) => s.(err := Read(s.err, n, last))
    case TakeOut => s.(out := Enter(s.out), log := s.log + Logs(s, a), ch := NextChannel(s, a))
    case TakeErr => s.(err := Enter(s.err), log := s.log + Logs(s, a), ch := NextChannel(s, a))
    case TakeMain => s.(main := Answering(s.main.ending), log := s.log + Logs(s, a), ch := NextChannel(s, a))
    case Put(_) => s.(ch := NextChannel(s, a))
    case PutFails => Return(s, NextChannel(s, a)).(cancelled := true)
    case Unlock => Return(s, NextChannel(s, a))
    case Join => s.(main := Waiting)
    case WaitReturns(e) => s.(main := Closing(e))
    case Cancel => s.(cancelled := true)
  }

  predicate Legal(s: State, run: seq<Action>)
    decreases |run|
  {
    run == [] || (Enabled(s, run[0]) && Legal(Fire(s, run[0]), run[1..]))
  }

  function End(s: State, run: seq<Action>): State
    requires Legal(s, run)
    decreases |run|
  {
    if run == [] then s else End(Fire(s, run[0]), run[1..])
  }

  lemma {:induction false} LegalConcat(s: State, r1: seq<Action>, r2: seq<Action>)
    requires Legal(s, r1) && Legal(End(s, r1), r2)
    ensures Legal(s, r1 + r2) && End(s, r1 + r2) == End(End(s, r1), r2)
    decreases |r1|
  {
    if r1 == [] {
      assert r1 + r2 == r2;
    } else {
      assert (r1 + r2)[1..] == r1[1..] + r2;
      LegalConcat(Fire(s, r1[0]), r1[1..], r2);
    }
  }

  // ----- the connection's invariant

  /** Up to the first failure the connection carries exactly the finished lines and
      the started part of the current one; after it nothing is added. */
  ghost predicate ChannelOk(c: Channel) {
    && c.done <= |c.lines|
    && c.sent <= (if c.done < |c.lines| then |c.lines[c.done]| else 0)
    && (c.lock.Held? ==> |c.lines| > 0 && c.lines[|c.lines| - 1] == c.lock.line)
    && (!c.broken ==> c.done + (if c.lock.Held? then 1 else 0) == |c.lines|)
    && (c.broken ==> c.done < |c.lines| && c.sent < |c.lines[c.done]|)
    && c.wire == Flatten(c.lines[..c.done]) + (if c.done < |c.lines| then c.lines[c.done][..c.sent] else "")
  }

  lemma TakenOk(c: Channel, w: Who, line: string)
    requires ChannelOk(c) && c.lock.Open?
    ensures ChannelOk(Taken(c, w, line))
  {
    assert (c.lines + [line])[..c.done] == c.lines[..c.done];
  }

  lemma Pieces(w: string, l: string, k: nat, n: nat)
    requires k + n <= |l|
    ensures (w + l[..k]) + l[k..k + n] == w + l[..k + n]
  {
  }

  lemma SentOk(c: Channel, n: nat)
    requires ChannelOk(c) && c.lock.Held? && !c.broken && c.sent + n <= |c.lock.line|
    ensures ChannelOk(Sent(c, n))
  {
    Pieces(Flatten(c.lines[..c.done]), c.lock.line, c.sent, n);
  }

  lemma Everything(w: string, l: string)
    ensures w + l[..|l|] == (w + l) + ""
  {
  }

  lemma UnlockedOk(c: Channel)
    requires ChannelOk(c) && c.lock.Held? && !c.broken && c.sent == |c.lock.line|
    ensures ChannelOk(c.(lock := Open, done := c.done + 1, sent := 0))
  {
    FlattenSnoc(c.lines[..c.done], c.lock.line);
    assert c.lines[..c.done + 1] == c.lines[..c.done] + [c.lock.line];
    Everything(Flatten(c.lines[..c.done]), c.lock.line);
  }

  // ----- the pumps' invariant

  /** The chunks of one stream in a log, in order. */
  function Chunks(es: seq<Entry>, w: Who): seq<string> {
    if es == [] then []
    else (if es[0].Chunk? && es[0].who == w then [es[0].data] else []) + Chunks(es[1..], w)
  }

  lemma Assoc(a: seq<string>, b: seq<string>, c: seq<string>)
    ensures a + (b + c) == (a + b) + c
  {
  }

  lemma {:induction false} ChunksSnoc(es: seq<Entry>, e: Entry, w: Who)
    ensures Chunks(es + [e], w) == Chunks(es, w) + (if e.Chunk? && e.who == w then [e.data] else [])
  {
    if es == [] {
      assert es + [e] == [e];
    } else {
      assert (es + [e])[1..] == es[1..] + [e];
      ChunksSnoc(es[1..], e, w);
      Assoc(if es[0].Chunk? && es[0].who == w then [es[0].data] else [], Chunks(es[1..], w), if e.Chunk? && e.who == w then [e.data] else []);
    }
  }

  /** With the rest of the pipe, a pump's chunks make up its whole output. */
  ghost predicate Whole(p: Pump, content: string) {
    && Flatten(p.chunks) + p.rest == content
    && forall c | c in p.chunks :: Executor.IsChunk(c)
  }

  /** A pump's chunks are what it has logged plus what it still has to log. */
  ghost predicate Logged(p: Pump, w: Who, log: seq<Entry>) {
    p.chunks == Chunks(log, w) + (if p.pc.Ready? then [p.pc.data] else [])
  }

  /** A pump is in the guarded section exactly while it holds the mutex. */
  ghost predicate Guarded(p: Pump, w: Who, lock: Lock) {
    p.pc.Sending? <==> lock.Held? && lock.who == w
  }

  lemma ReadOk(p: Pump, n: nat, last: bool, w: Who, log: seq<Entry>, content: string)
    requires CanRead(p, n) && Whole(p, content) && Logged(p, w, log)
    ensures Whole(Read(p, n, last), content) && Logged(Read(p, n, last), w, log)
  {
    if n > 0 {
      FlattenSnoc(p.chunks, p.rest[..n]);
      Executor.Advance(Flatten(p.chunks), p.rest, n);
    }
  }

  // ----- the handler's invariant

  predicate Resting(p: Pump) { p.pc.Idle? || p.pc.Joined? }

  /** Chunks only, then the one final entry if it is there. */
  ghost predicate LogShape(log: seq<Entry>, final: bool) {
    && (final ==> |log| > 0 && log[|log| - 1].Final?)
    && forall i | 0 <= i < |log| && (i < |log| - 1 || !final) :: log[i].Chunk?
  }

  ghost predicate MainOk(s: State) {
    && (s.main.Answering? <==> s.ch.lock.Held? && s.ch.lock.who.Main?)
    && (s.main.Starting? ==> s.out.pc.Idle? && s.err.pc.Idle? && !s.ch.lock.Held?)
    && (s.main.Joining? ==> !s.out.pc.Idle? && !s.err.pc.Idle?)
    && (!s.main.Joining? ==> Resting(s.out) && Resting(s.err))
  }

  predicate Answered(m: MainPc) { m.Answering? || m.Finished? }

  ghost predicate Guards(s: State) {
    Guarded(s.out, Out, s.ch.lock) && Guarded(s.err, Err, s.ch.lock)
  }

  ghost predicate Streams(out: Pump, err: Pump, log: seq<Entry>, stdout: string, stderr: string) {
    Whole(out, stdout) && Logged(out, Out, log) && Whole(err, stderr) && Logged(err, Err, log)
  }

  ghost predicate Inv(s: State, stdout: string, stderr: string) {
    && ChannelOk(s.ch) && EntryLines(s.format, s.log) == s.ch.lines && (s.ch.broken ==> s.cancelled)
    && Streams(s.out, s.err, s.log, stdout, stderr)
    && Guards(s)
    && MainOk(s)
    && LogShape(s.log, Answered(s.main))
  }

  lemma InitOk(stdout: string, stderr: string)
    ensures Inv(Init(stdout, stderr), stdout, stderr)
  {
    assert "" + stdout == stdout && "" + stderr == stderr;
  }

  lemma FireChannel(s: State, a: Action)
    requires Enabled(s, a)
    ensures Fire(s, a).ch == NextChannel(s, a)
    ensures Fire(s, a).log == s.log + Logs(s, a) && Fire(s, a).format == s.format
    ensures Fire(s, a).cancelled == (s.cancelled || a.PutFails? || a.Cancel?)
  {
    assert s.log + [] == s.log;
    match a
    case Put(_) => assert Fire(s, a) == s.(ch := NextChannel(s, a));
    case PutFails => ReturnChannel(s, NextChannel(s, a));
    case Unlock => ReturnChannel(s, NextChannel(s, a));
    case _ =>
  }

  lemma ReturnChannel(s: State, c: Channel)
    ensures Return(s, c).ch == c && Return(s, c).cancelled == s.cancelled && Return(s, c).log == s.log && Return(s, c).format == s.format
  {
  }

  lemma NextChannelOk(s: State, a: Action)
    requires ChannelOk(s.ch) && Enabled(s, a)
    ensures ChannelOk(NextChannel(s, a))
  {
    match a
    case TakeOut => TakenOk(s.ch, Out, s.format(Chunk(Out, s.out.pc.data)));
    case TakeErr => TakenOk(s.ch, Err, s.format(Chunk(Err, s.err.pc.data)));
    case TakeMain => TakenOk(s.ch, Main, s.format(Final(s.main.ending)));
    case Put(n) => SentOk(s.ch, n);
    case Unlock => UnlockedOk(s.ch);
    case _ =>
  }

  lemma {:induction false} LinesConcat(f: EntryFormat, a: seq<Entry>, b: seq<Entry>)
    ensures EntryLines(f, a + b) == EntryLines(f, a) + EntryLines(f, b)
  {
    if a == [] {
      assert a + b == b;
    } else {
      assert (a + b)[1..] == a[1..] + b;
      LinesConcat(f, a[1..], b);
    }
  }

  lemma LinesSnoc(f: EntryFormat, es: seq<Entry>, e: Entry)
    ensures EntryLines(f, es + [e]) == EntryLines(f, es) + [f(e)]
  {
    LinesConcat(f, es, [e]);
    assert EntryLines(f, [e]) == [f(e)];
  }

  lemma LinesStep(s: State, a: Action)
    requires EntryLines(s.format, s.log) == s.ch.lines && Enabled(s, a)
    ensures EntryLines(s.format, s.log + Logs(s, a)) == NextChannel(s, a).lines
  {
    if a.TakeOut? || a.TakeErr? || a.TakeMain? {
      LinesSnoc(s.format, s.log, Logs(s, a)[0]);
      assert [Logs(s, a)[0]] == Logs(s, a);
    } else {
      assert s.log + [] == s.log;
    }
  }

  lemma ChannelStep(s: State, a: Action)
    requires ChannelOk(s.ch) && EntryLines(s.format, s.log) == s.ch.lines && (s.ch.broken ==> s.cancelled) && Enabled(s, a)
    ensures var s' := Fire(s, a); ChannelOk(s'.ch) && EntryLines(s'.format, s'.log) == s'.ch.lines && (s'.ch.broken ==> s'.cancelled)
  {
    FireChannel(s, a);
    NextChannelOk(s, a);
    LinesStep(s, a);
  }

  /** Taking the mutex moves the pending chunk from the pump into the log. */
  lemma EnterOk(p: Pump, w: Who, log: seq<Entry>)
    requires p.pc.Ready? && Logged(p, w, log) && !w.Main?
    ensures Logged(Enter(p), w, log + [Chunk(w, p.pc.data)])
  {
    ChunksSnoc(log, Chunk(w, p.pc.data), w);
  }

  lemma OtherOk(p: Pump, w: Who, log: seq<Entry>, e: Entry)
    requires Logged(p, w, log) && (e.Chunk? ==> e.who != w)
    ensures Logged(p, w, log + [e])
  {
    ChunksSnoc(log, e, w);
  }

  lemma LeaveOk(p: Pump, w: Who, log: seq<Entry>)
    requires Logged(p, w, log)
    ensures Logged(Leave(p), w, log) && Leave(p).chunks == p.chunks && Leave(p).rest == p.rest
  {
  }

  lemma PumpStep(s: State, a: Action, stdout: string, stderr: string)
    requires Streams(s.out, s.err, s.log, stdout, stderr) && MainOk(s) && Enabled(s, a)
    ensures Streams(Fire(s, a).out, Fire(s, a).err, Fire(s, a).log, stdout, stderr)
  {
    var log := s.log;
    match a
    case ReadOut(n, last) => ReadOk(s.out, n, last, Out, log, stdout);
    case ReadErr(n, last) => ReadOk(s.err, n, last, Err, log, stderr);
    case TakeOut =>
      EnterOk(s.out, Out, log);
      OtherOk(s.err, Err, log, Chunk(Out, s.out.pc.data));
    case TakeErr =>
      EnterOk(s.err, Err, log);
      OtherOk(s.out, Out, log, Chunk(Err, s.err.pc.data));
    case TakeMain =>
      OtherOk(s.out, Out, log, Final(s.main.ending));
      OtherOk(s.err, Err, log, Final(s.main.ending));
    case PutFails => ReturnPumps(s, NextChannel(s, a), stdout, stderr);
    case Unlock => ReturnPumps(s, NextChannel(s, a), stdout, stderr);
    case Put(_) => assert Fire(s, a) == s.(ch := NextChannel(s, a));
    case _ =>
  }

  lemma ReturnPumps(s: State, c: Channel, stdout: string, stderr: string)
    requires Streams(s.out, s.err, s.log, stdout, stderr)
    ensures Streams(Return(s, c).out, Return(s, c).err, Return(s, c).log, stdout, stderr)
  {
    var s' := Return(s, c);
    LeaveOk(s.out, Out, s.log);
    LeaveOk(s.err, Err, s.log);
    assert s'.log == s.log && (s'.out == s.out || s'.out == Leave(s.out)) && (s'.err == s.err || s'.err == Leave(s.err));
  }

  lemma GuardStep(s: State, a: Action)
    requires Guards(s) && MainOk(s) && Enabled(s, a)
    ensures Guards(Fire(s, a))
  {
  }

  lemma MainStep(s: State, a: Action)
    requires Guards(s) && MainOk(s) && Enabled(s, a)
    ensures MainOk(Fire(s, a))
  {
  }

  lemma AnsweredStep(s: State, a: Action)
    requires MainOk(s) && Enabled(s, a)
    ensures Answered(Fire(s, a).main) <==> Answered(s.main) || a.TakeMain?
    ensures Logs(s, a) != [] ==> !Answered(s.main)
  {
  }

  lemma ShapeSnoc(log: seq<Entry>, e: Entry)
    requires LogShape(log, false)
    ensures LogShape(log + [e], e.Final?)
  {
  }

  lemma ShapeStep(s: State, a: Action)
    requires MainOk(s) && LogShape(s.log, Answered(s.main)) && Enabled(s, a)
    ensures LogShape(Fire(s, a).log, Answered(Fire(s, a).main))
  {
    FireChannel(s, a);
    AnsweredStep(s, a);
    if Logs(s, a) == [] {
      assert s.log + [] == s.log;
    } else {
      ShapeSnoc(s.log, Logs(s, a)[0]);
      assert Logs(s, a) == [Logs(s, a)[0]];
    }
  }

  lemma InvStep(s: State, a: Action, stdout: string, stderr: string)
    requires Inv(s, stdout, stderr) && Enabled(s, a)
    ensures Inv(Fire(s, a), stdout, stderr)
  {
    ChannelStep(s, a);
    PumpStep(s, a, stdout, stderr);
    GuardStep(s, a);
    MainStep(s, a);
    ShapeStep(s, a);
  }

  lemma {:induction false} InvRun(s: State, run: seq<Action>, stdout: string, stderr: string)
    requires Inv(s, stdout, stderr) && Legal(s, run)
    ensures Inv(End(s, run), stdout, stderr) && End(s, run).format == s.format
    decreases |run|
  {
    if run != [] {
      FireChannel(s, run[0]);
      InvStep(s, run[0], stdout, stderr);
      InvRun(Fire(s, run[0]), run[1..], stdout, stderr);
    }
  }

  // ----- how the command ends

  /** The ending that is settled in a state, from cmd.Start's failure or cmd.Wait's
      return on. */
  function Settled(s: State): Option<Ending> {
    match s.main
    case Closing(e) => Some(e)
    case Answering(e) => Some(e)
    case Finished => if s.log != [] && s.log[|s.log| - 1].Final? then Some(s.log[|s.log| - 1].ending) else None
    case _ => None
  }

  /** What the operating system makes of a command: an error of cmd.Start, or else
      what cmd.Wait returns. */
  datatype Fate = Fate(failure: Option<string>, ending: Ending)

  predicate Follows(f: Fate, a: Action) {
    match a
    case Start => f.failure.None?
    case StartFails(message) => f.failure == Some(message)
    case WaitReturns(ending) => f.failure.None? && ending == f.ending
    case _ => true
  }

  /** The ending an action settles. */
  function EndingOf(a: Action): Option<Ending> {
    match a
    case StartFails(message) => Some(Error(message))
    case WaitReturns(ending) => Some(ending)
    case _ => None
  }

  /** While the last response is on its way it is the last entry of the log. */
  ghost predicate LastIsEnding(s: State) {
    s.main.Answering? ==> s.log != [] && s.log[|s.log| - 1] == Final(s.main.ending)
  }

  lemma SettledStep(s: State, a: Action)
    requires MainOk(s) && Guards(s) && LogShape(s.log, Answered(s.main)) && LastIsEnding(s) && Enabled(s, a)
    ensures LastIsEnding(Fire(s, a))
    ensures Settled(s).Some? ==> Settled(Fire(s, a)) == Settled(s) && EndingOf(a).None?
    ensures Settled(s).None? ==> Settled(Fire(s, a)) == EndingOf(a)
  {
    FireChannel(s, a);
    AnsweredStep(s, a);
    assert Logs(s, a) == [] ==> s.log + Logs(s, a) == s.log;
  }

  /** Whatever settles the ending in a run, it is the ending of the run's end; and a
      finished run has settled it. */
  lemma {:induction false} SettledRun(s: State, run: seq<Action>, stdout: string, stderr: string)
    requires Inv(s, stdout, stderr) && LastIsEnding(s) && Legal(s, run)
    ensures LastIsEnding(End(s, run)) && (Settled(s).Some? ==> Settled(End(s, run)) == Settled(s))
    ensures forall a | a in run && EndingOf(a).Some? :: Settled(End(s, run)) == EndingOf(a)
    ensures Settled(s).None? && Settled(End(s, run)).Some? ==> exists a :: a in run && EndingOf(a).Some?
    decreases |run|
  {
    if run != [] {
      var a, rest := run[0], run[1..];
      SettledStep(s, a);
      InvStep(s, a, stdout, stderr);
      SettledRun(Fire(s, a), rest, stdout, stderr);
      assert forall b | b in run :: b == a || b in rest;
      if Settled(s).None? && Settled(End(s, run)).Some? {
        if EndingOf(a).Some? {
          assert a in run;
        } else {
          var b :| b in rest && EndingOf(b).Some?;
          assert b in run;
        }
      }
    }
  }

  lemma FinishedIsSettled(s: State)
    requires s.main.Finished? && LogShape(s.log, Answered(s.main))
    ensures s.log != [] && Settled(s).Some? && s.log[|s.log| - 1] == Final(Settled(s).value)
  {
  }

  /** The actions of a run agree on the ending, and one of them has settled it. */
  ghost predicate SettledBy(run: seq<Action>, e: Ending) {
    && (forall a | a in run && EndingOf(a).Some? :: EndingOf(a) == Some(e))
    && (exists a :: a in run && EndingOf(a).Some?)
  }

  /** A finished run's log ends with the ending that its actions settled. */
  lemma EndOfRun(stdout: string, stderr: string, run: seq<Action>) returns (e: Ending)
    requires Legal(Init(stdout, stderr), run) && End(Init(stdout, stderr), run).main.Finished?
    ensures var log := End(Init(stdout, stderr), run).log; log != [] && log[|log| - 1] == Final(e)
    ensures SettledBy(run, e)
  {
    var s0 := Init(stdout, stderr);
    InitOk(stdout, stderr);
    FinishedRun(s0, run, stdout, stderr);
    FinishedIsSettled(End(s0, run));
    e := Settled(End(s0, run)).value;
  }

  lemma FinishedRun(s: State, run: seq<Action>, stdout: string, stderr: string)
    requires Inv(s, stdout, stderr) && s.main.Starting? && Legal(s, run) && End(s, run).main.Finished?
    ensures LogShape(End(s, run).log, Answered(End(s, run).main))
    ensures Settled(End(s, run)).Some? ==> SettledBy(run, Settled(End(s, run)).value)
  {
    InvRun(s, run, stdout, stderr);
    SettledRun(s, run, stdout, stderr);
  }

  // ----- what the client gets

  /** The data a client collects from the responses of one kind. */
  function Collect(rs: seq<Response>, kind: string): string {
    if rs == [] then "" else (if rs[0].kind == kind then rs[0].data else "") + Collect(rs[1..], kind)
  }

  lemma Kinds(e: Entry)
    ensures Render(e).kind == "stdout" <==> e.Chunk? && e.who.Out?
    ensures Render(e).kind == "stderr" <==> e.Chunk? && !e.who.Out?
    ensures e.Chunk? ==> Render(e).data == e.data
  {
    assert "stdout"[3] == 'o' && "stderr"[3] == 'e' && |"exit"| == 4 && |"error"| == 5;
  }

  lemma {:induction false} CollectRendered(es: seq<Entry>)
    ensures Collect(RenderAll(es), "stdout") == Flatten(Chunks(es, Out))
    ensures Collect(RenderAll(es), "stderr") == Flatten(Chunks(es, Err))
  {
    if es != [] {
      var e := es[0];
      CollectRendered(es[1..]);
      Kinds(e);
      if e.Chunk? {
        FlattenConcat([e.data], Chunks(es[1..], e.who));
        assert Flatten([e.data]) == e.data + "" == e.data;
      }
      assert [] + Chunks(es[1..], Out) == Chunks(es[1..], Out);
      assert [] + Chunks(es[1..], Err) == Chunks(es[1..], Err);
    }
  }

  predicate IsData(r: Response) { r.kind == "stdout" || r.kind == "stderr" }

  predicate IsLast(r: Response) { (r.kind == "exit" && r.code.Some?) || r.kind == "error" }

  lemma DataOrLast(e: Entry)
    ensures IsData(Render(e)) <==> e.Chunk?
    ensures IsLast(Render(e)) <==> e.Final?
  {
    assert "stdout"[3] == 'o' && "stderr"[3] == 'e' && |"exit"| == 4 && |"error"| == 5;
  }

  lemma {:induction false} LinesAreWire(es: seq<Entry>)
    ensures Flatten(EntryLines(Bytes, es)) == Wire(RenderAll(es))
  {
    if es != [] { LinesAreWire(es[1..]); }
  }

  /** What the connection and a client hold once the handler is done. */
  ghost predicate Complete(s: State, stdout: string, stderr: string) {
    var rs := RenderAll(s.log);
    && s.ch.wire == Wire(rs)
    && Collect(rs, "stdout") + s.out.rest == stdout
    && Collect(rs, "stderr") + s.err.rest == stderr
    && |rs| > 0 && IsLast(rs[|rs| - 1])
    && (forall i | 0 <= i < |rs| - 1 :: IsData(rs[i]))
  }

  lemma FinishedChannel(s: State)
    requires ChannelOk(s.ch) && EntryLines(s.format, s.log) == s.ch.lines && s.format == Bytes
    requires s.ch.lock.Open? && !s.ch.broken
    ensures s.ch.wire == Wire(RenderAll(s.log))
  {
    LinesAreWire(s.log);
    assert s.ch.lines[..s.ch.done] == s.ch.lines;
    assert Flatten(s.ch.lines) + "" == Flatten(s.ch.lines);
  }

  lemma FinishedShape(log: seq<Entry>)
    requires LogShape(log, true)
    ensures var rs := RenderAll(log); |rs| > 0 && IsLast(rs[|rs| - 1]) && forall i | 0 <= i < |rs| - 1 :: IsData(rs[i])
  {
    forall i | 0 <= i < |log| ensures (log[i].Chunk? ==> IsData(RenderAll(log)[i])) && (log[i].Final? ==> IsLast(RenderAll(log)[i])) {
      DataOrLast(log[i]);
    }
  }

  lemma FinishedPumps(s: State, stdout: string, stderr: string)
    requires Streams(s.out, s.err, s.log, stdout, stderr) && Resting(s.out) && Resting(s.err)
    ensures s.out.chunks == Chunks(s.log, Out) && s.err.chunks == Chunks(s.log, Err)
    ensures Collect(RenderAll(s.log), "stdout") + s.out.rest == stdout
    ensures Collect(RenderAll(s.log), "stderr") + s.err.rest == stderr
  {
    assert Chunks(s.log, Out) + [] == Chunks(s.log, Out);
    assert Chunks(s.log, Err) + [] == Chunks(s.log, Err);
    CollectRendered(s.log);
  }

  lemma FinishedView(s: State, stdout: string, stderr: string)
    requires Inv(s, stdout, stderr) && s.format == Bytes && s.main.Finished? && !s.ch.broken
    ensures Complete(s, stdout, stderr)
  {
    FinishedChannel(s);
    FinishedShape(s.log);
    FinishedPumps(s, stdout, stderr);
  }

  /** For every interleaving and every splitting of the two outputs: when the
      handler is done and no write failed, the connection carried the lines of a
      list of responses whose data make up what was read of each output, followed
      by one exit or error and nothing else. */
  lemma Delivered(stdout: string, stderr: string, run: seq<Action>)
    requires Legal(Init(stdout, stderr), run)
    ensures var s := End(Init(stdout, stderr), run);
            Inv(s, stdout, stderr) && s.format == Bytes && (s.main.Finished? && !s.ch.broken ==> Complete(s, stdout, stderr))
  {
    InitOk(stdout, stderr);
    InvRun(Init(stdout, stderr), run, stdout, stderr);
    var s := End(Init(stdout, stderr), run);
    if s.main.Finished? && !s.ch.broken { FinishedView(s, stdout, stderr); }
  }

  /** How many entries a client can read: the finished ones, and the one under way
      once its last byte is out. */
  function Visible(c: Channel): nat {
    if c.done < |c.lines| && c.sent == |c.lines[c.done]| then c.done + 1 else c.done
  }

  lemma LinesTake(f: EntryFormat, es: seq<Entry>, i: nat)
    requires i <= |es|
    ensures EntryLines(f, es)[..i] == EntryLines(f, es[..i])
    ensures i < |es| ==> EntryLines(f, es)[i] == f(es[i])
  {
    assert es == es[..i] + es[i..];
    LinesConcat(f, es[..i], es[i..]);
  }

  /** The connection's bytes are the visible lines and at most a proper piece of
      one more. */
  lemma VisibleBytes(c: Channel)
    requires ChannelOk(c)
    ensures var v := Visible(c);
            && v <= |c.lines|
            && (if c.done < v || v == |c.lines| then c.wire == Flatten(c.lines[..v])
                else c.sent < |c.lines[v]| && c.wire == Flatten(c.lines[..v]) + c.lines[v][..c.sent])
  {
    if c.done < Visible(c) {
      FlattenSnoc(c.lines[..c.done], c.lines[c.done]);
      assert c.lines[..c.done + 1] == c.lines[..c.done] + [c.lines[c.done]];
      Everything(Flatten(c.lines[..c.done]), c.lines[c.done]);
    }
  }

  /** Whoever holds the connection's bytes reads the visible entries. */
  lemma VisibleIsRead(s: State)
    requires ChannelOk(s.ch) && EntryLines(s.format, s.log) == s.ch.lines && s.format == Bytes
    ensures Visible(s.ch) <= |s.log|
    ensures ReadStream(s.ch.wire) == Some(CleanAll(RenderAll(s.log[..Visible(s.ch)])))
  {
    var c, v := s.ch, Visible(s.ch);
    VisibleBytes(c);
    LinesTake(s.format, s.log, v);
    LinesAreWire(s.log[..v]);
    if c.done < v || v == |c.lines| {
      ReadWire(RenderAll(s.log[..v]), "");
      assert c.wire + "" == c.wire;
    } else {
      PieceHasNoBreak(Render(s.log[v]), c.sent);
      ReadWire(RenderAll(s.log[..v]), c.lines[v][..c.sent]);
    }
  }

  /** At every moment of every run, failed writes or not, a client reads exactly a
      prefix of the logged responses, never a torn or mixed line. */
  lemma ClientSees(stdout: string, stderr: string, run: seq<Action>)
    requires Legal(Init(stdout, stderr), run)
    ensures var s := End(Init(stdout, stderr), run);
            && Visible(s.ch) <= |s.log|
            && ReadStream(s.ch.wire) == Some(CleanAll(RenderAll(s.log[..Visible(s.ch)])))
  {
    Delivered(stdout, stderr, run);
    VisibleIsRead(End(Init(stdout, stderr), run));
  }

  lemma BrokenStep(s: State, a: Action)
    requires s.ch.broken && Enabled(s, a)
    ensures var s' := Fire(s, a);
            s'.ch.broken && s'.ch.wire == s.ch.wire && s'.ch.done == s.ch.done && s.log <= s'.log
  {
    FireChannel(s, a);
  }

  lemma {:induction false} BrokenRun(s: State, run: seq<Action>)
    requires s.ch.broken && Legal(s, run)
    ensures var s' := End(s, run);
            s'.ch.broken && s'.ch.wire == s.ch.wire && s'.ch.done == s.ch.done && s.log <= s'.log
    decreases |run|
  {
    if run != [] {
      BrokenStep(s, run[0]);
      BrokenRun(Fire(s, run[0]), run[1..]);
    }
  }

  /** In every run: once a write has failed the command is cancelled, no byte
      follows, and the client keeps a proper prefix of the responses. */
  lemma AfterFailure(stdout: string, stderr: string, run: seq<Action>, more: seq<Action>)
    requires Legal(Init(stdout, stderr), run) && Legal(End(Init(stdout, stderr), run), more)
    ensures var s := End(Init(stdout, stderr), run); var s' := End(s, more);
            s.ch.broken ==>
              && s'.ch.broken && s'.cancelled && s'.ch.wire == s.ch.wire
              && s.ch.done < |s.log| && s.log <= s'.log
              && ReadStream(s'.ch.wire) == Some(CleanAll(RenderAll(s.log[..s.ch.done])))
  {
    var s := End(Init(stdout, stderr), run);
    if s.ch.broken {
      Delivered(stdout, stderr, run);
      InvRun(s, more, stdout, stderr);
      BrokenRun(s, more);
      VisibleIsRead(s);
    }
  }
}
