/**
 The server object in the shape of its source: New, acceptLoop, the handler
 goroutine, Shutdown and main. Between any two of its atomic operations the other
 goroutines may take any number of steps (`Others`). The ghost `trace` records every
 step, so `Valid` says that the object is in a reachable state of the step system.
 */
module Server {
  import opened Options
  import opened Admission
  import Connection
  import Disk
  import Protocol
  import Replace
  import Request
  import Update

  /** What AcceptUnix returns: net.ErrClosed, another error, a connection. */
  datatype Incoming = Closed | Failed | Got(peer: Peer)

  /** The goroutine that is running; the others are free. */
  datatype Self = AcceptLoop | Handling(i: nat) | Main

  /** Steps of the other goroutines. The process ends only when main lets it. */
  predicate Foreign(self: Self, a: Action) {
    && !a.Exit?
    && match self
       case AcceptLoop => !(a.Accept? || a.AcceptError? || a.AcceptClosed? || a.Refuse? || a.Authorize?
                            || a.Acquire? || a.Busy? || a.AddOne? || a.Spawn?)
       case Handling(i) => !((a.Apply? || a.Ask? || a.MarkDone? || a.Release?) && a.i == i)
       case Main => !(a.Signal? || a.TakeRestart? || a.CloseListener? || a.ReportDrained? || a.TimeOut?)
  }

  /** Steps added to a trace by the other goroutines only. */
  ghost predicate OnlyForeign(t: seq<Action>, from: nat, self: Self) {
    forall k | from <= k < |t| :: Foreign(self, t[k])
  }

  /** Among the steps from a point on, handler i has replaced the binary. */
  ghost predicate HasApplied(t: seq<Action>, from: nat, i: nat) {
    exists k | from <= k < |t| :: t[k].Apply? && t[k].i == i
  }

  /** Among them, handler i has asked for a restart. */
  ghost predicate HasAsked(t: seq<Action>, from: nat, i: nat) {
    exists k | from <= k < |t| :: t[k] == Ask(i)
  }

  // ----- what the accept loop is offered

  /** Connections among the results of AcceptUnix; None is an error other than
      net.ErrClosed. */
  function Arrived(offers: seq<Option<Peer>>): nat {
    if offers == [] then 0
    else Arrived(offers[..|offers| - 1]) + if offers[|offers| - 1].Some? then 1 else 0
  }

  /** Connections of anyone but the allowed user. */
  function Strangers(offers: seq<Option<Peer>>, uid: nat): nat {
    if offers == [] then 0
    else
      var last := offers[|offers| - 1];
      Strangers(offers[..|offers| - 1], uid) + if last.Some? && last.value != Credentials(uid) then 1 else 0
  }

  lemma OneMoreOffer(offers: seq<Option<Peer>>, k: nat, uid: nat)
    requires k < |offers|
    ensures Arrived(offers[..k + 1]) == Arrived(offers[..k]) + if offers[k].Some? then 1 else 0
    ensures Strangers(offers[..k + 1], uid)
         == Strangers(offers[..k], uid) + if offers[k].Some? && offers[k].value != Credentials(uid) then 1 else 0
  {
    assert offers[..k + 1][..k] == offers[..k];
  }

  lemma ForeignThen(t0: seq<Action>, t1: seq<Action>, t2: seq<Action>, self: Self)
    requires t0 <= t1 <= t2 && OnlyForeign(t1, |t0|, self) && OnlyForeign(t2, |t1|, self)
    ensures OnlyForeign(t2, |t0|, self)
  {
    forall k | |t0| <= k < |t2| ensures Foreign(self, t2[k]) {
      if k < |t1| { assert t2[k] == t1[k]; }
    }
  }

  /** One replacement by handler i was added. */
  ghost predicate OneApply(t0: seq<Action>, t1: seq<Action>, i: nat) {
    |t1| == |t0| + 1 && t0 <= t1 && t1[|t0|].Apply? && t1[|t0|].i == i
  }

  lemma NothingAdded(t: seq<Action>, i: nat)
    ensures !HasApplied(t, |t|, i) && !HasAsked(t, |t|, i)
  {
  }

  lemma AppliedThenAsked(t0: seq<Action>, t1: seq<Action>, t2: seq<Action>, i: nat)
    requires OneApply(t0, t1, i) && t1 < t2 && t2[|t2| - 1] == Ask(i)
    ensures HasApplied(t2, |t0|, i) && HasAsked(t2, |t0|, i)
  {
    assert t2[|t0|] == t1[|t0|];
  }

  // ----- crashes of the process

  function FileAt(files: Disk.Files, path: string): Option<Disk.File> {
    if path in files then Some(files[path]) else None
  }

  /** The binary is the first one or completely one that was put in place. */
  ghost predicate SafePoint(files: Disk.Files, first: Option<Disk.File>, applied: seq<Installed>, path: string) {
    FileAt(files, path) == first || exists k | 0 <= k < |applied| :: Replace.Complete(files, path, applied[k].file.data)
  }

  ghost predicate SafePoints(h: seq<Disk.Files>, from: nat, first: Option<Disk.File>, applied: seq<Installed>, path: string) {
    forall j | from <= j < |h| :: SafePoint(h[j], first, applied, path)
  }

  /** The binary is the first one or the one put in place last. */
  ghost predicate Latest(files: Disk.Files, first: Option<Disk.File>, applied: seq<Installed>, path: string) {
    if applied == [] then FileAt(files, path) == first
    else FileAt(files, path) == Some(applied[|applied| - 1].file) && Replace.Sound(applied[|applied| - 1].file)
  }

  lemma SafePointMore(files: Disk.Files, first: Option<Disk.File>, applied: seq<Installed>, path: string, more: seq<Installed>)
    requires SafePoint(files, first, applied, path)
    ensures SafePoint(files, first, applied + more, path)
  {
    if FileAt(files, path) != first {
      var k :| 0 <= k < |applied| && Replace.Complete(files, path, applied[k].file.data);
      assert (applied + more)[k] == applied[k];
    }
  }

  lemma LatestIsSafe(files: Disk.Files, before: Disk.Files, first: Option<Disk.File>, applied: seq<Installed>, path: string)
    requires Latest(before, first, applied, path) && Replace.Same(files, before, path)
    ensures SafePoint(files, first, applied, path)
  {
    if applied != [] { assert Replace.Complete(files, path, applied[|applied| - 1].file.data); }
  }

  /** The points of one more update, successful or not. */
  lemma SafePointsMore(h0: seq<Disk.Files>, h: seq<Disk.Files>, from: nat, before: Disk.Files, first: Option<Disk.File>,
                       applied: seq<Installed>, path: string, data: string, more: seq<Installed>)
    requires h0 <= h && from <= |h0| && SafePoints(h0, from, first, applied, path) && Latest(before, first, applied, path)
    requires Update.OldOrNew(h, |h0|, before, path, data, more != [])
    requires more != [] ==> more[0].file.data == data
    ensures SafePoints(h, from, first, applied + more, path)
  {
    forall j | from <= j < |h| ensures SafePoint(h[j], first, applied + more, path) {
      if j < |h0| {
        assert h[j] == h0[j];
        SafePointMore(h[j], first, applied, path, more);
      } else if Replace.Same(h[j], before, path) {
        LatestIsSafe(h[j], before, first, applied, path);
        SafePointMore(h[j], first, applied, path, more);
      } else {
        assert (applied + more)[|applied|] == more[0];
      }
    }
  }

  class Server {
    const maxConnections: int
    const capacity: int            // cap(connSem)
    const allowedUid: nat
    const version: string
    const binaryPath: string
    const disk: Disk.Disk
    const format: Protocol.Format  // json.Marshal
    var loop: LoopPc
    var handlers: seq<Handler>
    var connSem: int               // len(connSem)
    var wg: int
    var restartChan: int           // len(restartChan), capacity 1
    var main: MainPc
    var restartRequested: bool
    var done: bool                 // the channel closed after wg.Wait
    var accepted: nat
    var refused: nat
    var busy: nat
    var applied: seq<Installed>
    ghost const first: Option<Disk.File>   // the binary at the start
    ghost var trace: seq<Action>
    ghost var worlds: seq<Update.World>    // the updates behind `applied`
    ghost const since: nat                 // length of the disk's history at the start

    function BinaryFile(): Option<Disk.File>
      reads disk
    {
      FileAt(disk.files, binaryPath)
    }

    function Snapshot(): State
      reads this, disk
    {
      State(capacity, allowedUid, version, BinaryFile(), applied, loop, handlers, connSem, wg, restartChan, main,
            restartRequested, done, accepted, refused, busy)
    }

    ghost function Start(): State { Init(maxConnections, allowedUid, version, first) }

    /** The object has come here by some interleaving, each applied update put its own
        payload in place, and every crash on the way would have left a whole binary. */
    ghost predicate Valid()
      reads this, disk
    {
      && Legal(Start(), trace) && Snapshot() == End(Start(), trace)
      && |worlds| == |applied|
      && (forall i | 0 <= i < |worlds| :: Brought(worlds[i], applied[i]))
      && since <= |disk.history| && SafePoints(disk.history, since, first, applied, binaryPath)
    }

    ghost predicate Brought(w: Update.World, u: Installed) {
      w.release.Some? && u.tag == w.release.value.tag && u.file.data == Update.Payload(w, binaryPath)
    }

    constructor (maxConnections: int, allowedUid: nat, version: string, binaryPath: string, disk: Disk.Disk, format: Protocol.Format)
      ensures Valid() && this.format == format && trace == [] && Snapshot() == Start()
      ensures this.disk == disk && this.version == version && this.binaryPath == binaryPath
      ensures capacity == if maxConnections <= 0 then 100 else maxConnections
    {
      var maxConn := maxConnections;
      if maxConn <= 0 { maxConn := 100; }
      this.maxConnections, capacity, this.allowedUid := maxConnections, maxConn, allowedUid;
      this.version, this.binaryPath, this.disk, this.format := version, binaryPath, disk, format;
      first, since := FileAt(disk.files, binaryPath), |disk.history|;
      loop, handlers, connSem, wg, restartChan := Accepting, [], 0, 0, 0;
      main, restartRequested, done := Serving, false, false;
      accepted, refused, busy, applied, trace, worlds := 0, 0, 0, [], [], [];
    }

    /** What every reachable state has. */
    lemma Reached()
      requires Valid()
      ensures Inv(Snapshot()) && Snapshot().version == version
    {
      InitOk(maxConnections, allowedUid, version, first);
      InvRun(Start(), trace);
    }

    lemma CountsHold(i: nat)
      requires Valid() && i < |handlers|
      ensures handlers[i].Live() ==> wg > 0
      ensures handlers[i].Held() && !main.Exited? ==> connSem > 0
    {
      Reached();
      DefersAreSafe(Snapshot(), i);
    }

    lemma SlotHolds()
      requires Valid()
      ensures 0 <= restartChan <= 1 && (main.Serving? ==> !restartRequested)
    {
      Reached();
    }

    lemma IsLatest()
      requires Valid()
      ensures Latest(disk.files, first, applied, binaryPath)
    {
      InitOk(maxConnections, allowedUid, version, first);
      LatestBinary(Start(), trace);
      SnapshotFields();
    }

    lemma SnapshotFields()
      ensures Snapshot().binary == FileAt(disk.files, binaryPath) && Snapshot().applied == applied
      ensures Start().binary == first && Start().applied == []
    {
    }

    /** Records the step just taken. */
    ghost method Log(a: Action)
      requires Legal(Start(), trace) && Enabled(End(Start(), trace), a) && Snapshot() == Fire(End(Start(), trace), a)
      modifies this`trace
      ensures Legal(Start(), trace) && Snapshot() == End(Start(), trace) && trace == old(trace) + [a]
    {
      Extend(Start(), trace, a);
      trace := trace + [a];
    }

    // ----- the other goroutines

    /** Sets all fields but those an update changes. */
    method Assign(s: State)
      requires s.capacity == capacity && s.allowed == allowedUid && s.version == version
      requires s.binary == BinaryFile() && s.applied == applied
      modifies this`loop, this`handlers, this`connSem, this`wg, this`restartChan, this`main
      modifies this`restartRequested, this`done, this`accepted, this`refused, this`busy
      ensures Snapshot() == s
    {
      AssignMain(s);
      loop, handlers, connSem, wg := s.loop, s.handlers, s.tokens, s.wg;
      accepted, refused, busy := s.accepted, s.refused, s.busy;
    }

    method AssignMain(s: State)
      modifies this`restartChan, this`main, this`restartRequested, this`done
      ensures restartChan == s.slot && main == s.main && restartRequested == s.restarting && done == s.zeroSeen
    {
      restartChan, main, restartRequested, done := s.slot, s.main, s.restarting, s.zeroSeen;
    }

    /** Any step of another goroutine but an update. */
    method Perform(a: Action)
      requires Valid() && Enabled(Snapshot(), a) && !a.Apply?
      modifies this
      ensures Valid() && Snapshot() == Fire(old(Snapshot()), a) && trace == old(trace) + [a] && worlds == old(worlds)
    {
      PlainKeeps(Snapshot(), a);
      Assign(Fire(Snapshot(), a));
      Log(a);
    }

    lemma InstalledImproves(w: Update.World)
      requires Connection.Installed(Itself(), w, disk.files)
      ensures binaryPath in disk.files && Improves(version, Installed(w.release.value.tag, disk.files[binaryPath]))
      ensures Brought(w, Installed(w.release.value.tag, disk.files[binaryPath]))
    {
    }

    /** The binary was replaced by handler i. */
    method Note(i: nat, ghost w: Update.World, tag: string)
      requires |worlds| == |applied| && (forall k | 0 <= k < |worlds| :: Brought(worlds[k], applied[k]))
      requires binaryPath in disk.files && Improves(version, Installed(tag, disk.files[binaryPath]))
      requires Brought(w, Installed(tag, disk.files[binaryPath]))
      requires Legal(Start(), trace) && At(End(Start(), trace), i, Running) && !main.Exited?
      requires Snapshot() == End(Start(), trace).(binary := BinaryFile())
      requires since <= |disk.history|
      requires SafePoints(disk.history, since, first, applied + [Installed(tag, disk.files[binaryPath])], binaryPath)
      modifies this`applied, this`handlers, this`worlds, this`trace
      ensures Valid() && applied == old(applied) + [Installed(tag, disk.files[binaryPath])]
      ensures trace == old(trace) + [Apply(i, applied[|applied| - 1])] && worlds == old(worlds) + [w]
      ensures handlers == old(handlers)[i := old(handlers)[i].(pc := Replacing)]
    {
      var u := Installed(tag, disk.files[binaryPath]);
      applied, handlers := applied + [u], handlers[i := handlers[i].(pc := Replacing)];
      worlds := worlds + [w];
      Log(Apply(i, u));
    }

    /** A whole update by handler i, whatever the outside contributes. */
    method PerformUpdate(i: nat, w: Update.World)
      requires Valid() && At(Snapshot(), i, Running) && !main.Exited? && Update.Ordinary(w, binaryPath)
      modifies this`applied, this`handlers, this`worlds, this`trace, disk
      ensures Valid() && old(trace) <= trace && (worlds == old(worlds) || worlds == old(worlds) + [w])
      ensures forall k | |old(trace)| <= k < |trace| :: trace[k].Apply? && trace[k].i == i
      ensures |handlers| == |old(handlers)| && forall k | 0 <= k < |handlers| && k != i :: handlers[k] == old(handlers[k])
    {
      IsLatest();
      var replaced := Connection.SomeUpdate(Itself(), disk, w);
      AfterUpdate(w, replaced, old(disk.files), old(disk.history));
      if replaced { Replaced(i, w); }
    }

    /** The crash points of an update, and what it has put in place. */
    lemma AfterUpdate(w: Update.World, replaced: bool, files: Disk.Files, history: seq<Disk.Files>)
      requires history <= disk.history && since <= |history| && SafePoints(history, since, first, applied, binaryPath)
      requires Latest(files, first, applied, binaryPath)
      requires Connection.Untorn(disk.history, |history|, files, Itself(), w, replaced)
      requires replaced ==> Connection.Installed(Itself(), w, disk.files)
      ensures !replaced ==> SafePoints(disk.history, since, first, applied, binaryPath)
      ensures replaced ==>
        && binaryPath in disk.files && w.release.Some?
        && SafePoints(disk.history, since, first, applied + [Installed(w.release.value.tag, disk.files[binaryPath])], binaryPath)
    {
      var data := Update.Payload(w, binaryPath);
      var more := if replaced then [Installed(w.release.value.tag, disk.files[binaryPath])] else [];
      SafePointsMore(history, disk.history, since, files, first, applied, binaryPath, data, more);
      assert applied + [] == applied;
    }

    /** Records a replacement by handler i. */
    method Replaced(i: nat, w: Update.World)
      requires |worlds| == |applied| && (forall k | 0 <= k < |worlds| :: Brought(worlds[k], applied[k]))
      requires Connection.Installed(Itself(), w, disk.files)
      requires Legal(Start(), trace) && At(End(Start(), trace), i, Running) && !main.Exited?
      requires Snapshot() == End(Start(), trace).(binary := BinaryFile())
      requires since <= |disk.history|
      requires SafePoints(disk.history, since, first, applied + [Installed(w.release.value.tag, disk.files[binaryPath])], binaryPath)
      modifies this`applied, this`handlers, this`worlds, this`trace
      ensures Valid() && |applied| == |old(applied)| + 1 && worlds == old(worlds) + [w]
      ensures trace == old(trace) + [Apply(i, applied[|applied| - 1])]
      ensures handlers == old(handlers)[i := old(handlers)[i].(pc := Replacing)]
    {
      InstalledImproves(w);
      Note(i, w, w.release.value.tag);
    }

    /** One step of another goroutine, or a whole update by one. */
    method OtherStep(self: Self)
      requires Valid() && !main.Exited?
      modifies this, disk
      ensures Valid() && !main.Exited? && old(trace) <= trace && old(worlds) <= worlds
      ensures OnlyForeign(trace, |old(trace)|, self)
      ensures self.AcceptLoop? ==>
        loop == old(loop) && accepted == old(accepted) && refused == old(refused) && busy == old(busy) && |handlers| == |old(handlers)|
      ensures self.Handling? && self.i < |old(handlers)| ==> self.i < |handlers| && handlers[self.i] == old(handlers[self.i])
      ensures self.Main? ==> main == old(main) && restartRequested == old(restartRequested)
    {
      var a: Action := *;
      var w: Update.World := *;
      if a.Apply? {
        if At(Snapshot(), a.i, Running) && Foreign(self, a) && Update.Ordinary(w, binaryPath) {
          PerformUpdate(a.i, w);
        }
      } else if Enabled(Snapshot(), a) && Foreign(self, a) {
        ForeignKeeps(self, Snapshot(), a);
        Perform(a);
      }
    }

    /** Any number of steps of the other goroutines, in any order. */
    method Others(self: Self)
      requires Valid() && !main.Exited?
      modifies this, disk
      ensures Valid() && !main.Exited? && old(trace) <= trace && old(worlds) <= worlds
      ensures OnlyForeign(trace, |old(trace)|, self)
      ensures self.AcceptLoop? ==>
        loop == old(loop) && accepted == old(accepted) && refused == old(refused) && busy == old(busy) && |handlers| == |old(handlers)|
      ensures self.Handling? && self.i < |old(handlers)| ==> self.i < |handlers| && handlers[self.i] == old(handlers[self.i])
      ensures self.Main? ==> main == old(main) && restartRequested == old(restartRequested)
    {
      var n: nat :| true;
      for _ := 0 to n
        invariant Valid() && !main.Exited? && old(trace) <= trace && old(worlds) <= worlds
        invariant OnlyForeign(trace, |old(trace)|, self)
        invariant self.AcceptLoop? ==>
          loop == old(loop) && accepted == old(accepted) && refused == old(refused) && busy == old(busy) && |handlers| == |old(handlers)|
        invariant self.Handling? && self.i < |old(handlers)| ==> self.i < |handlers| && handlers[self.i] == old(handlers[self.i])
        invariant self.Main? ==> main == old(main) && restartRequested == old(restartRequested)
      {
        ghost var before := trace;
        OtherStep(self);
        ForeignThen(old(trace), before, trace, self);
      }
    }

    // ----- acceptLoop

    /** AcceptUnix: on a closed listener net.ErrClosed, else what is offered. */
    method AcceptUnix(offer: Option<Peer>) returns (r: Incoming)
      requires Valid() && !main.Exited? && loop.Accepting?
      modifies this`loop, this`accepted, this`trace
      ensures Valid() && old(trace) <= trace
      ensures r == if !ListenerOpen(Snapshot()) then Closed else if offer.Some? then Got(offer.value) else Failed
      ensures loop == match r case Closed => Returned case Failed => Accepting case Got(peer) => Accepted(peer)
      ensures accepted == old(accepted) + if r.Got? then 1 else 0
    {
      if !ListenerOpen(Snapshot()) {
        r, loop := Closed, Returned;
        Log(AcceptClosed);
      } else if offer.Some? {
        r, loop, accepted := Got(offer.value), Accepted(offer.value), accepted + 1;
        Log(Accept(offer.value));
      } else {
        r := Failed;
        Log(AcceptError);
      }
    }

    /** AuthorizeConnection on the accepted connection, and its error branch: a peer
        with credentials is told why. */
    method AuthorizeConnection(peer: Peer, conn: Protocol.Conn) returns (uid: Option<nat>)
      requires Valid() && !main.Exited? && loop == Accepted(peer) && conn.sent == "" && !conn.broken
      modifies this`loop, this`refused, this`trace, conn
      ensures Valid() && old(trace) <= trace
      ensures uid == if peer == Credentials(allowedUid) then Some(allowedUid) else None
      ensures loop == if uid.Some? then Authorized(allowedUid) else Accepting
      ensures refused == old(refused) + if uid.Some? then 0 else 1
      ensures uid.None? && peer.Credentials? ==> Connection.TurnedAway(format, conn.sent, conn.broken, "unauthorized: connection rejected")
      ensures uid.Some? || peer.NoCredentials? ==> conn.sent == "" && !conn.broken
    {
      uid := match peer case NoCredentials => None case Credentials(u) => if u == allowedUid then Some(u) else None;
      if uid.Some? {
        loop := Authorized(uid.value);
        Log(Authorize);
      } else {
        RefusePeer(peer);
        if peer.Credentials? { Connection.TurnAway(format, conn, "unauthorized: connection rejected"); }
      }
    }

    method RefusePeer(peer: Peer)
      requires Valid() && !main.Exited? && loop == Accepted(peer) && peer != Credentials(allowedUid)
      modifies this`loop, this`refused, this`trace
      ensures Valid() && old(trace) <= trace && loop.Accepting? && refused == old(refused) + 1
    {
      loop, refused := Accepting, refused + 1;
      Log(Refuse);
    }

    /** The non-blocking send on connSem; without room the connection is told so. */
    method TakeToken(uid: nat, conn: Protocol.Conn) returns (taken: bool)
      requires Valid() && !main.Exited? && loop == Authorized(uid) && conn.sent == "" && !conn.broken
      modifies this`loop, this`connSem, this`busy, this`trace, conn
      ensures Valid() && old(trace) <= trace && (taken <==> old(connSem) < capacity)
      ensures loop == if taken then Holding(uid) else Accepting
      ensures busy == old(busy) + if taken then 0 else 1
      ensures !taken ==> Connection.TurnedAway(format, conn.sent, conn.broken, "server at maximum capacity")
    {
      taken := connSem < capacity;
      if taken {
        connSem, loop := connSem + 1, Holding(uid);
        Log(Acquire);
      } else {
        Connection.TurnAway(format, conn, "server at maximum capacity");
        loop, busy := Accepting, busy + 1;
        Log(Busy);
      }
    }

    method AddToGroup(uid: nat)
      requires Valid() && !main.Exited? && loop == Holding(uid)
      modifies this`loop, this`wg, this`trace
      ensures Valid() && old(trace) <= trace && loop == Counted(uid)
    {
      wg, loop := wg + 1, Counted(uid);
      Log(AddOne);
    }

    method StartHandler(uid: nat)
      requires Valid() && !main.Exited? && loop == Counted(uid)
      modifies this`loop, this`handlers, this`trace
      ensures Valid() && old(trace) <= trace && loop.Accepting?
      ensures handlers == old(handlers) + [Handler(uid, Running)]
    {
      handlers, loop := handlers + [Handler(uid, Running)], Accepting;
      Log(Spawn);
    }

    /** The select on connSem: with room, take a token, count the handler and start
        it; otherwise reject. The others may move in between, so the token is taken
        before the handler is counted, and counted before it runs. */
    method Admit(uid: nat, conn: Protocol.Conn) returns (admitted: bool)
      requires Valid() && !main.Exited? && loop == Authorized(uid) && conn.sent == "" && !conn.broken
      modifies this, disk, conn
      ensures Valid() && !main.Exited? && old(trace) <= trace && loop.Accepting?
      ensures admitted <==> old(connSem) < capacity
      ensures accepted == old(accepted) && refused == old(refused) && |handlers| + busy == old(|handlers| + busy) + 1
      ensures if admitted then handlers != [] && handlers[|handlers| - 1] == Handler(uid, Running)
              else Connection.TurnedAway(format, conn.sent, conn.broken, "server at maximum capacity")
    {
      admitted := TakeToken(uid, conn);
      if admitted { Launch(uid); }
    }

    /** Count the handler, then start it. */
    method Launch(uid: nat)
      requires Valid() && !main.Exited? && loop == Holding(uid)
      modifies this, disk
      ensures Valid() && !main.Exited? && old(trace) <= trace && loop.Accepting?
      ensures accepted == old(accepted) && refused == old(refused) && busy == old(busy)
      ensures |handlers| == |old(handlers)| + 1 && handlers[|handlers| - 1] == Handler(uid, Running)
    {
      Others(AcceptLoop);
      AddToGroup(uid);
      Others(AcceptLoop);
      StartHandler(uid);
    }

    /** An accepted connection: refused, admitted, or rejected for lack of room. */
    method Dispatch(peer: Peer)
      requires Valid() && !main.Exited? && loop == Accepted(peer)
      modifies this, disk
      ensures Valid() && !main.Exited? && old(trace) <= trace && loop.Accepting? && accepted == old(accepted)
      ensures refused == old(refused) + if peer == Credentials(allowedUid) then 0 else 1
      ensures |handlers| + busy == old(|handlers| + busy) + if peer == Credentials(allowedUid) then 1 else 0
    {
      var conn := new Protocol.Conn();
      Others(AcceptLoop);
      var uid := AuthorizeConnection(peer, conn);
      if uid.Some? {
        Others(AcceptLoop);
        var _ := Admit(uid.value, conn);
      }
    }

    /** One round of the loop. */
    method Round(offer: Option<Peer>) returns (r: Incoming)
      requires Valid() && !main.Exited? && loop.Accepting?
      modifies this, disk
      ensures Valid() && !main.Exited? && old(trace) <= trace
      ensures if r.Closed? then loop.Returned? && !ListenerOpen(Snapshot())
              else loop.Accepting? && r == if offer.Some? then Got(offer.value) else Failed
      ensures accepted == old(accepted) + if r.Got? then 1 else 0
      ensures refused == old(refused) + if r.Got? && r.peer != Credentials(allowedUid) then 1 else 0
      ensures |handlers| + busy == old(|handlers| + busy) + if r.Got? && r.peer == Credentials(allowedUid) then 1 else 0
    {
      Others(AcceptLoop);
      r := AcceptUnix(offer);
      if r.Got? { Dispatch(r.peer); }
    }

    /** The loop on everything that AcceptUnix offers: until the listener is closed it
        takes all of it, every connection of the allowed user gets a handler or is
        rejected for lack of room, and every other connection is refused. */
    method RunAcceptLoop(offers: seq<Option<Peer>>) returns (n: nat)
      requires Valid() && !main.Exited? && loop.Accepting?
      modifies this, disk
      ensures Valid() && !main.Exited? && old(trace) <= trace
      ensures n <= |offers| && if loop.Accepting? then n == |offers| else loop.Returned? && !ListenerOpen(Snapshot())
      ensures accepted == old(accepted) + Arrived(offers[..n])
      ensures refused == old(refused) + Strangers(offers[..n], allowedUid)
      ensures |handlers| + busy == old(|handlers| + busy) + Arrived(offers[..n]) - Strangers(offers[..n], allowedUid)
      ensures LiveCount(handlers) <= wg <= connSem <= capacity && forall h | h in handlers :: h.uid == allowedUid
    {
      n := 0;
      while n < |offers|
        invariant n <= |offers| && Valid() && !main.Exited? && old(trace) <= trace && loop.Accepting?
        invariant accepted == old(accepted) + Arrived(offers[..n])
        invariant refused == old(refused) + Strangers(offers[..n], allowedUid)
        invariant |handlers| + busy == old(|handlers| + busy) + Arrived(offers[..n]) - Strangers(offers[..n], allowedUid)
      {
        var r := Round(offers[n]);
        if r.Closed? { break; }
        OneMoreOffer(offers, n, allowedUid);
        n := n + 1;
      }
      Reached();
    }

    // ----- a handler goroutine

    /** RequestRestart: a non-blocking send into the one-slot channel. */
    method RequestRestart(i: nat)
      requires Valid() && !main.Exited? && At(Snapshot(), i, Replacing)
      modifies this`restartChan, this`handlers, this`trace
      ensures Valid() && trace == old(trace) + [Ask(i)] && restartChan == 1
      ensures handlers == old(handlers)[i := old(handlers)[i].(pc := Asking)]
    {
      SlotHolds();
      if restartChan < 1 { restartChan := restartChan + 1; }
      handlers := handlers[i := handlers[i].(pc := Asking)];
      Log(Ask(i));
    }

    /** The deferred wg.Done(), which runs first; the counter stays non-negative. */
    method GroupDone(i: nat)
      requires Valid() && !main.Exited? && (At(Snapshot(), i, Running) || At(Snapshot(), i, Asking))
      modifies this
      ensures Valid() && old(trace) <= trace && main == old(main) && wg == old(wg) - 1 >= 0
      ensures handlers == old(handlers)[i := old(handlers)[i].(pc := AfterDone)]
    {
      CountsHold(i);
      wg, handlers := wg - 1, handlers[i := handlers[i].(pc := AfterDone)];
      Log(MarkDone(i));
    }

    /** The deferred receive on connSem, which has an element to take. */
    method ReleaseToken(i: nat)
      requires Valid() && !main.Exited? && At(Snapshot(), i, AfterDone)
      modifies this
      ensures Valid() && old(trace) <= trace && main == old(main) && connSem == old(connSem) - 1 >= 0
      ensures handlers == old(handlers)[i := old(handlers)[i].(pc := Gone)]
    {
      CountsHold(i);
      connSem, handlers := connSem - 1, handlers[i := handlers[i].(pc := Gone)];
      Log(Release(i));
    }

    /** The goroutine of handler i: the connection, then the two defers. It counts
        itself down exactly once and gives its token back, and neither can fail or
        wait. */
    method ServeConnection(i: nat, conn: Protocol.Conn, decode: string -> Option<Request.Request>, o: Connection.Outside)
      returns (replaced: bool, ghost rs: seq<Protocol.Response>)
      requires Valid() && !main.Exited? && At(Snapshot(), i, Running) && conn.sent == "" && !conn.broken
      requires binaryPath != "" ==> Update.Ordinary(o.world, binaryPath)
      modifies this, disk, conn
      ensures Valid() && !main.Exited? && old(trace) <= trace && At(Snapshot(), i, Gone)
      ensures Connection.Answered(conn.sent, conn.broken, Itself(), decode, o, replaced, rs)
    {
      Others(Handling(i));
      replaced, rs := HandleConnection(i, conn, decode, o);
      Others(Handling(i));
      GroupDone(i);
      Others(Handling(i));
      ReleaseToken(i);
    }

    function Itself(): Connection.Service { Connection.Service(version, binaryPath) }

    /** The connection's work, and the step of replacing the binary if it does. */
    method Work(i: nat, conn: Protocol.Conn, decode: string -> Option<Request.Request>, o: Connection.Outside)
      returns (replaced: bool, ghost rs: seq<Protocol.Response>)
      requires Valid() && !main.Exited? && At(Snapshot(), i, Running) && conn.sent == "" && !conn.broken
      requires binaryPath != "" ==> Update.Ordinary(o.world, binaryPath)
      modifies this`applied, this`handlers, this`worlds, this`trace, disk, conn
      ensures Connection.Answered(conn.sent, conn.broken, Itself(), decode, o, replaced, rs)
      ensures Valid() && At(Snapshot(), i, if replaced then Replacing else Running)
      ensures if replaced then OneApply(old(trace), trace, i) else trace == old(trace)
      ensures worlds == old(worlds) + if replaced then [o.world] else []
    {
      IsLatest();
      replaced, rs := Connection.Converse(conn, decode, Itself(), disk, o);
      AfterUpdate(o.world, replaced, old(disk.files), old(disk.history));
      if replaced { Replaced(i, o.world); }
    }

    /** restartDelay, then the request. */
    method RestartLater(i: nat)
      requires Valid() && !main.Exited? && At(Snapshot(), i, Replacing)
      modifies this, disk
      ensures Valid() && !main.Exited? && old(trace) <= trace && old(worlds) <= worlds
      ensures At(Snapshot(), i, Asking) && old(trace) < trace && trace[|trace| - 1] == Ask(i)
    {
      Others(Handling(i));
      RequestRestart(i);
    }

    /** The request for a restart after the binary was replaced. */
    method RestartAfter(i: nat, ghost t0: seq<Action>)
      requires Valid() && !main.Exited? && At(Snapshot(), i, Replacing) && OneApply(t0, trace, i)
      modifies this, disk
      ensures Valid() && !main.Exited? && old(trace) <= trace && old(worlds) <= worlds
      ensures At(Snapshot(), i, Asking) && HasApplied(trace, |t0|, i) && HasAsked(trace, |t0|, i)
    {
      ghost var t1 := trace;
      RestartLater(i);
      AppliedThenAsked(t0, t1, trace, i);
    }

    /** handleConnection: the prescribed responses are sent, and the handler requests
        a restart exactly if it has replaced the binary, by the update of this
        connection, and after the others had time to move. */
    method HandleConnection(i: nat, conn: Protocol.Conn, decode: string -> Option<Request.Request>, o: Connection.Outside)
      returns (replaced: bool, ghost rs: seq<Protocol.Response>)
      requires Valid() && !main.Exited? && At(Snapshot(), i, Running) && conn.sent == "" && !conn.broken
      requires binaryPath != "" ==> Update.Ordinary(o.world, binaryPath)
      modifies this, disk, conn
      ensures Connection.Answered(conn.sent, conn.broken, Itself(), decode, o, replaced, rs)
      ensures Valid() && !main.Exited? && old(trace) <= trace && old(worlds) <= worlds
      ensures At(Snapshot(), i, if replaced then Asking else Running)
      ensures replaced <==> HasApplied(trace, |old(trace)|, i)
      ensures replaced <==> HasAsked(trace, |old(trace)|, i)
      ensures replaced ==> old(worlds) + [o.world] <= worlds
    {
      replaced, rs := Work(i, conn, decode, o);
      if replaced { RestartAfter(i, old(trace)); } else { NothingAdded(trace, i); }
    }

    // ----- Shutdown and main

    method CloseListener()
      requires Valid() && main.Stopping?
      modifies this
      ensures Valid() && old(trace) <= trace && main.Waiting? && restartRequested == old(restartRequested)
    {
      main := Waiting;
      Log(Action.CloseListener);
    }

    /** The select between the closed `done` channel and the deadline. */
    method AwaitDrain(expired: bool)
      requires Valid() && main.Waiting?
      modifies this`main, this`trace
      ensures Valid() && old(trace) <= trace
      ensures main == if done && !expired then Drained else TimedOut
    {
      if done && !expired {
        main := Drained;
        Log(ReportDrained);
      } else {
        main := TimedOut;
        Log(TimeOut);
      }
    }

    /** Shutdown: close the listener, then wait for the drain or the deadline.
        `expired` says that the deadline comes first. */
    method Shutdown(expired: bool)
      requires Valid() && main.Stopping?
      modifies this, disk
      ensures Valid() && old(trace) <= trace && restartRequested == old(restartRequested)
      ensures main == if done && !expired then Drained else TimedOut
    {
      Others(Main);
      CloseListener();
      Others(Main);
      AwaitDrain(expired);
    }

    /** The select of main: a signal if one has come, else a pending restart request;
        without either it waits on. */
    method AwaitStop(signalled: bool) returns (stopped: bool)
      requires Valid() && main.Serving?
      modifies this`main, this`restartChan, this`restartRequested, this`trace
      ensures Valid() && old(trace) <= trace
      ensures stopped <==> signalled || old(restartChan) > 0
      ensures main == if stopped then Stopping else Serving
      ensures restartRequested <==> stopped && !signalled
      ensures !stopped ==> restartChan == 0
    {
      SlotHolds();
      stopped := true;
      if signalled {
        main := Stopping;
        Log(Signal);
      } else if restartChan > 0 {
        restartChan, restartRequested, main := restartChan - 1, true, Stopping;
        Log(TakeRestart);
      } else {
        stopped := false;
      }
    }

    method Leave()
      requires Valid() && (main.Drained? || main.TimedOut?)
      modifies this`main, this`trace
      ensures Valid() && old(trace) <= trace && main.Exited?
    {
      main := Exited;
      Log(Exit);
    }

    /** The select of main, and what follows it. */
    method Stop(signalled: bool, expired: bool) returns (stopped: bool)
      requires Valid() && main.Serving?
      modifies this, disk
      ensures Valid() && old(trace) <= trace && (signalled ==> stopped)
      ensures if stopped then main.Exited? && restartRequested == !signalled
              else main.Serving? && restartChan == 0 && !restartRequested
    {
      Others(Main);
      stopped := AwaitStop(signalled);
      if stopped {
        Shutdown(expired);
        Leave();
      }
    }

    /** main from its select on: whatever the goroutines did, it ends for a restart
        only if an update has been applied, and then the last one's complete payload
        is on the disk, sound, and of a release newer than the running version. It
        waits on exactly as long as there is neither a signal nor a request. */
    method Run(signalled: bool, expired: bool) returns (stopped: bool, restart: bool)
      requires Valid() && main.Serving?
      modifies this, disk
      ensures Valid() && old(trace) <= trace && (signalled ==> stopped)
      ensures if stopped then main.Exited? && restart == !signalled else main.Serving? && restartChan == 0 && !restart
      ensures restart ==>
        && worlds != [] && Connection.Installed(Itself(), worlds[|worlds| - 1], disk.files)
        && Applies(trace) != [] && BinaryFile() == Some(Applies(trace)[|Applies(trace)| - 1].file)
    {
      stopped := Stop(signalled, expired);
      restart := restartRequested;
      if restart { Backed(); }
    }

    lemma Backed()
      requires Valid() && restartRequested
      ensures worlds != [] && Connection.Installed(Itself(), worlds[|worlds| - 1], disk.files)
      ensures Applies(trace) != [] && BinaryFile() == Some(Applies(trace)[|Applies(trace)| - 1].file)
    {
      var k := LastUpdate();
      AppliedAre(Start(), trace);
      assert [] + Applies(trace) == Applies(trace);
    }

    /** At every moment of every run, and for every point a crash so far would have
        left behind: the binary is the first one, or sound and the complete payload
        of an update that was applied, of a release newer than the running version. */
    lemma CrashPoints(j: nat)
      requires Valid() && since <= j < |disk.history|
      ensures FileAt(disk.history[j], binaryPath) == first || exists k ::
        0 <= k < |worlds| && Connection.Installed(Itself(), worlds[k], disk.history[j])
    {
      assert SafePoint(disk.history[j], first, applied, binaryPath);
      if FileAt(disk.history[j], binaryPath) != first {
        var k :| 0 <= k < |applied| && Replace.Complete(disk.history[j], binaryPath, applied[k].file.data);
        Reached();
        assert applied[k] in Snapshot().applied && Brought(worlds[k], applied[k]);
        assert Connection.Installed(Itself(), worlds[k], disk.history[j]);
      }
    }

    lemma LastUpdate() returns (k: nat)
      requires Valid() && restartRequested
      ensures k == |applied| - 1 && |applied| == |worlds| && Brought(worlds[k], applied[k])
      ensures Improves(version, applied[k]) && binaryPath in disk.files && disk.files[binaryPath] == applied[k].file
    {
      InitOk(maxConnections, allowedUid, version, first);
      RestartNeedsReplacement(Start(), trace);
      k := |applied| - 1;
      assert Updated(Snapshot());
    }
  }


  lemma ForeignKeeps(self: Self, s: State, a: Action)
    requires Enabled(s, a) && Foreign(self, a) && !a.Apply?
    ensures !s.main.Exited? ==> !Fire(s, a).main.Exited?
    ensures self.AcceptLoop? ==>
      var s' := Fire(s, a);
      s'.loop == s.loop && s'.accepted == s.accepted && s'.refused == s.refused && s'.busy == s.busy && |s'.handlers| == |s.handlers|
    ensures self.Handling? && self.i < |s.handlers| ==>
              self.i < |Fire(s, a).handlers| && Fire(s, a).handlers[self.i] == s.handlers[self.i]
    ensures self.Main? ==> Fire(s, a).main == s.main && Fire(s, a).restarting == s.restarting
  {
  }
}
