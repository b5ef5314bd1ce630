/** One connection from its request to its last response: handleConnection with the
    command it runs or the action it dispatches. */
module Connection {
  import opened Options
  import opened Protocol
  import opened Text
  import Assets
  import Disk
  import Environment
  import Executor
  import History
  import Paths
  import Progress
  import Replace
  import Request
  import Streaming
  import Update

  // ----- a command

  /** The step system's state and the objects it stands for. */
  ghost predicate Linked(s: Streaming.State, conn: Conn, out: Executor.Pipe, err: Executor.Pipe)
    reads conn, out, err
  {
    s.ch.wire == conn.sent && s.ch.broken == conn.broken && s.out.rest == out.rest && s.err.rest == err.rest
  }

  lemma OneAction(s: Streaming.State, a: Streaming.Action)
    requires Streaming.Enabled(s, a)
    ensures Streaming.Legal(s, [a]) && Streaming.End(s, [a]) == Streaming.Fire(s, a)
  {
    assert [a][1..] == [];
  }

  /** One read of a pump, into a fresh front of its buffer. */
  method Pull(s: Streaming.State, a: Streaming.Action, pipe: Executor.Pipe) returns (b: Streaming.Action)
    requires Streaming.Enabled(s, a) && (a.ReadOut? || a.ReadErr?)
    requires pipe.rest == (if a.ReadOut? then s.out.rest else s.err.rest)
    modifies pipe
    ensures b.ReadOut? == a.ReadOut? && b.ReadErr? == a.ReadErr?
    ensures Streaming.Enabled(s, b) && !Progress.Stutters(b) && pipe.rest == old(pipe.rest)[b.n..]
  {
    var buf := new char[Executor.BUFFER_SIZE];
    var n, ended := pipe.Read(buf);
    b := if a.ReadOut? then Streaming.ReadOut(n, ended) else Streaming.ReadErr(n, ended);
  }

  /** One write of the holder of the mutex, and its failure if it falls short. */
  method Push(s: Streaming.State, piece: string, conn: Conn) returns (s': Streaming.State, ghost acts: seq<Streaming.Action>)
    requires s.ch.wire == conn.sent && !s.ch.broken && !conn.broken && s.ch.lock.Held? && piece != ""
    requires s.ch.sent + |piece| <= |s.ch.lock.line| && piece == s.ch.lock.line[s.ch.sent..s.ch.sent + |piece|]
    modifies conn
    ensures Streaming.Legal(s, acts) && Streaming.End(s, acts) == s'
    ensures s'.ch.wire == conn.sent && s'.ch.broken == conn.broken
    ensures s'.out.rest == s.out.rest && s'.err.rest == s.err.rest
    ensures acts != [] && forall a | a in acts :: !Progress.Stutters(a) && (a.Put? || a.PutFails?)
  {
    var k := s.ch.sent;
    var n, ok := conn.Write(piece);
    assert piece[..n] == s.ch.lock.line[k..k + n];
    s', acts := s, [];
    if n > 0 {
      s', acts := Streaming.Fire(s, Streaming.Put(n)), [Streaming.Put(n)];
      OneAction(s, Streaming.Put(n));
    }
    if !ok {
      Streaming.FireChannel(s', Streaming.PutFails);
      OneAction(s', Streaming.PutFails);
      Streaming.LegalConcat(s, acts, [Streaming.PutFails]);
      s', acts := Streaming.Fire(s', Streaming.PutFails), acts + [Streaming.PutFails];
    }
  }

  lemma HeldLine(s: Streaming.State)
    requires Streaming.ChannelOk(s.ch) && Streaming.EntryLines(s.format, s.log) == s.ch.lines && s.ch.lock.Held?
    ensures s.log != [] && s.ch.lock.line == s.format(s.log[|s.log| - 1])
  {
    var k := |s.log| - 1;
    Streaming.LinesTake(s.format, s.log, k);
  }

  predicate HasLine(lock: Streaming.Lock) { lock.Held? ==> lock.line != "" }

  lemma LineIsNotEmpty(s: Streaming.State)
    requires Streaming.ChannelOk(s.ch) && Streaming.EntryLines(s.format, s.log) == s.ch.lines && s.format == Streaming.Bytes
    ensures HasLine(s.ch.lock)
  {
    if s.ch.lock.Held? {
      HeldLine(s);
      assert s.format(s.log[|s.log| - 1]) == Streaming.Bytes(s.log[|s.log| - 1]);
    }
  }

  lemma RunHasLine(stdout: string, stderr: string, run: seq<Streaming.Action>)
    requires Streaming.Legal(Streaming.Init(stdout, stderr), run)
    ensures HasLine(Streaming.End(Streaming.Init(stdout, stderr), run).ch.lock)
  {
    Streaming.Delivered(stdout, stderr, run);
    LineIsNotEmpty(Streaming.End(Streaming.Init(stdout, stderr), run));
  }

  /** One move of one of the three goroutines, on the pipes and the connection. */
  method Move(s: Streaming.State, a: Streaming.Action, conn: Conn, out: Executor.Pipe, err: Executor.Pipe)
    returns (s': Streaming.State, ghost acts: seq<Streaming.Action>)
    requires Linked(s, conn, out, err) && out != err && HasLine(s.ch.lock)
    requires Streaming.Enabled(s, a) && !Progress.Stutters(a)
    modifies conn, out, err
    ensures forall f | Streaming.Follows(f, a) :: forall b | b in acts :: Streaming.Follows(f, b)
    ensures Streaming.Legal(s, acts) && Streaming.End(s, acts) == s' && Linked(s', conn, out, err)
    ensures acts != [] && forall b | b in acts :: !Progress.Stutters(b)
  {
    var b := a;
    if a.ReadOut? {
      b := Pull(s, a, out);
    } else if a.ReadErr? {
      b := Pull(s, a, err);
    } else if a.Put? || (a.PutFails? && !s.ch.broken) {
      var piece := s.ch.lock.line[s.ch.sent..if a.Put? then s.ch.sent + a.n else |s.ch.lock.line|];
      s', acts := Push(s, piece, conn);
      return;
    } else if a.PutFails? {
      var _, _ := conn.Write(s.ch.lock.line);
    }
    OneAction(s, b);
    Streaming.FireChannel(s, b);
    s', acts := Streaming.Fire(s, b), [b];
  }

  /** executor.Run with the two callbacks: whatever the order in which the goroutines
      move and whatever the sizes of reads and writes, what happens on the pipes and
      the connection is a complete run of the step system, and it ends. */
  method RunCommand(conn: Conn, out: Executor.Pipe, err: Executor.Pipe, fate: Streaming.Fate)
    returns (s: Streaming.State, ghost run: seq<Streaming.Action>)
    requires conn.sent == "" && !conn.broken && out != err
    modifies conn, out, err
    ensures Streaming.Legal(Streaming.Init(old(out.rest), old(err.rest)), run)
    ensures s == Streaming.End(Streaming.Init(old(out.rest), old(err.rest)), run) && s.main.Finished?
    ensures Linked(s, conn, out, err) && forall a | a in run :: Streaming.Follows(fate, a)
  {
    ghost var stdout, stderr := out.rest, err.rest;
    s, run := Streaming.Init(out.rest, err.rest), [];
    Streaming.InitOk(stdout, stderr);
    while !s.main.Finished?
      invariant Streaming.Legal(Streaming.Init(stdout, stderr), run)
      invariant s == Streaming.End(Streaming.Init(stdout, stderr), run) && forall a | a in run :: Streaming.Follows(fate, a)
      invariant Streaming.Inv(s, stdout, stderr) && Linked(s, conn, out, err) && Progress.Agrees(s, fate)
      decreases Progress.MainRank(s.main), Progress.Unread(s), Progress.Pumping(s), Progress.Unsent(s)
    {
      var a: Streaming.Action := *;
      if !Streaming.Enabled(s, a) || Progress.Stutters(a) || !Streaming.Follows(fate, a) {
        Progress.ChooseIsEnabled(s, Executor.BUFFER_SIZE, fate);
        a := Progress.Choose(s, Executor.BUFFER_SIZE, fate);
      }
      RunHasLine(stdout, stderr, run);
      var s', acts := Move(s, a, conn, out, err);
      Streaming.InvRun(s, acts, stdout, stderr);
      Progress.AgreesRun(s, acts, fate);
      Progress.RunDescends(s, acts, stdout, stderr);
      Streaming.LegalConcat(Streaming.Init(stdout, stderr), run, acts);
      s, run := s', run + acts;
    }
  }

  lemma RenderedLines(es: seq<Streaming.Entry>)
    ensures Streaming.EntryLines(Streaming.Bytes, es) == LinesOf(Encode, Streaming.RenderAll(es))
  {
    forall i | 0 <= i < |es|
      ensures Streaming.EntryLines(Streaming.Bytes, es)[i] == LinesOf(Encode, Streaming.RenderAll(es))[i]
    {
      Streaming.LinesTake(Streaming.Bytes, es, i);
    }
  }

  /** The step system's channel carries its lines. */
  lemma ChannelCarries(c: Streaming.Channel)
    requires Streaming.ChannelOk(c) && c.lock.Open?
    ensures Carries(c.wire, c.broken, c.lines)
  {
    if c.broken {
      assert CutAt(c.wire, c.lines, c.done, c.sent);
    } else {
      assert c.lines[..c.done] == c.lines;
    }
  }

  lemma CommandCarries(stdout: string, stderr: string, run: seq<Streaming.Action>)
    requires Streaming.Legal(Streaming.Init(stdout, stderr), run)
    ensures var s := Streaming.End(Streaming.Init(stdout, stderr), run);
            s.main.Finished? ==> Carries(s.ch.wire, s.ch.broken, LinesOf(Encode, Streaming.RenderAll(s.log)))
  {
    Streaming.Delivered(stdout, stderr, run);
    var s := Streaming.End(Streaming.Init(stdout, stderr), run);
    if s.main.Finished? {
      ChannelCarries(s.ch);
      RenderedLines(s.log);
    }
  }

  // ----- what a connection is answered

  /** What the outside contributes to one connection: the bytes sent by the client,
      the service's environment, the command's two outputs and how it ends, and the
      course of an update. */
  datatype Outside = Outside(
    request: string, environ: seq<string>, stdout: string, stderr: string, fate: Streaming.Fate, world: Update.World)

  /** The service as a connection sees it. */
  datatype Service = Service(version: string, binaryPath: string)

  ghost predicate CommandRun(o: Outside, run: seq<Streaming.Action>, rs: seq<Response>) {
    && Streaming.Legal(Streaming.Init(o.stdout, o.stderr), run)
    && (forall a | a in run :: Streaming.Follows(o.fate, a))
    && (var s := Streaming.End(Streaming.Init(o.stdout, o.stderr), run);
        s.main.Finished? && rs == Streaming.RenderAll(s.log))
  }

  /** The last response tells how the command ended: with which exit code, or why
      not. */
  predicate LastTells(rs: seq<Response>, f: Streaming.Fate) {
    && rs != []
    && (var last := rs[|rs| - 1];
        match (f.failure, f.ending)
        case (Some(m), _) => last.kind == "error" && last.message == m && last.code == None
        case (None, Exit(code)) => last.kind == "exit" && last.code == Some(code)
        case (None, Error(m)) => last.kind == "error" && last.message == m && last.code == None)
  }

  /** An update response with nothing in it but its status and the versions. */
  predicate IsStatus(r: Response, v: Service, text: string, latest: string) {
    && r.kind == "update" && r.updateStatus == text && r.currentVersion == v.version && r.latestVersion == latest
    && r.data == "" && r.code == None
  }

  /** Some asset of the release is for the platform. */
  ghost predicate Available(w: Update.World) {
    && w.release.Some?
    && exists a | a in w.release.value.assets :: Assets.Exact(a.name, w.os, w.arch) || Assets.Fallback(a.name, w.os, w.arch)
  }

  /** The update gets to its download. */
  ghost predicate Downloads(v: Service, w: Update.World) {
    && v.binaryPath != "" && w.release.Some? && History.Offers(v.version, w.release.value.tag) && !w.cancelled
    && Available(w)
  }

  /** The texts an update is told. */
  ghost function UpdateTexts(v: Service, w: Update.World, replaced: bool): seq<string> {
    if v.binaryPath == "" || w.release.None? then ["failed"]
    else if !History.Offers(v.version, w.release.value.tag) then ["current"]
    else if w.cancelled then []
    else if !Available(w) then ["failed"]
    else if replaced then ["downloading", "applied", "restarting"]
    else ["downloading", "failed"]
  }

  ghost predicate Tells(rs: seq<Response>, v: Service, texts: seq<string>, tag: string) {
    && |rs| == |texts|
    && forall i | 0 <= i < |rs| :: IsStatus(rs[i], v, texts[i], if texts[i] == "restarting" then tag else "")
  }

  /** A refused request is told why. */
  predicate TellsProblem(r: Response, p: Request.Problem) {
    && r.kind == "error" && r.data == "" && r.code == None
    && match p
       case RequestTooLarge => r.message == "request too large (max 10485760 bytes)"
       case ReadFailed => HasPrefix(r.message, "reading request: ")
       case BadJson => HasPrefix(r.message, "parsing request JSON: ")
       case NothingAsked => r.message == "request must have either command or action"
       case UnknownAction(action) => r.message == "unknown action: " + action
  }

  /** The responses to one connection, by the outcome of its request; `replaced`
      says whether it has replaced the binary. */
  ghost predicate Answers(out: Request.Outcome, v: Service, o: Outside, replaced: bool, rs: seq<Response>) {
    match out
    case Refused(p) => !replaced && |rs| == 1 && TellsProblem(rs[0], p)
    case Accepted(q) =>
      if q.action == "" then !replaced && LastTells(rs, o.fate) && exists run :: CommandRun(o, run, rs)
      else AnswersAction(q.action, v, o, replaced, rs)
  }

  ghost predicate AnswersAction(action: string, v: Service, o: Outside, replaced: bool, rs: seq<Response>) {
    if action == "update" then
      && (replaced ==> Downloads(v, o.world))
      && Tells(rs, v, UpdateTexts(v, o.world, replaced), if o.world.release.Some? then o.world.release.value.tag else "")
    else
      && !replaced && |rs| == 1
      && if action == "version" then rs[0] == EMPTY.(kind := "version", currentVersion := v.version)
         else TellsCheck(rs[0], v, o.world.release)
  }

  /** "available" exactly for a newer release. */
  ghost predicate TellsCheck(r: Response, v: Service, release: Option<Update.Release>) {
    if v.binaryPath == "" || release.None? then IsStatus(r, v, "failed", "")
    else IsStatus(r, v, if History.Offers(v.version, release.value.tag) then "available" else "current", release.value.tag)
  }

  /** A single notice as a response. */
  lemma NoticeIs(v: Service, rs: seq<Response>, ns: seq<Update.Notice>, i: nat)
    requires Update.Reports(rs, ns) && i < |ns| && ns[i].current == v.version
    ensures IsStatus(rs[i], v, Update.StatusText(ns[i].status), ns[i].latest)
  {
  }

  lemma StoryTexts(v: Service, w: Update.World, g: Update.Gate, replaced: bool, rs: seq<Response>)
    requires g == Update.GateOf(v.version, w) && (replaced ==> Update.MayReplace(v.binaryPath, g))
    requires Update.Reports(rs, Update.Story(v.version, v.binaryPath, g, replaced))
    ensures replaced ==> Downloads(v, w)
    ensures Tells(rs, v, UpdateTexts(v, w, replaced), if w.release.Some? then w.release.value.tag else "")
  {
    GateIs(v, w, g);
    var ns, texts := Update.Story(v.version, v.binaryPath, g, replaced), UpdateTexts(v, w, replaced);
    StoryIs(v, g, replaced, texts);
    forall i | 0 <= i < |rs| ensures IsStatus(rs[i], v, texts[i], if texts[i] == "restarting" then w.release.value.tag else "") {
      NoticeIs(v, rs, ns, i);
    }
  }

  lemma GateIs(v: Service, w: Update.World, g: Update.Gate)
    requires g == Update.GateOf(v.version, w)
    ensures g.Open? <==> w.release.Some? && History.Offers(v.version, w.release.value.tag) && !w.cancelled && Available(w)
    ensures g.Open? ==> g.tag == w.release.value.tag
    ensures g.NoRelease? <==> w.release.None?
    ensures g.UpToDate? <==> w.release.Some? && !History.Offers(v.version, w.release.value.tag)
    ensures g.Cancelled? <==> w.release.Some? && History.Offers(v.version, w.release.value.tag) && w.cancelled
  {
  }

  lemma StoryIs(v: Service, g: Update.Gate, replaced: bool, texts: seq<string>)
    requires replaced ==> Update.MayReplace(v.binaryPath, g)
    requires texts ==
      if v.binaryPath == "" || g.NoRelease? || g.NoAsset? then ["failed"]
      else if g.UpToDate? then ["current"]
      else if g.Cancelled? then []
      else if replaced then ["downloading", "applied", "restarting"]
      else ["downloading", "failed"]
    ensures var ns := Update.Story(v.version, v.binaryPath, g, replaced);
            && |ns| == |texts|
            && forall i | 0 <= i < |ns| ::
                 && ns[i].current == v.version && Update.StatusText(ns[i].status) == texts[i]
                 && ns[i].latest == (if texts[i] == "restarting" then g.tag else "")
  {
    assert "restarting"[0] == 'r' && "failed"[0] == 'f' && "current"[0] == 'c' && "downloading"[0] == 'd' && "applied"[0] == 'a';
  }

  /** Keeps the prover from looking inside a statement that is only passed on. */
  datatype Seal = Closed | Open

  /** The prescribed responses were sent, up to the first failed write. */
  ghost predicate Answered(sent: string, broken: bool, v: Service, decode: string -> Option<Request.Request>, o: Outside,
                           replaced: bool, rs: seq<Response>) {
    forall seal: Seal | seal.Open? ::
      Answers(Request.Parse(o.request, decode), v, o, replaced, rs) && Carries(sent, broken, LinesOf(Encode, rs))
  }

  lemma AnsweredExactly(sent: string, broken: bool, v: Service, decode: string -> Option<Request.Request>, o: Outside,
                        replaced: bool, rs: seq<Response>)
    ensures Answered(sent, broken, v, decode, o, replaced, rs)
       <==> Answers(Request.Parse(o.request, decode), v, o, replaced, rs) && Carries(sent, broken, LinesOf(Encode, rs))
  {
    var seal := Open;
    assert seal.Open?;
  }

  /** The binary on the disk is sound and completely what the update brought, and its
      release is newer than the service. */
  ghost predicate Installed(v: Service, w: Update.World, files: Disk.Files) {
    && w.release.Some? && History.Offers(v.version, w.release.value.tag)
    && Replace.Complete(files, v.binaryPath, Update.Payload(w, v.binaryPath))
  }

  /** The update gets to its download and nothing stands against it. */
  ghost predicate Unhindered(v: Service, w: Update.World, vacant: bool, dirs: set<string>, umask: Disk.Mode) {
    Downloads(v, w) && Update.Feasible(w, v.binaryPath, vacant, dirs, umask)
  }

  /** What an installed binary is, in plain terms. */
  lemma InstalledIs(v: Service, w: Update.World, files: Disk.Files)
    requires Installed(v, w, files)
    ensures v.binaryPath in files && |files[v.binaryPath].data| >= 102400 && Disk.Executable(files[v.binaryPath].mode)
    ensures Update.IsPayload(files[v.binaryPath].data, w.archive.entries, Paths.Base(v.binaryPath))
  {
    Update.PayloadIs(w, v.binaryPath);
  }

  /** At every point a crash can leave behind, the binary is the old one or, if it is
      replaced, the new one. */
  ghost predicate Untorn(h: seq<Disk.Files>, from: nat, before: Disk.Files, v: Service, w: Update.World, replaced: bool) {
    Update.OldOrNew(h, from, before, v.binaryPath, Update.Payload(w, v.binaryPath), replaced)
  }

  /** One response on a fresh connection. */
  method Reply(conn: Conn, resp: Response)
    requires conn.sent == "" && !conn.broken
    modifies conn
    ensures Carries(conn.sent, conn.broken, LinesOf(Encode, [resp]))
  {
    var n, _ := WriteResponse(conn, resp);
    CarriesMore("", false, [], Line(resp), n);
    assert LinesOf(Encode, [resp]) == [] + [Line(resp)];
  }

  /** The one response on a connection that is turned away before its request. */
  ghost predicate TurnedAway(f: Format, sent: string, broken: bool, text: string) {
    exists r: Response :: Carries(sent, broken, LinesOf(f, [r])) && IsError(r, text)
  }

  predicate IsError(r: Response, text: string) {
    && r.kind == "error" && r.message == text && r.data == "" && r.code == None
    && r.updateStatus == "" && r.currentVersion == "" && r.latestVersion == ""
  }

  method TurnAway(f: Format, conn: Conn, text: string)
    requires conn.sent == "" && !conn.broken
    modifies conn
    ensures TurnedAway(f, conn.sent, conn.broken, text)
  {
    var resp := ErrorResponse(text);
    var line := f(resp) + ['\n'];
    WriteLine(conn, line, []);
    assert LinesOf(f, [resp]) == [] + [line] && IsError(resp, text);
  }

  method HandleAction(conn: Conn, action: string, v: Service, disk: Disk.Disk, o: Outside)
    returns (replaced: bool, ghost rs: seq<Response>)
    requires conn.sent == "" && !conn.broken && Request.KnownAction(action)
    requires v.binaryPath != "" ==> Update.Ordinary(o.world, v.binaryPath)
    modifies conn, disk
    ensures AnswersAction(action, v, o, replaced, rs)
    ensures Carries(conn.sent, conn.broken, LinesOf(Encode, rs))
    ensures replaced ==> Installed(v, o.world, disk.files)
    ensures !replaced ==> Replace.Same(disk.files, old(disk.files), v.binaryPath)
    ensures old(disk.history) <= disk.history
    ensures Untorn(disk.history, |old(disk.history)|, old(disk.files), v, o.world, replaced)
    ensures old(disk.faults) <= disk.faults
    ensures disk.faults == old(disk.faults) ==>
      (replaced <==> action == "update" && Unhindered(v, o.world, old(disk.Vacant(o.world.tempName)), old(disk.dirs), disk.umask))
  {
    replaced := false;
    if action == "version" {
      rs := HandleVersion(conn, v);
    } else if action == "check-update" {
      rs := HandleCheck(conn, v, o);
    } else {
      replaced, rs := HandleUpdate(conn, v, disk, o);
    }
  }

  method HandleVersion(conn: Conn, v: Service) returns (ghost rs: seq<Response>)
    requires conn.sent == "" && !conn.broken
    modifies conn
    ensures |rs| == 1 && rs[0] == EMPTY.(kind := "version", currentVersion := v.version)
    ensures Carries(conn.sent, conn.broken, LinesOf(Encode, rs))
  {
    rs := [VersionResponse(v.version)];
    Reply(conn, VersionResponse(v.version));
  }

  method HandleCheck(conn: Conn, v: Service, o: Outside) returns (ghost rs: seq<Response>)
    requires conn.sent == "" && !conn.broken
    modifies conn
    ensures |rs| == 1 && TellsCheck(rs[0], v, o.world.release) && Carries(conn.sent, conn.broken, LinesOf(Encode, rs))
  {
    var client := new Update.Client(conn, Encode);
    Update.HandleCheckUpdate(v.version, v.binaryPath, o.world.release, client);
    rs := client.responses;
    CheckTells(v, o.world.release, rs, client.notices);
  }

  lemma CheckTells(v: Service, release: Option<Update.Release>, rs: seq<Response>, ns: seq<Update.Notice>)
    requires Update.Reports(rs, ns)
    requires ns == [Update.Notice(Update.CheckStatus(v.version, v.binaryPath, release), v.version,
                                  if v.binaryPath == "" || release.None? then "" else release.value.tag)]
    ensures |rs| == 1 && TellsCheck(rs[0], v, release)
  {
    NoticeIs(v, rs, ns, 0);
  }

  method HandleUpdate(conn: Conn, v: Service, disk: Disk.Disk, o: Outside) returns (replaced: bool, ghost rs: seq<Response>)
    requires conn.sent == "" && !conn.broken
    requires v.binaryPath != "" ==> Update.Ordinary(o.world, v.binaryPath)
    modifies conn, disk
    ensures AnswersAction("update", v, o, replaced, rs) && Carries(conn.sent, conn.broken, LinesOf(Encode, rs))
    ensures replaced ==> Installed(v, o.world, disk.files)
    ensures !replaced ==> Replace.Same(disk.files, old(disk.files), v.binaryPath)
    ensures old(disk.history) <= disk.history
    ensures Untorn(disk.history, |old(disk.history)|, old(disk.files), v, o.world, replaced)
    ensures old(disk.faults) <= disk.faults
    ensures disk.faults == old(disk.faults) ==>
      (replaced <==> Unhindered(v, o.world, old(disk.Vacant(o.world.tempName)), old(disk.dirs), disk.umask))
  {
    var client := new Update.Client(conn, Encode);
    var changed, gate := Update.HandleUpdate(v.version, v.binaryPath, disk, o.world, client);
    replaced, rs := changed, client.responses;
    assert client.notices == Update.Story(v.version, v.binaryPath, gate, replaced);
    StoryTexts(v, o.world, gate, replaced, rs);
    GateIs(v, o.world, gate);
  }

  /** An update for some client. */
  method SomeUpdate(v: Service, disk: Disk.Disk, w: Update.World) returns (replaced: bool)
    requires v.binaryPath != "" ==> Update.Ordinary(w, v.binaryPath)
    modifies disk
    ensures replaced ==> Installed(v, w, disk.files)
    ensures !replaced ==> Replace.Same(disk.files, old(disk.files), v.binaryPath)
    ensures old(disk.history) <= disk.history
    ensures Untorn(disk.history, |old(disk.history)|, old(disk.files), v, w, replaced)
  {
    var conn := new Conn();
    var client := new Update.Client(conn, Encode);
    var changed, _ := Update.HandleUpdate(v.version, v.binaryPath, disk, w, client);
    replaced := changed;
  }

  lemma ErrorTells(p: Request.Problem, wrapped: string)
    ensures TellsProblem(ErrorResponse(Request.ErrorText(p, wrapped)), p)
  {
  }

  /** The last response of a command follows from how it ends. */
  lemma CommandTells(o: Outside, run: seq<Streaming.Action>, rs: seq<Response>)
    requires CommandRun(o, run, rs)
    ensures LastTells(rs, o.fate)
  {
    var e := Streaming.EndOfRun(o.stdout, o.stderr, run);
    EndFollows(run, e, o.fate);
  }

  lemma EndFollows(run: seq<Streaming.Action>, e: Streaming.Ending, f: Streaming.Fate)
    requires Streaming.SettledBy(run, e) && forall a | a in run :: Streaming.Follows(f, a)
    ensures e == if f.failure.Some? then Streaming.Error(f.failure.value) else f.ending
  {
    var a :| a in run && Streaming.EndingOf(a).Some?;
  }

  /** handleConnection: parse, then run the command or dispatch the action, then
      close. Whatever arrives, in whatever pieces, and whatever fails, what is sent
      is a prescribed sequence of responses, up to the first failed write. A command
      gets the merged environment. The binary is replaced exactly if the result says
      so. */
  method HandleConnection(conn: Conn, reader: Request.Source, decode: string -> Option<Request.Request>,
                          v: Service, disk: Disk.Disk, o: Outside)
    returns (replaced: bool, env: seq<string>, ghost rs: seq<Response>)
    requires conn.sent == "" && !conn.broken && reader.rest == o.request
    requires v.binaryPath != "" ==> Update.Ordinary(o.world, v.binaryPath)
    modifies conn, reader, disk
    ensures var out := Request.Parse(o.request, decode);
            && Answered(conn.sent, conn.broken, v, decode, o, replaced, rs)
            && (out.Accepted? && out.request.action == "" ==> Environment.Merges(env, o.environ, out.request.env))
    ensures replaced ==> Installed(v, o.world, disk.files)
    ensures !replaced ==> Replace.Same(disk.files, old(disk.files), v.binaryPath)
    ensures old(disk.history) <= disk.history
    ensures Untorn(disk.history, |old(disk.history)|, old(disk.files), v, o.world, replaced)
    ensures old(disk.faults) <= disk.faults
    ensures disk.faults == old(disk.faults) ==>
      var out := Request.Parse(o.request, decode);
      (replaced <==> out.Accepted? && out.request.action == "update"
                     && Unhindered(v, o.world, old(disk.Vacant(o.world.tempName)), old(disk.dirs), disk.umask))
  {
    var parsed := Request.ParseRequest(reader, decode);
    replaced, env := false, [];
    if parsed.Refused? {
      var wrapped: string := *;
      var resp := ErrorResponse(Request.ErrorText(parsed.problem, wrapped));
      ErrorTells(parsed.problem, wrapped);
      rs := [resp];
      Reply(conn, resp);
      return;
    }
    var req := parsed.request;
    Request.AcceptedExactly(o.request, decode, req);
    if req.action != "" {
      replaced, rs := HandleAction(conn, req.action, v, disk, o);
      return;
    }
    var order := Environment.Range(req.env);
    env := Environment.MergeEnv(o.environ, req.env, order);
    var out := new Executor.Pipe(o.stdout);
    var err := new Executor.Pipe(o.stderr);
    var s, run := RunCommand(conn, out, err, o.fate);
    CommandCarries(o.stdout, o.stderr, run);
    rs := Streaming.RenderAll(s.log);
    assert CommandRun(o, run, rs);
    CommandTells(o, run, rs);
  }

  /** The same for a stream of bytes that arrives on the connection. */
  method Converse(conn: Conn, decode: string -> Option<Request.Request>, v: Service, disk: Disk.Disk, o: Outside)
    returns (replaced: bool, ghost rs: seq<Response>)
    requires conn.sent == "" && !conn.broken && (v.binaryPath != "" ==> Update.Ordinary(o.world, v.binaryPath))
    modifies conn, disk
    ensures Answered(conn.sent, conn.broken, v, decode, o, replaced, rs)
    ensures replaced ==> Installed(v, o.world, disk.files)
    ensures !replaced ==> Replace.Same(disk.files, old(disk.files), v.binaryPath)
    ensures old(disk.history) <= disk.history
    ensures Untorn(disk.history, |old(disk.history)|, old(disk.files), v, o.world, replaced)
  {
    var reader := new Request.Source(o.request);
    var changed, _, told := HandleConnection(conn, reader, decode, v, disk, o);
    replaced, rs := changed, told;
  }

  predicate EndsWithExitOrError(rs: seq<Response>) { rs != [] && Streaming.IsLast(rs[|rs| - 1]) }

  lemma NoticeIsNotLast(r: Response)
    requires r.kind == "update" || r.kind == "version"
    ensures !Streaming.IsLast(r)
  {
    assert |"update"| == 6 && |"version"| == 7 && |"exit"| == 4 && |"error"| == 5;
  }

  lemma CommandEnds(o: Outside, run: seq<Streaming.Action>, rs: seq<Response>)
    requires CommandRun(o, run, rs)
    ensures EndsWithExitOrError(rs)
  {
    ShapeOfRun(o.stdout, o.stderr, run);
    Streaming.FinishedShape(Streaming.End(Streaming.Init(o.stdout, o.stderr), run).log);
  }

  lemma ShapeOfRun(stdout: string, stderr: string, run: seq<Streaming.Action>)
    requires Streaming.Legal(Streaming.Init(stdout, stderr), run)
    ensures var s := Streaming.End(Streaming.Init(stdout, stderr), run);
            s.main.Finished? ==> Streaming.LogShape(s.log, true)
  {
    Streaming.Delivered(stdout, stderr, run);
  }

  /** "The stream always terminates with either an exit or error response" holds of
      a connection exactly if its request was refused or asked for a command, not
      for an action. */
  lemma TerminatesExactly(stream: string, decode: string -> Option<Request.Request>, v: Service, o: Outside,
                          replaced: bool, rs: seq<Response>)
    requires Answers(Request.Parse(stream, decode), v, o, replaced, rs)
    ensures EndsWithExitOrError(rs) <==>
      var out := Request.Parse(stream, decode); out.Refused? || out.request.action == ""
  {
    var out := Request.Parse(stream, decode);
    if out.Accepted? {
      var q := out.request;
      Request.AcceptedExactly(stream, decode, q);
      if q.action == "" {
        var run :| CommandRun(o, run, rs);
        CommandEnds(o, run, rs);
      } else if rs != [] {
        NoticeIsNotLast(rs[|rs| - 1]);
      }
    }
  }

  function Respond(v: Service, texts: seq<string>, tag: string): (rs: seq<Response>)
    ensures Tells(rs, v, texts, tag)
  {
    seq(|texts|, i requires 0 <= i < |texts| => UpdateResponse(texts[i], v.version, if texts[i] == "restarting" then tag else "", ""))
  }

  /** Every outcome of a request has an answer. */
  lemma Answerable(out: Request.Outcome, v: Service, o: Outside)
    requires out.Accepted? ==> Request.Acceptable(out.request)
    ensures exists replaced, rs :: Answers(out, v, o, replaced, rs)
  {
    var tag := if o.world.release.Some? then o.world.release.value.tag else "";
    if out.Refused? {
      ErrorTells(out.problem, "");
      assert Answers(out, v, o, false, [ErrorResponse(Request.ErrorText(out.problem, ""))]);
    } else if out.request.action == "version" {
      assert Answers(out, v, o, false, [VersionResponse(v.version)]);
    } else if out.request.action == "check-update" {
      var n := Update.Notice(Update.CheckStatus(v.version, v.binaryPath, o.world.release), v.version,
                             if v.binaryPath == "" || o.world.release.None? then "" else tag);
      var rs := [UpdateResponse(Update.StatusText(n.status), n.current, n.latest, "")];
      CheckTells(v, o.world.release, rs, [n]);
      assert Answers(out, v, o, false, rs);
    } else if out.request.action == "update" {
      assert Answers(out, v, o, false, Respond(v, UpdateTexts(v, o.world, false), tag));
    } else {
      var run := SomeRun(o);
      var rs := Streaming.RenderAll(Streaming.End(Streaming.Init(o.stdout, o.stderr), run).log);
      CommandTells(o, run, rs);
      assert Answers(out, v, o, false, rs);
    }
  }

  lemma SomeRun(o: Outside) returns (run: seq<Streaming.Action>)
    ensures Streaming.Legal(Streaming.Init(o.stdout, o.stderr), run)
    ensures CommandRun(o, run, Streaming.RenderAll(Streaming.End(Streaming.Init(o.stdout, o.stderr), run).log))
  {
    Streaming.InitOk(o.stdout, o.stderr);
    run := Progress.Completes(Streaming.Init(o.stdout, o.stderr), o.stdout, o.stderr, Executor.BUFFER_SIZE, o.fate);
  }
}
