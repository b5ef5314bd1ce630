/**
 What a client reads of a command's output, byte for byte. The pumps cut the
 output at byte counts, and JSON text replaces every byte that is not part of
 well-formed UTF-8.
 */
module Fidelity {
  import opened Options
  import opened Text
  import opened Utf8
  import opened Protocol
  import opened Streaming
  import Progress

  function SanitizeEach(cs: seq<string>): seq<string> {
    if cs == [] then [] else [Sanitize(cs[0])] + SanitizeEach(cs[1..])
  }

  lemma {:induction false} SanitizedLength(cs: seq<string>)
    ensures |Flatten(SanitizeEach(cs))| >= |Flatten(cs)|
    ensures |Flatten(SanitizeEach(cs))| == |Flatten(cs)| <==> forall c | c in cs :: Valid(c)
    ensures (forall c | c in cs :: Valid(c)) ==> SanitizeEach(cs) == cs
  {
    if cs != [] {
      SanitizeGrows(cs[0]);
      SanitizedLength(cs[1..]);
      if forall c | c in cs :: Valid(c) {
        assert cs[0] in cs && forall c | c in cs[1..] :: c in cs;
      }
      assert cs == [cs[0]] + cs[1..];
    }
  }

  lemma SanitizedExactly(cs: seq<string>)
    ensures Flatten(SanitizeEach(cs)) == Flatten(cs) <==> forall c | c in cs :: Valid(c)
  {
    SanitizedLength(cs);
  }

  lemma CleanKind(e: Entry)
    ensures Clean(Render(e)).kind == Render(e).kind && (e.Chunk? ==> Clean(Render(e)).data == Sanitize(e.data))
  {
    var k := Render(e).kind;
    assert Ascii(k);
    AsciiIsValid(k);
    SanitizeExactly(k);
  }

  lemma CollectOne(e: Entry, es: seq<Entry>)
    ensures Collect([Clean(Render(e))] + CleanAll(RenderAll(es)), "stdout")
         == (if e.Chunk? && e.who.Out? then Sanitize(e.data) else "") + Collect(CleanAll(RenderAll(es)), "stdout")
    ensures Collect([Clean(Render(e))] + CleanAll(RenderAll(es)), "stderr")
         == (if e.Chunk? && e.who.Err? then Sanitize(e.data) else "") + Collect(CleanAll(RenderAll(es)), "stderr")
  {
    CleanKind(e);
    Kinds(e);
    assert ([Clean(Render(e))] + CleanAll(RenderAll(es)))[1..] == CleanAll(RenderAll(es));
  }

  lemma ChunksOne(e: Entry, es: seq<Entry>, w: Who)
    ensures Flatten(SanitizeEach(Chunks([e] + es, w)))
         == (if e.Chunk? && e.who == w then Sanitize(e.data) else "") + Flatten(SanitizeEach(Chunks(es, w)))
  {
    assert ([e] + es)[1..] == es;
    if !(e.Chunk? && e.who == w) {
      assert [] + Chunks(es, w) == Chunks(es, w);
    }
  }

  /** The client collects the sanitized chunks of each stream. */
  lemma {:induction false} CollectCleaned(es: seq<Entry>)
    ensures Collect(CleanAll(RenderAll(es)), "stdout") == Flatten(SanitizeEach(Chunks(es, Out)))
    ensures Collect(CleanAll(RenderAll(es)), "stderr") == Flatten(SanitizeEach(Chunks(es, Err)))
  {
    if es != [] {
      var e, rest := es[0], es[1..];
      CollectCleaned(rest);
      CollectOne(e, rest);
      ChunksOne(e, rest, Out);
      ChunksOne(e, rest, Err);
      assert es == [e] + rest;
      assert CleanAll(RenderAll(es)) == [Clean(Render(e))] + CleanAll(RenderAll(rest));
    }
  }

  /** What the client of a finished, unbroken run holds of each stream. */
  function ClientStdout(s: State): string {
    match ReadStream(s.ch.wire)
    case Some(rs) => Collect(rs, "stdout")
    case None => ""
  }

  function ClientStderr(s: State): string {
    match ReadStream(s.ch.wire)
    case Some(rs) => Collect(rs, "stderr")
    case None => ""
  }

  lemma WholeWire(wire: string, rs: seq<Response>)
    requires wire == Wire(rs)
    ensures ReadStream(wire) == Some(CleanAll(rs))
  {
    ReadWire(rs, "");
    assert wire + "" == wire;
  }

  lemma ClientReads(s: State, stdout: string, stderr: string)
    requires Inv(s, stdout, stderr) && s.format == Bytes && s.main.Finished? && !s.ch.broken
    ensures ReadStream(s.ch.wire) == Some(CleanAll(RenderAll(s.log)))
  {
    assert s.ch.lock.Open?;
    FinishedChannel(s);
    WholeWire(s.ch.wire, RenderAll(s.log));
  }

  lemma ClientCollects(s: State, stdout: string, stderr: string)
    requires Inv(s, stdout, stderr) && s.format == Bytes && s.main.Finished? && !s.ch.broken
    ensures ClientStdout(s) == Flatten(SanitizeEach(s.out.chunks))
    ensures ClientStderr(s) == Flatten(SanitizeEach(s.err.chunks))
  {
    ClientReads(s, stdout, stderr);
    ClientChunks(s, stdout, stderr);
  }

  lemma ClientChunks(s: State, stdout: string, stderr: string)
    requires Streams(s.out, s.err, s.log, stdout, stderr) && Resting(s.out) && Resting(s.err)
    ensures Collect(CleanAll(RenderAll(s.log)), "stdout") == Flatten(SanitizeEach(s.out.chunks))
    ensures Collect(CleanAll(RenderAll(s.log)), "stderr") == Flatten(SanitizeEach(s.err.chunks))
  {
    FinishedPumps(s, stdout, stderr);
    CollectCleaned(s.log);
  }

  /** Both pipes read to the end, and no write failed. */
  predicate Undisturbed(s: State) { s.main.Finished? && !s.ch.broken && s.out.rest == "" && s.err.rest == "" }

  lemma WholeOutputs(stdout: string, stderr: string, run: seq<Action>)
    requires Legal(Init(stdout, stderr), run) && Undisturbed(End(Init(stdout, stderr), run))
    ensures var s := End(Init(stdout, stderr), run);
            Flatten(s.out.chunks) == stdout && Flatten(s.err.chunks) == stderr
  {
    Delivered(stdout, stderr, run);
    var s := End(Init(stdout, stderr), run);
    assert Flatten(s.out.chunks) + "" == Flatten(s.out.chunks);
    assert Flatten(s.err.chunks) + "" == Flatten(s.err.chunks);
  }

  /** End to end, in one run: the client holds exactly the command's output if and
      only if each chunk by itself was valid UTF-8. */
  lemma FaithfulRun(stdout: string, stderr: string, run: seq<Action>)
    requires Legal(Init(stdout, stderr), run)
    ensures var s := End(Init(stdout, stderr), run);
            Undisturbed(s) ==>
              && (ClientStdout(s) == stdout <==> forall c | c in s.out.chunks :: Valid(c))
              && (ClientStderr(s) == stderr <==> forall c | c in s.err.chunks :: Valid(c))
  {
    Delivered(stdout, stderr, run);
    var s := End(Init(stdout, stderr), run);
    if Undisturbed(s) {
      ClientCollects(s, stdout, stderr);
      SanitizedExactly(s.out.chunks);
      SanitizedExactly(s.err.chunks);
      assert Flatten(s.out.chunks) + "" == Flatten(s.out.chunks);
      assert Flatten(s.err.chunks) + "" == Flatten(s.err.chunks);
    }
  }

  /** A response tells how the command ended: the exit code that cmd.Wait returned,
      or the error of cmd.Start or cmd.Wait. */
  ghost predicate TellsEnd(last: Response, run: seq<Action>) {
    && (forall c | WaitReturns(Exit(c)) in run :: last.kind == "exit" && last.code == Some(c))
    && (forall m | StartFails(m) in run || WaitReturns(Error(m)) in run ::
          last.kind == "error" && last.code == None && last.message == Sanitize(m))
    && (exists a :: a in run && (a.StartFails? || a.WaitReturns?))
  }

  lemma LastRead(log: seq<Entry>, e: Ending)
    requires log != [] && log[|log| - 1] == Final(e)
    ensures CleanAll(RenderAll(log)) != []
    ensures var last := CleanAll(RenderAll(log))[|log| - 1];
            && (e.Exit? ==> last.kind == "exit" && last.code == Some(e.code))
            && (e.Error? ==> last.kind == "error" && last.code == None && last.message == Sanitize(e.message))
  {
    CleanKind(Final(e));
  }

  lemma EndTold(last: Response, run: seq<Action>, e: Ending)
    requires SettledBy(run, e)
    requires e.Exit? ==> last.kind == "exit" && last.code == Some(e.code)
    requires e.Error? ==> last.kind == "error" && last.code == None && last.message == Sanitize(e.message)
    ensures TellsEnd(last, run)
  {
    forall c | WaitReturns(Exit(c)) in run ensures e == Exit(c) {
      assert EndingOf(WaitReturns(Exit(c))) == Some(Exit(c));
    }
    forall m | StartFails(m) in run || WaitReturns(Error(m)) in run ensures e == Error(m) {
      assert EndingOf(StartFails(m)) == Some(Error(m)) && EndingOf(WaitReturns(Error(m))) == Some(Error(m));
    }
  }

  lemma RunReads(stdout: string, stderr: string, run: seq<Action>)
    requires Legal(Init(stdout, stderr), run)
    requires End(Init(stdout, stderr), run).main.Finished? && !End(Init(stdout, stderr), run).ch.broken
    ensures ReadStream(End(Init(stdout, stderr), run).ch.wire) == Some(CleanAll(RenderAll(End(Init(stdout, stderr), run).log)))
  {
    Delivered(stdout, stderr, run);
    ClientReads(End(Init(stdout, stderr), run), stdout, stderr);
  }

  /** What the client of a finished, unbroken run reads last tells how the command
      ended. */
  lemma LastSaysHow(stdout: string, stderr: string, run: seq<Action>)
    requires Legal(Init(stdout, stderr), run)
    requires End(Init(stdout, stderr), run).main.Finished? && !End(Init(stdout, stderr), run).ch.broken
    ensures var read := ReadStream(End(Init(stdout, stderr), run).ch.wire);
            read.Some? && read.value != [] && TellsEnd(read.value[|read.value| - 1], run)
  {
    var log := End(Init(stdout, stderr), run).log;
    var e := EndOfRun(stdout, stderr, run);
    RunReads(stdout, stderr, run);
    LastRead(log, e);
    EndTold(CleanAll(RenderAll(log))[|log| - 1], run, e);
  }

  lemma {:induction false} AsciiChunks(cs: seq<string>)
    requires Ascii(Flatten(cs))
    ensures forall c | c in cs :: Valid(c)
  {
    if cs != [] {
      assert forall x | x in cs[0] :: x in Flatten(cs);
      assert forall x | x in Flatten(cs[1..]) :: x in Flatten(cs);
      AsciiIsValid(cs[0]);
      AsciiChunks(cs[1..]);
    }
  }

  /** So ASCII output arrives unchanged however it was cut. */
  lemma AsciiIsFaithful(stdout: string, stderr: string, run: seq<Action>)
    requires Legal(Init(stdout, stderr), run)
    ensures var s := End(Init(stdout, stderr), run);
            Undisturbed(s) ==>
              && (Ascii(stdout) ==> ClientStdout(s) == stdout)
              && (Ascii(stderr) ==> ClientStderr(s) == stderr)
  {
    FaithfulRun(stdout, stderr, run);
    var s := End(Init(stdout, stderr), run);
    if Undisturbed(s) {
      WholeOutputs(stdout, stderr, run);
      if Ascii(stdout) { AsciiChunks(s.out.chunks); }
      if Ascii(stderr) { AsciiChunks(s.err.chunks); }
    }
  }

  /** A run in which each read returns a single byte. */
  lemma SlowRun(stdout: string, stderr: string) returns (run: seq<Action>)
    ensures Legal(Init(stdout, stderr), run)
    ensures var s := End(Init(stdout, stderr), run);
            && Undisturbed(s) && Flatten(s.out.chunks) == stdout && Flatten(s.err.chunks) == stderr
            && Progress.Narrow(s.out, 1) && Progress.Narrow(s.err, 1)
  {
    InitOk(stdout, stderr);
    run := Progress.Completes(Init(stdout, stderr), stdout, stderr, 1, Fate(None, Exit(0)));
    WholeOutputs(stdout, stderr, run);
  }

  /** A byte that is not ASCII is not valid by itself. */
  lemma {:induction false} SingleBytes(cs: seq<string>)
    requires (forall c | c in cs :: |c| <= 1) && (forall c | c in cs :: Valid(c))
    ensures Ascii(Flatten(cs))
  {
    if cs != [] {
      var c := cs[0];
      assert c in cs && forall d | d in cs[1..] :: d in cs;
      SingleBytes(cs[1..]);
      if c != "" { assert RuneLen(c) == 1; }
      forall x | x in Flatten(cs) ensures x as int < 0x80 {
        assert x in c || x in Flatten(cs[1..]);
      }
    }
  }

  /** What a caller can rely on, by the command's output alone: it reaches the client
      unchanged in every undisturbed run exactly if it is ASCII. Valid UTF-8 is not
      enough, since a read may return any piece of a character. */
  lemma FaithfulExactly(stdout: string, stderr: string)
    ensures (forall run | Legal(Init(stdout, stderr), run) && Undisturbed(End(Init(stdout, stderr), run)) ::
               ClientStdout(End(Init(stdout, stderr), run)) == stdout) <==> Ascii(stdout)
    ensures (forall run | Legal(Init(stdout, stderr), run) && Undisturbed(End(Init(stdout, stderr), run)) ::
               ClientStderr(End(Init(stdout, stderr), run)) == stderr) <==> Ascii(stderr)
  {
    forall run | Legal(Init(stdout, stderr), run) && Undisturbed(End(Init(stdout, stderr), run))
      ensures Ascii(stdout) ==> ClientStdout(End(Init(stdout, stderr), run)) == stdout
      ensures Ascii(stderr) ==> ClientStderr(End(Init(stdout, stderr), run)) == stderr
    {
      AsciiIsFaithful(stdout, stderr, run);
    }
    var slow := SlowRun(stdout, stderr);
    var s := End(Init(stdout, stderr), slow);
    FaithfulRun(stdout, stderr, slow);
    if ClientStdout(s) == stdout { SingleBytes(s.out.chunks); }
    if ClientStderr(s) == stderr { SingleBytes(s.err.chunks); }
  }

  /** Valid UTF-8 that can come out different: U+00E9, read byte by byte. */
  lemma SplitCharacter() returns (run: seq<Action>)
    ensures var stdout := ['\U{C3}', '\U{A9}'];
            && Valid(stdout) && Legal(Init(stdout, ""), run)
            && Undisturbed(End(Init(stdout, ""), run)) && ClientStdout(End(Init(stdout, ""), run)) != stdout
  {
    var stdout := ['\U{C3}', '\U{A9}'];
    assert RuneLen(stdout) == 2 && stdout[2..] == "";
    assert !Ascii(stdout) by { assert stdout[0] in stdout; }
    run := SlowRun(stdout, "");
    FaithfulRun(stdout, "", run);
    var s := End(Init(stdout, ""), run);
    if ClientStdout(s) == stdout { SingleBytes(s.out.chunks); }
  }
}
