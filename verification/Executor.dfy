/** The pump of one output pipe, executor.readPipe. A `char` stands for one byte. */
module Executor {
  import opened Text

  const BUFFER_SIZE: nat := 4096

  /** Pieces a pump may hand on: never empty, never above the buffer size. */
  predicate IsChunk(c: string) { 0 < |c| <= BUFFER_SIZE }

  /** A pipe with the bytes its process will still write before the read side
      ends or fails. */
  class Pipe {
    var rest: string

    constructor (rest: string)
      ensures this.rest == rest
    {
      this.rest := rest;
    }

    /** Reads into the front of buf. `ended` is any non-nil error, which may come
        with data; without one at least a byte arrives. */
    method Read(buf: array<char>) returns (n: nat, ended: bool)
      requires buf.Length > 0
      modifies this, buf
      ensures n <= buf.Length && n <= |old(rest)|
      ensures buf[..n] == old(rest)[..n] && rest == old(rest)[n..]
      ensures n > 0 || ended
      ensures |old(rest)| == 0 ==> ended
    {
      n :| 0 <= n <= |rest| && n <= buf.Length;
      for i := 0 to n
        modifies buf
        invariant buf[..i] == rest[..i]
      {
        buf[i] := rest[i];
      }
      rest := rest[n..];
      ended := *;
      ended := ended || n == 0;
    }
  }

  /** The receiver of OnStdout or OnStderr. */
  class Sink {
    var chunks: seq<string>

    method Callback(data: string)
      modifies this
      ensures chunks == old(chunks) + [data]
    {
      chunks := chunks + [data];
    }
  }

  /** The pump reuses one buffer, and still the chunks handed on are, in order and
      without gap, exactly the bytes taken from the pipe; without a callback it
      takes none. */
  method ReadPipe(pipe: Pipe, callback: Sink?)
    modifies pipe, callback
    ensures callback == null ==> pipe.rest == old(pipe.rest)
    ensures callback != null ==>
      && old(callback.chunks) <= callback.chunks
      && Flatten(callback.chunks[|old(callback.chunks)|..]) + pipe.rest == old(pipe.rest)
      && (forall c | c in callback.chunks[|old(callback.chunks)|..] :: 0 < |c| <= 4096)
  {
    if callback == null { return; }
    var buf := new char[BUFFER_SIZE];
    ghost var base := callback.chunks;
    ghost var mine: seq<string> := [];
    assert Flatten(mine) + pipe.rest == pipe.rest;
    var ended := false;
    while !ended
      invariant callback.chunks == base + mine
      invariant Flatten(mine) + pipe.rest == old(pipe.rest)
      invariant forall c | c in mine :: IsChunk(c)
      invariant fresh(buf) && buf.Length == BUFFER_SIZE
      decreases |pipe.rest|, !ended
    {
      ghost var before := pipe.rest;
      var n, e := pipe.Read(buf);
      if n > 0 {
        var data := buf[..n];
        callback.Callback(data);
        FlattenSnoc(mine, data);
        Advance(Flatten(mine), before, n);
        mine := mine + [data];
      }
      ended := e;
    }
    assert callback.chunks[|base|..] == mine;
  }

  lemma Advance(done: string, before: string, n: nat)
    requires n <= |before|
    ensures (done + before[..n]) + before[n..] == done + before
  {
  }
}
