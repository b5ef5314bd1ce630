/** Reading and validating one request. */
module Request {
  import opened Options

  const MAX_REQUEST_SIZE: nat := 10 * 1024 * 1024

  /** Size of a bufio.Reader's buffer. */
  const BUFFER_SIZE: nat := 4096

  datatype Request = Request(command: string, action: string, env: map<string, string>, cwd: string)

  /** How reading the line ends. */
  datatype Reading = Line(bytes: string) | TooLarge | Incomplete

  /** Position of the first line break, |s| if there is none. */
  function Break(s: string): (i: nat)
    ensures i <= |s|
    ensures forall j | 0 <= j < i :: s[j] != '\n'
    ensures i < |s| ==> s[i] == '\n'
  {
    if s == "" || s[0] == '\n' then 0
    else
      1 + Break(s[1..])
  }

  /** What the stream alone determines: the line up to its break if that lies in
      the first 10 MB, else whether 10 MB arrived. */
  function FirstLine(stream: string): Reading {
    var i := Break(stream);
    if i < |stream| && i < MAX_REQUEST_SIZE then Line(stream[..i + 1])
    else if |stream| >= MAX_REQUEST_SIZE then TooLarge
    else Incomplete
  }

  /** The receiving side of a connection: `rest` arrives in pieces of any size,
      then the end or an error, possibly together with the last piece. */
  class Source {
    var rest: string

    constructor (stream: string)
      ensures rest == stream
    {
      rest := stream;
    }

    method Read(limit: nat) returns (data: string, ended: bool)
      requires limit > 0
      modifies this
      ensures old(rest) == data + rest && |data| <= limit
      ensures ended ==> rest == ""
      ensures data == "" ==> ended
    {
      var n: nat :| n <= |rest| && n <= limit && (rest == "" || n > 0);
      data := rest[..n];
      rest := rest[n..];
      ended := false;
      if rest == "" {
        var b: bool := *;
        ended := b || n == 0;
      }
    }
  }

  lemma BreakLater(a: string, b: string)
    requires '\n' !in a
    ensures Break(a + b) == |a| + Break(b)
  {
    if a == "" {
      assert a + b == b;
    } else {
      assert (a + b)[1..] == a[1..] + b;
      BreakLater(a[1..], b);
    }
  }

  lemma NoBreak(s: string)
    requires Break(s) == |s|
    ensures '\n' !in s
  {
  }

  lemma BreakInside(b: string, c: string)
    requires Break(b) < |b|
    ensures Break(b + c) == Break(b)
  {
    if b[0] != '\n' {
      assert (b + c)[1..] == b[1..] + c;
      BreakInside(b[1..], c);
    }
  }

  lemma Take(a: string, b: string, c: string, i: nat, k: nat)
    requires i <= |b| && k == |a| + i
    ensures k <= |a + (b + c)| && (a + (b + c))[..k] == a + b[..i]
  {
  }

  lemma Front(a: string, b: string, i: nat)
    requires i <= |a|
    ensures (a + b)[..i] == a[..i]
  {
  }

  lemma BreakAt(line: string, buffer: string, rest: string)
    requires '\n' !in line && Break(buffer) < |buffer|
    ensures Break(line + (buffer + rest)) == |line| + Break(buffer)
  {
    BreakLater(line, buffer + rest);
    BreakInside(buffer, rest);
  }

  lemma Found(line: string, buffer: string, rest: string)
    requires '\n' !in line && Break(buffer) < |buffer| && |line| + |buffer| <= MAX_REQUEST_SIZE
    ensures FirstLine(line + (buffer + rest)) == Line(line + buffer[..Break(buffer) + 1])
  {
    BreakAt(line, buffer, rest);
    Take(line, buffer, rest, Break(buffer) + 1, Break(line + (buffer + rest)) + 1);
  }

  lemma Missed(line: string, buffer: string, rest: string)
    requires '\n' !in line && '\n' !in buffer && |line| + |buffer| <= MAX_REQUEST_SIZE
    ensures |line| + |buffer| == MAX_REQUEST_SIZE ==> FirstLine(line + (buffer + rest)) == TooLarge
    ensures |line| + |buffer| < MAX_REQUEST_SIZE && rest == "" ==> FirstLine(line + (buffer + rest)) == Incomplete
  {
    BreakLater(line, buffer + rest);
    BreakLater(buffer, rest);
  }

  lemma Move(line: string, buffer: string, rest: string)
    ensures line + (buffer + rest) == (line + buffer) + ("" + rest)
  {
  }

  lemma Extend(line: string, buffer: string, data: string, rest: string)
    ensures line + (buffer + (data + rest)) == line + ((buffer + data) + rest)
  {
  }

  /** bufio's ReadBytes over an io.LimitedReader: for every choice of read sizes
      the outcome is FirstLine of the stream, and at most 10 MB are taken. */
  method ReadLine(reader: Source) returns (r: Reading)
    modifies reader
    ensures r == FirstLine(old(reader.rest))
    ensures |old(reader.rest)| - |reader.rest| <= MAX_REQUEST_SIZE
  {
    ghost var stream := reader.rest;
    var line, buffer := "", "";
    var left: nat := MAX_REQUEST_SIZE;   // lr.N
    var ended := false;
    assert stream == line + (buffer + reader.rest);
    while true
      invariant stream == line + (buffer + reader.rest)
      invariant '\n' !in line
      invariant left + |line| + |buffer| == MAX_REQUEST_SIZE
      invariant |buffer| <= BUFFER_SIZE
      invariant ended ==> left == 0 || reader.rest == ""
      decreases left, !ended, |buffer|
    {
      var i := Break(buffer);
      if i < |buffer| {
        Found(line, buffer, reader.rest);
        return Line(line + buffer[..i + 1]);
      }
      assert buffer[..i] == buffer;
      Missed(line, buffer, reader.rest);
      if ended {
        return if left <= 0 then TooLarge else Incomplete;
      }
      if |buffer| == BUFFER_SIZE {
        Move(line, buffer, reader.rest);
        line, buffer := line + buffer, "";
      } else if left <= 0 {
        ended := true;
      } else {
        var free := BUFFER_SIZE - |buffer|;
        var data, e := reader.Read(if free < left then free else left);
        Extend(line, buffer, data, reader.rest);
        buffer, left, ended := buffer + data, left - |data|, e;
      }
    }
  }

  // ----- ParseRequest

  predicate KnownAction(a: string) { a == "update" || a == "check-update" || a == "version" }

  datatype Problem = RequestTooLarge | ReadFailed | BadJson | NothingAsked | UnknownAction(action: string)

  /** The text of an error, given the text of the error it wraps. */
  function ErrorText(p: Problem, wrapped: string): string {
    match p
    case RequestTooLarge => "request too large (max 10485760 bytes)"
    case ReadFailed => "reading request: " + wrapped
    case BadJson => "parsing request JSON: " + wrapped
    case NothingAsked => "request must have either command or action"
    case UnknownAction(action) => "unknown action: " + action
  }

  datatype Outcome = Accepted(request: Request) | Refused(problem: Problem)

  predicate Acceptable(q: Request) {
    if q.action == "" then q.command != "" else KnownAction(q.action)
  }

  /** The outcome as a function of the stream and of the JSON decoder. */
  function Parse(stream: string, decode: string -> Option<Request>): Outcome {
    match FirstLine(stream)
    case TooLarge => Refused(RequestTooLarge)
    case Incomplete => Refused(ReadFailed)
    case Line(bytes) =>
      match decode(bytes)
      case None => Refused(BadJson)
      case Some(q) =>
        if q.command == "" && q.action == "" then Refused(NothingAsked)
        else if !Acceptable(q) then Refused(UnknownAction(q.action))
        else Accepted(q)
  }

  method ParseRequest(reader: Source, decode: string -> Option<Request>) returns (out: Outcome)
    modifies reader
    ensures out == Parse(old(reader.rest), decode)
    ensures |old(reader.rest)| - |reader.rest| <= MAX_REQUEST_SIZE
  {
    var line := ReadLine(reader);
    if line.TooLarge? { return Refused(RequestTooLarge); }
    if line.Incomplete? { return Refused(ReadFailed); }
    var decoded := decode(line.bytes);
    if decoded.None? { return Refused(BadJson); }
    var req := decoded.value;
    if req.command == "" && req.action == "" { return Refused(NothingAsked); }
    if req.action != "" {
      if !(req.action == "update" || req.action == "check-update" || req.action == "version") {
        return Refused(UnknownAction(req.action));
      }
    }
    return Accepted(req);
  }

  /** Bytes after the first line break never matter, nor does anything beyond the
      first 10 MB. */
  lemma OnlyThePrefixMatters(a: string, b: string)
    requires Break(a) < |a| || |a| >= MAX_REQUEST_SIZE
    ensures FirstLine(a + b) == FirstLine(a)
  {
    if Break(a) < |a| {
      BreakInside(a, b);
      Front(a, b, Break(a) + 1);
    } else {
      NoBreak(a);
      BreakLater(a, b);
    }
  }

  /** When a request is accepted, and with what. */
  lemma AcceptedExactly(stream: string, decode: string -> Option<Request>, q: Request)
    ensures Parse(stream, decode) == Accepted(q)
       <==> Break(stream) < |stream| && Break(stream) < MAX_REQUEST_SIZE
            && decode(stream[..Break(stream) + 1]) == Some(q)
            && (if q.action == "" then q.command != "" else KnownAction(q.action))
  {
    var i := Break(stream);
    if i < |stream| && i < MAX_REQUEST_SIZE {
      assert FirstLine(stream) == Line(stream[..i + 1]);
    }
  }

  /** The first line break of a stream is at k, within the first 10485760 bytes. */
  ghost predicate LineEndsAt(stream: string, k: nat) {
    k < |stream| && k < 10485760 && stream[k] == '\n' && '\n' !in stream[..k]
  }

  /** The outcome for a stream without such a line break. */
  lemma NoLineExactly(stream: string, decode: string -> Option<Request>)
    requires forall k: nat :: !LineEndsAt(stream, k)
    ensures Parse(stream, decode) == Refused(if |stream| >= 10485760 then RequestTooLarge else ReadFailed)
  {
    var i := Break(stream);
    assert i < |stream| && i < MAX_REQUEST_SIZE <==> LineEndsAt(stream, i);
  }

  /** The outcome for a line, by what it decodes to. */
  lemma LineExactly(stream: string, decode: string -> Option<Request>, k: nat)
    requires LineEndsAt(stream, k)
    ensures Parse(stream, decode) ==
      match decode(stream[..k + 1])
      case None => Refused(BadJson)
      case Some(q) =>
        if q.action == "update" || q.action == "check-update" || q.action == "version" then Accepted(q)
        else if q.action != "" then Refused(UnknownAction(q.action))
        else if q.command == "" then Refused(NothingAsked)
        else Accepted(q)
  {
    BreakUnique(stream, k);
    assert MAX_REQUEST_SIZE == 10485760;
  }

  lemma BreakUnique(stream: string, k: nat)
    requires k < |stream| && stream[k] == '\n' && '\n' !in stream[..k]
    ensures Break(stream) == k
  {
    forall j | 0 <= j < k ensures stream[j] != '\n' {
      assert stream[j] == stream[..k][j];
    }
  }
}
