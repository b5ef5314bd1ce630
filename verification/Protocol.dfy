/**
 The wire protocol: responses as lines of JSON, and the reading of one bounded
 request line. A `char` stands for one byte.
 */
module Protocol {
  import opened Options
  import opened Text
  import opened Utf8
  import opened Json

  datatype Response = Response(
    kind: string, data: string, code: Option<int>, message: string,
    updateStatus: string, currentVersion: string, latestVersion: string)

  const EMPTY: Response := Response("", "", None, "", "", "", "")

  function StdoutResponse(data: string): Response { EMPTY.(kind := "stdout", data := data) }
  function StderrResponse(data: string): Response { EMPTY.(kind := "stderr", data := data) }
  function ExitResponse(code: int): Response { EMPTY.(kind := "exit", code := Some(code)) }
  function ErrorResponse(message: string): Response { EMPTY.(kind := "error", message := message) }
  function UpdateResponse(status: string, current: string, latest: string, message: string): Response {
    EMPTY.(kind := "update", updateStatus := status, currentVersion := current, latestVersion := latest, message := message)
  }

  function VersionResponse(current: string): Response { EMPTY.(kind := "version", currentVersion := current) }

  // ----- one response as one JSON object

  /** The members that hold text. */
  datatype Field = Kind | Data | Message | Status | Current | Latest

  function Name(f: Field): string {
    match f
    case Kind => "type"
    case Data => "data"
    case Message => "message"
    case Status => "update_status"
    case Current => "current_version"
    case Latest => "latest_version"
  }

  function FieldOf(key: string): Option<Field> {
    if key == Name(Kind) then Some(Kind)
    else if key == Name(Data) then Some(Data)
    else if key == Name(Message) then Some(Message)
    else if key == Name(Status) then Some(Status)
    else if key == Name(Current) then Some(Current)
    else if key == Name(Latest) then Some(Latest)
    else None
  }

  function Get(r: Response, f: Field): string {
    match f
    case Kind => r.kind
    case Data => r.data
    case Message => r.message
    case Status => r.updateStatus
    case Current => r.currentVersion
    case Latest => r.latestVersion
  }

  function Put(r: Response, f: Field, s: string): Response {
    match f
    case Kind => r.(kind := s)
    case Data => r.(data := s)
    case Message => r.(message := s)
    case Status => r.(updateStatus := s)
    case Current => r.(currentVersion := s)
    case Latest => r.(latestVersion := s)
  }

  /** A text member marked omitempty. */
  function Optional(r: Response, f: Field): seq<Member> {
    if Get(r, f) == "" then [] else [Member(Name(f), Str(Get(r, f)))]
  }

  function CodeMember(r: Response): seq<Member> {
    if r.code.None? then [] else [Member("code", Num(r.code.value))]
  }

  /** The members in the order of the struct. */
  function Members(r: Response): seq<Member> {
    [Member(Name(Kind), Str(r.kind))]
      + (Optional(r, Data) + (CodeMember(r) + (Optional(r, Message)
      + (Optional(r, Status) + (Optional(r, Current) + Optional(r, Latest))))))
  }

  /** json.Marshal of a response. */
  function Encode(r: Response): string { PrintObject(Members(r)) }

  /** One member read into a response; other keys are ignored. */
  function Assign(r: Response, m: Member): Option<Response> {
    match FieldOf(m.key)
    case Some(f) => if m.value.Str? then Some(Put(r, f, m.value.s)) else None
    case None =>
      if m.key != "code" then Some(r)
      else if m.value.Num? then Some(r.(code := Some(m.value.n)))
      else None
  }

  function AssignAll(r: Response, ms: seq<Member>): Option<Response>
    decreases |ms|
  {
    if ms == [] then Some(r)
    else
      match Assign(r, ms[0])
      case None => None
      case Some(r') => AssignAll(r', ms[1..])
  }

  /** A client's reading of one line. */
  function ParseResponse(line: string): Option<Response> {
    match ParseObject(line)
    case Bad => None
    case Got(ms, _) => AssignAll(EMPTY, ms)
  }

  function Clean(r: Response): Response {
    Response(Sanitize(r.kind), Sanitize(r.data), r.code, Sanitize(r.message),
             Sanitize(r.updateStatus), Sanitize(r.currentVersion), Sanitize(r.latestVersion))
  }

  ghost predicate AllValid(r: Response) { forall f: Field :: Valid(Get(r, f)) }

  lemma CleanExactly(r: Response)
    ensures Clean(r) == r <==> AllValid(r)
  {
    SanitizeExactly(r.kind);
    SanitizeExactly(r.data);
    SanitizeExactly(r.message);
    SanitizeExactly(r.updateStatus);
    SanitizeExactly(r.currentVersion);
    SanitizeExactly(r.latestVersion);
    if AllValid(r) {
      assert Valid(Get(r, Kind)) && Valid(Get(r, Data)) && Valid(Get(r, Message));
      assert Valid(Get(r, Status)) && Valid(Get(r, Current)) && Valid(Get(r, Latest));
    }
  }

  lemma NameIsAscii(f: Field)
    ensures Ascii(Name(f))
  {
    match f case Kind => case Data => case Message => case Status => case Current => case Latest =>
  }

  lemma NameFound(f: Field)
    ensures FieldOf(Name(f)) == Some(f) && Sanitize(Name(f)) == Name(f)
  {
    NameIsClean(f);
    NameLengths();
  }

  lemma NameIsClean(f: Field)
    ensures Sanitize(Name(f)) == Name(f)
  {
    NameIsAscii(f);
    AsciiIsValid(Name(f));
    SanitizeExactly(Name(f));
  }

  lemma NameLengths()
    ensures |Name(Kind)| == 4 && |Name(Data)| == 4 && |Name(Message)| == 7
    ensures |Name(Status)| == 13 && |Name(Current)| == 15 && |Name(Latest)| == 14
    ensures Name(Kind)[0] == 't' && Name(Data)[0] == 'd'
  {
  }

  lemma CodeFound()
    ensures FieldOf("code").None? && Sanitize("code") == "code"
  {
    AsciiIsValid("code");
    SanitizeExactly("code");
    NameLengths();
    assert "code"[0] == 'c';
  }

  lemma {:induction false} CleanConcat(a: seq<Member>, b: seq<Member>)
    ensures CleanMembers(a + b) == CleanMembers(a) + CleanMembers(b)
  {
    if a == [] {
      assert a + b == b;
    } else {
      assert (a + b)[1..] == a[1..] + b;
      CleanConcat(a[1..], b);
    }
  }

  lemma AssignFirst(r: Response, m: Member, rest: seq<Member>)
    requires Assign(r, m).Some?
    ensures AssignAll(r, [m] + rest) == AssignAll(Assign(r, m).value, rest)
  {
    assert ([m] + rest)[1..] == rest;
  }

  /** Reading the members printed for one field puts the field in place. */
  lemma AssignOptional(r0: Response, r: Response, f: Field, rest: seq<Member>)
    requires Get(r0, f) == ""
    ensures AssignAll(r0, CleanMembers(Optional(r, f) + rest)) == AssignAll(Put(r0, f, Sanitize(Get(r, f))), CleanMembers(rest))
  {
    var m := Member(Name(f), Str(Get(r, f)));
    CleanConcat(Optional(r, f), rest);
    if Get(r, f) == "" {
      assert Put(r0, f, "") == r0;
      assert Optional(r, f) + rest == rest;
    } else {
      NameFound(f);
      assert CleanMembers([m]) == [CleanMember(m)];
      AssignFirst(r0, CleanMember(m), CleanMembers(rest));
    }
  }

  lemma AssignCode(r0: Response, r: Response, rest: seq<Member>)
    requires r0.code.None?
    ensures AssignAll(r0, CleanMembers(CodeMember(r) + rest)) == AssignAll(r0.(code := r.code), CleanMembers(rest))
  {
    CleanConcat(CodeMember(r), rest);
    if r.code.None? {
      assert CodeMember(r) + rest == rest;
    } else {
      CodeFound();
      var m := Member("code", Num(r.code.value));
      assert CleanMembers([m]) == [CleanMember(m)];
      AssignFirst(r0, CleanMember(m), CleanMembers(rest));
    }
  }

  lemma AssignKind(r: Response, rest: seq<Member>)
    ensures AssignAll(EMPTY, CleanMembers([Member(Name(Kind), Str(r.kind))] + rest))
         == AssignAll(EMPTY.(kind := Sanitize(r.kind)), CleanMembers(rest))
  {
    var m := Member(Name(Kind), Str(r.kind));
    CleanConcat([m], rest);
    NameFound(Kind);
    assert CleanMembers([m]) == [CleanMember(m)];
    AssignFirst(EMPTY, CleanMember(m), CleanMembers(rest));
  }

  lemma AssignFirstFour(r: Response, rest: seq<Member>)
    ensures AssignAll(EMPTY, CleanMembers([Member(Name(Kind), Str(r.kind))]
              + (Optional(r, Data) + (CodeMember(r) + (Optional(r, Message) + rest)))))
         == AssignAll(Response(Sanitize(r.kind), Sanitize(r.data), r.code, Sanitize(r.message), "", "", ""), CleanMembers(rest))
  {
    var l2 := Optional(r, Message) + rest;
    var l1 := CodeMember(r) + l2;
    AssignKind(r, Optional(r, Data) + l1);
    AssignOptional(Response(Sanitize(r.kind), "", None, "", "", "", ""), r, Data, l1);
    AssignCode(Response(Sanitize(r.kind), Sanitize(r.data), None, "", "", "", ""), r, l2);
    AssignOptional(Response(Sanitize(r.kind), Sanitize(r.data), r.code, "", "", "", ""), r, Message, rest);
  }

  lemma AssignLastThree(k: string, d: string, c: Option<int>, m: string, r: Response)
    ensures AssignAll(Response(k, d, c, m, "", "", ""), CleanMembers(Optional(r, Status) + (Optional(r, Current) + Optional(r, Latest))))
         == Some(Response(k, d, c, m, Sanitize(r.updateStatus), Sanitize(r.currentVersion), Sanitize(r.latestVersion)))
  {
    var s, v := Sanitize(r.updateStatus), Sanitize(r.currentVersion);
    AssignOptional(Response(k, d, c, m, "", "", ""), r, Status, Optional(r, Current) + Optional(r, Latest));
    AssignOptional(Response(k, d, c, m, s, "", ""), r, Current, Optional(r, Latest));
    AssignOptional(Response(k, d, c, m, s, v, ""), r, Latest, []);
    assert Optional(r, Latest) + [] == Optional(r, Latest);
  }

  /** For every response: what a client reads from its line is the response with
      invalid bytes replaced. Empty fields come back empty, and exit code 0 stays
      distinct from no code. */
  lemma ParseEncode(r: Response)
    ensures ParseResponse(Encode(r)) == Some(Clean(r))
  {
    ParsePrintObject(Members(r));
    AssignFirstFour(r, Optional(r, Status) + (Optional(r, Current) + Optional(r, Latest)));
    AssignLastThree(Sanitize(r.kind), Sanitize(r.data), r.code, Sanitize(r.message), r);
  }

  // ----- a stream of responses

  /** What WriteResponse sends. */
  function Line(r: Response): string { Encode(r) + ['\n'] }

  function Wire(rs: seq<Response>): string {
    if rs == [] then "" else Line(rs[0]) + Wire(rs[1..])
  }

  /** Members after the first one, each printed by p. */
  function Following(p: Member -> string, ms: seq<Member>): string
    decreases |ms|
  {
    if ms == [] then "" else [','] + (p(ms[0]) + Following(p, ms[1..]))
  }

  lemma PrintTwo(m: Member, ms: seq<Member>)
    requires ms != []
    ensures PrintMembers([m] + ms) == PrintMember(m) + ([','] + PrintMembers(ms))
  {
    assert ([m] + ms)[1..] == ms;
  }

  lemma {:induction false} PrintFollowing(p: Member -> string, m: Member, ms: seq<Member>)
    requires p == PrintMember
    ensures PrintMembers([m] + ms) == p(m) + Following(p, ms)
    decreases |ms|
  {
    if ms == [] {
      assert [m] + ms == [m] && p(m) + "" == p(m);
    } else {
      PrintTwo(m, ms);
      PrintFollowing(p, ms[0], ms[1..]);
      assert [ms[0]] + ms[1..] == ms;
    }
  }

  lemma {:induction false} FollowingConcat(p: Member -> string, a: seq<Member>, b: seq<Member>)
    ensures Following(p, a + b) == Following(p, a) + Following(p, b)
    decreases |a|
  {
    if a == [] {
      assert a + b == b;
    } else {
      FollowingConcat(p, a[1..], b);
      assert (a + b)[1..] == a[1..] + b;
      Regroup3([','], p(a[0]), Following(p, a[1..]), Following(p, b));
    }
  }

  lemma Regroup3(a: string, b: string, c: string, d: string)
    ensures a + (b + (c + d)) == (a + (b + c)) + d
  {
  }

  lemma FollowingSix(p: Member -> string, a: seq<Member>, b: seq<Member>, c: seq<Member>, d: seq<Member>, e: seq<Member>, f: seq<Member>)
    ensures Following(p, a + (b + (c + (d + (e + f)))))
         == Following(p, a) + (Following(p, b) + (Following(p, c) + (Following(p, d) + (Following(p, e) + Following(p, f)))))
  {
    FollowingConcat(p, a, b + (c + (d + (e + f))));
    FollowingConcat(p, b, c + (d + (e + f)));
    FollowingConcat(p, c, d + (e + f));
    FollowingConcat(p, d, e + f);
    FollowingConcat(p, e, f);
  }

  lemma OneFollowing(p: Member -> string, m: Member)
    ensures Following(p, [m]) == [','] + p(m)
  {
    assert p(m) + "" == p(m);
  }

  lemma ObjectText(p: Member -> string, m: Member, ms: seq<Member>)
    requires p == PrintMember
    ensures PrintObject([m] + ms) == "{" + ((p(m) + Following(p, ms)) + "}")
  {
    PrintFollowing(p, m, ms);
  }

  // What follows takes the printers as parameters: e prints the text of a string,
  // p a member and o an object.

  function Keyed(e: string -> string, key: string, s: string): string {
    "\"" + key + ("\":\"" + (e(s) + "\""))
  }

  /** A member that is left out when its text is empty. */
  function Shown(e: string -> string, key: string, s: string): string {
    if s == "" then "" else "," + Keyed(e, key, s)
  }

  function ShownCode(code: Option<int>): string {
    if code.None? then "" else ",\"code\":" + PrintInt(code.value)
  }

  /** The text after the type. */
  function Body(e: string -> string, r: Response): string {
    Shown(e, "data", r.data) + (ShownCode(r.code) + (Shown(e, "message", r.message)
      + (Shown(e, "update_status", r.updateStatus) + (Shown(e, "current_version", r.currentVersion)
      + Shown(e, "latest_version", r.latestVersion)))))
  }

  ghost predicate PrintsMembers(p: Member -> string, e: string -> string, r: Response) {
    && (forall f: Field :: p(Member(Name(f), Str(Get(r, f)))) == Keyed(e, Name(f), Get(r, f)))
    && Following(p, CodeMember(r)) == ShownCode(r.code)
  }

  ghost predicate PrintsObjects(o: seq<Member> -> string, p: Member -> string) {
    forall m: Member, ms: seq<Member> :: o([m] + ms) == "{" + ((p(m) + Following(p, ms)) + "}")
  }

  lemma OptionalText(p: Member -> string, e: string -> string, r: Response, f: Field)
    requires PrintsMembers(p, e, r)
    ensures Following(p, Optional(r, f)) == Shown(e, Name(f), Get(r, f))
  {
    if Get(r, f) != "" { OneFollowing(p, Member(Name(f), Str(Get(r, f)))); }
  }

  lemma BodyIs(p: Member -> string, e: string -> string, r: Response)
    requires PrintsMembers(p, e, r)
    ensures Following(p, Optional(r, Data) + (CodeMember(r) + (Optional(r, Message)
      + (Optional(r, Status) + (Optional(r, Current) + Optional(r, Latest)))))) == Body(e, r)
  {
    FollowingSix(p, Optional(r, Data), CodeMember(r), Optional(r, Message),
                 Optional(r, Status), Optional(r, Current), Optional(r, Latest));
    OptionalText(p, e, r, Data);
    OptionalText(p, e, r, Message);
    OptionalText(p, e, r, Status);
    OptionalText(p, e, r, Current);
    OptionalText(p, e, r, Latest);
  }

  lemma KindText(p: Member -> string, e: string -> string, r: Response)
    requires PrintsMembers(p, e, r)
    ensures p(Member(Name(Kind), Str(r.kind))) == Keyed(e, "type", r.kind)
  {
    assert Get(r, Kind) == r.kind && Name(Kind) == "type";
  }

  lemma ObjectOf(o: seq<Member> -> string, p: Member -> string, m: Member, ms: seq<Member>)
    requires PrintsObjects(o, p)
    ensures o([m] + ms) == "{" + ((p(m) + Following(p, ms)) + "}")
  {
  }

  /** The text of a line with the strings printed by e. */
  function Shape(e: string -> string, r: Response): string {
    "{" + ((Keyed(e, "type", r.kind) + Body(e, r)) + "}")
  }

  lemma ObjectIs(o: seq<Member> -> string, p: Member -> string, e: string -> string, r: Response)
    requires PrintsMembers(p, e, r) && PrintsObjects(o, p)
    ensures o(Members(r)) == Shape(e, r)
  {
    BodyIs(p, e, r);
    KindText(p, e, r);
    ObjectOf(o, p, Member(Name(Kind), Str(r.kind)), Optional(r, Data) + (CodeMember(r) + (Optional(r, Message)
      + (Optional(r, Status) + (Optional(r, Current) + Optional(r, Latest))))));
  }

  lemma MemberText(key: string, s: string)
    requires forall c | c in key :: IsPlain(c)
    ensures PrintMember(Member(key, Str(s))) == Keyed(EncodeBody, key, s)
  {
    EncodePlain(key);
  }

  lemma NameIsPlain(f: Field)
    ensures forall c | c in Name(f) :: IsPlain(c)
  {
    match f case Kind => case Data => case Message => case Status => case Current => case Latest =>
  }

  lemma CodeText(r: Response)
    ensures Following(PrintMember, CodeMember(r)) == ShownCode(r.code)
  {
    if r.code.Some? {
      OneFollowing(PrintMember, Member("code", Num(r.code.value)));
      EncodePlain("code");
    }
  }

  lemma EncodePrints(r: Response)
    ensures PrintsMembers(PrintMember, EncodeBody, r) && PrintsObjects(PrintObject, PrintMember)
  {
    forall f: Field
      ensures PrintMember(Member(Name(f), Str(Get(r, f)))) == Keyed(EncodeBody, Name(f), Get(r, f))
    {
      NameIsPlain(f);
      MemberText(Name(f), Get(r, f));
    }
    CodeText(r);
    forall m: Member, ms: seq<Member>
      ensures PrintObject([m] + ms) == "{" + ((PrintMember(m) + Following(PrintMember, ms)) + "}")
    {
      ObjectText(PrintMember, m, ms);
    }
  }

  /** The bytes of every line. */
  lemma LineIs(r: Response)
    ensures Line(r) == Shape(EncodeBody, r) + "\n"
  {
    EncodePrints(r);
    ObjectIs(PrintObject, PrintMember, EncodeBody, r);
  }

  lemma OnlyMember(e: string -> string, kind: string, more: string)
    requires e(kind) == kind
    ensures "{" + ((Keyed(e, "type", kind) + more) + "}") == "{\"type\":\"" + kind + "\"" + more + "}"
  {
  }

  lemma ShapeOfKind(e: string -> string, r: Response)
    requires e(r.kind) == r.kind
    ensures Shape(e, r) == "{\"type\":\"" + r.kind + "\"" + Body(e, r) + "}"
  {
    OnlyMember(e, r.kind, Body(e, r));
  }

  /** The line of a response with an ordinary type. */
  lemma LineOfKind(r: Response)
    requires forall c | c in r.kind :: IsPlain(c)
    ensures Line(r) == "{\"type\":\"" + r.kind + "\"" + Body(EncodeBody, r) + "}" + "\n"
  {
    EncodePlain(r.kind);
    ShapeOfKind(EncodeBody, r);
    LineIs(r);
  }

  /** The members beside the type that each response has. */
  lemma BodiesAre(e: string -> string, s: string, code: int)
    requires s != ""
    ensures Body(e, StdoutResponse(s)) == Shown(e, "data", s) == Body(e, StderrResponse(s))
    ensures Body(e, ExitResponse(code)) == ShownCode(Some(code))
    ensures Body(e, ErrorResponse(s)) == Shown(e, "message", s)
    ensures Body(e, UpdateResponse(s, "", "", "")) == Shown(e, "update_status", s)
    ensures Body(e, UpdateResponse("", s, "", "")) == Shown(e, "current_version", s)
    ensures Body(e, UpdateResponse("", "", s, "")) == Shown(e, "latest_version", s)
    ensures Body(e, UpdateResponse("", "", "", s)) == Shown(e, "message", s)
    ensures Body(e, VersionResponse(s)) == Shown(e, "current_version", s)
  {
  }

  function ParseLines(lines: seq<string>): Option<seq<Response>> {
    if lines == [] then Some([])
    else
      match (ParseResponse(lines[0]), ParseLines(lines[1..]))
      case (Some(r), Some(rs)) => Some([r] + rs)
      case _ => None
  }

  /** The complete lines received so far, without their line breaks. */
  function Lines(received: string): seq<string> {
    Split(received, '\n')[..|Split(received, '\n')| - 1]
  }

  /** A client's reading of all complete lines received so far. */
  function ReadStream(received: string): Option<seq<Response>> {
    ParseLines(Lines(received))
  }

  function CleanAll(rs: seq<Response>): (cs: seq<Response>)
    ensures |cs| == |rs|
    ensures forall i | 0 <= i < |rs| :: cs[i] == Clean(rs[i])
  {
    if rs == [] then [] else [Clean(rs[0])] + CleanAll(rs[1..])
  }

  /** A line holds no line break but its last byte. */
  lemma EncodeHasNoBreak(r: Response)
    ensures '\n' !in Encode(r)
  {
    var body := PrintMembers(Members(r));
    PrintMembersNoControl(Members(r));
    Braces(body);
  }

  lemma Braces(body: string)
    requires NoControl(body)
    ensures '\n' !in ['{'] + (body + ['}'])
  {
    assert forall c | c in body :: c != '\n';
  }

  lemma LinesCons(e: string, tail: string)
    requires '\n' !in e
    ensures Lines(e + ['\n'] + tail) == [e] + Lines(tail)
  {
    SplitConcat(e, '\n', tail);
    SplitWhole(e, '\n');
    var rest := Split(tail, '\n');
    assert ([e] + rest)[..|rest|] == [e] + rest[..|rest| - 1];
  }

  /** Whatever responses were written, and whatever piece of a next line follows,
      a client reads exactly those responses. */
  lemma {:induction false} ReadWire(rs: seq<Response>, piece: string)
    requires '\n' !in piece
    ensures ReadStream(Wire(rs) + piece) == Some(CleanAll(rs))
  {
    if rs == [] {
      assert Wire(rs) + piece == piece;
      SplitWhole(piece, '\n');
    } else {
      var tail := Wire(rs[1..]) + piece;
      WireStep(rs, piece);
      EncodeHasNoBreak(rs[0]);
      LinesCons(Encode(rs[0]), tail);
      ReadWire(rs[1..], piece);
      ParseEncode(rs[0]);
      ParseCons(Encode(rs[0]), Lines(tail));
    }
  }

  lemma WireStep(rs: seq<Response>, piece: string)
    requires rs != []
    ensures Wire(rs) + piece == Encode(rs[0]) + ['\n'] + (Wire(rs[1..]) + piece)
  {
  }

  lemma ParseCons(line: string, lines: seq<string>)
    requires ParseResponse(line).Some? && ParseLines(lines).Some?
    ensures ParseLines([line] + lines) == Some([ParseResponse(line).value] + ParseLines(lines).value)
  {
    assert ([line] + lines)[1..] == lines;
  }

  /** The round trip is the identity exactly on valid UTF-8. */
  lemma RoundTripExactly(rs: seq<Response>)
    ensures ReadStream(Wire(rs)) == Some(rs) <==> forall r | r in rs :: AllValid(r)
  {
    ReadWire(rs, "");
    assert Wire(rs) + "" == Wire(rs);
    forall i | 0 <= i < |rs| ensures Clean(rs[i]) == rs[i] <==> AllValid(rs[i]) {
      CleanExactly(rs[i]);
    }
    if CleanAll(rs) == rs {
      forall r | r in rs ensures AllValid(r) {
        var i :| 0 <= i < |rs| && rs[i] == r;
        assert CleanAll(rs)[i] == rs[i];
      }
    } else {
      var i :| 0 <= i < |rs| && CleanAll(rs)[i] != rs[i];
      assert rs[i] in rs;
    }
  }

  // ----- WriteResponse

  /** The sending side of a connection. Once a write has failed, no later one
      gets a byte through. */
  class Conn {
    var sent: string
    var broken: bool

    constructor ()
      ensures sent == "" && !broken
    {
      sent, broken := "", false;
    }

    /** A write may stop after any number n of bytes. */
    method Write(data: string) returns (n: nat, ok: bool)
      requires data != ""
      modifies this
      ensures n <= |data| && sent == old(sent) + data[..n]
      ensures ok <==> n == |data|
      ensures ok <==> !broken
      ensures old(broken) ==> n == 0
    {
      n := 0;
      if !broken {
        n :| n <= |data|;
        sent := sent + data[..n];
      }
      ok := n == |data|;
      broken := !ok;
    }
  }

  /** json.Marshal cannot fail on a response, so only the write can. */
  method WriteResponse(writer: Conn, resp: Response) returns (n: nat, ok: bool)
    modifies writer
    ensures n <= |Line(resp)| && writer.sent == old(writer.sent) + Line(resp)[..n]
    ensures ok <==> n == |Line(resp)|
    ensures ok <==> !writer.broken
    ensures old(writer.broken) ==> n == 0
  {
    var data := Encode(resp);
    data := data + ['\n'];
    n, ok := writer.Write(data);
  }

  // ----- what a connection carries

  /** How responses are marshalled; `Encode` is the format in use. Most of what is
      proved about connections needs to know nothing of it. */
  type Format = Response -> string

  function LinesOf(f: Format, rs: seq<Response>): (ls: seq<string>)
    ensures |ls| == |rs|
    ensures forall i | 0 <= i < |rs| :: ls[i] == f(rs[i]) + ['\n']
  {
    seq(|rs|, i requires 0 <= i < |rs| => f(rs[i]) + ['\n'])
  }

  /** The first k lines and n bytes of the next one. */
  ghost predicate CutAt(sent: string, lines: seq<string>, k: nat, n: nat) {
    k < |lines| && n < |lines[k]| && sent == Flatten(lines[..k]) + lines[k][..n]
  }

  /** All lines if no write failed, else some of them and a proper piece of one
      more. */
  ghost predicate Carries(sent: string, broken: bool, lines: seq<string>) {
    if broken then exists k: nat, n: nat :: CutAt(sent, lines, k, n) else sent == Flatten(lines)
  }

  /** A write of one more line, after a failure or not, keeps that. */
  lemma CarriesMore(sent: string, broken: bool, lines: seq<string>, line: string, n: nat)
    requires Carries(sent, broken, lines) && n <= |line| && (broken ==> n == 0 < |line|)
    ensures Carries(sent + line[..n], n < |line|, lines + [line])
  {
    if broken {
      var k: nat, m: nat :| CutAt(sent, lines, k, m);
      assert (lines + [line])[..k] == lines[..k] && (lines + [line])[k] == lines[k];
      assert sent + line[..0] == sent;
      assert CutAt(sent, lines + [line], k, m);
    } else if n < |line| {
      assert (lines + [line])[..|lines|] == lines;
      assert CutAt(sent + line[..n], lines + [line], |lines|, n);
    } else {
      FlattenSnoc(lines, line);
      assert line[..n] == line;
    }
  }

  /** One more line sent in one write. */
  method WriteLine(writer: Conn, line: string, ghost lines: seq<string>)
    requires Carries(writer.sent, writer.broken, lines) && line != ""
    modifies writer
    ensures Carries(writer.sent, writer.broken, lines + [line])
  {
    ghost var sent, broken := writer.sent, writer.broken;
    var n, _ := writer.Write(line);
    CarriesMore(sent, broken, lines, line, n);
  }

  lemma FlattenStep(f: Format, rs: seq<Response>)
    requires rs != []
    ensures Flatten(LinesOf(f, rs)) == f(rs[0]) + ['\n'] + Flatten(LinesOf(f, rs[1..]))
  {
    assert LinesOf(f, rs)[1..] == LinesOf(f, rs[1..]);
  }

  lemma {:induction false} FlattenIsWire(rs: seq<Response>)
    ensures Flatten(LinesOf(Encode, rs)) == Wire(rs)
  {
    if rs != [] {
      FlattenIsWire(rs[1..]);
      FlattenStep(Encode, rs);
    }
  }

  lemma PieceHasNoBreak(r: Response, n: nat)
    requires n < |Line(r)|
    ensures '\n' !in Line(r)[..n]
  {
    EncodeHasNoBreak(r);
    assert Line(r)[..n] == Encode(r)[..n];
  }

  lemma CutIsWire(sent: string, rs: seq<Response>, k: nat, n: nat)
    requires CutAt(sent, LinesOf(Encode, rs), k, n)
    ensures k < |rs| && n < |Line(rs[k])| && sent == Wire(rs[..k]) + Line(rs[k])[..n]
  {
    assert LinesOf(Encode, rs)[..k] == LinesOf(Encode, rs[..k]);
    FlattenIsWire(rs[..k]);
  }

  /** Whatever was sent over a connection, its client reads the responses up to the
      first failed write: all of them exactly if none failed. */
  lemma CarriesRead(sent: string, broken: bool, rs: seq<Response>) returns (k: nat)
    requires Carries(sent, broken, LinesOf(Encode, rs))
    ensures k <= |rs| && (k == |rs| <==> !broken)
    ensures ReadStream(sent) == Some(CleanAll(rs[..k]))
  {
    if broken {
      var n: nat;
      k, n :| CutAt(sent, LinesOf(Encode, rs), k, n);
      CutIsWire(sent, rs, k, n);
      PieceHasNoBreak(rs[k], n);
      ReadWire(rs[..k], Line(rs[k])[..n]);
    } else {
      k := |rs|;
      FlattenIsWire(rs);
      assert rs[..k] == rs && sent + "" == sent;
      ReadWire(rs, "");
    }
  }
}
