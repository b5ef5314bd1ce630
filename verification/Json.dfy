/**
 JSON texts of the protocol, RFC 8259: the printer of encoding/json for string
 and integer members, and a parser for such objects (sections 4, 6 and 7). A
 `char` stands for one byte.
 */
module Json {
  import opened Utf8
  import Decimal

  /** A parser's outcome: a value and the bytes after it. */
  datatype Parsed<T> = Bad | Got(value: T, rest: string)

  function Prefixed(p: string, r: Parsed<string>): (q: Parsed<string>) {
    if r.Bad? then Bad else Got(p + r.value, r.rest)
  }

  // ----- string contents, section 7

  function HexChar(d: nat): char
    requires d < 16
  {
    if d < 10 then ('0' as int + d) as char else ('a' as int + (d - 10)) as char
  }

  predicate IsHex(c: char) { '0' <= c <= '9' || 'a' <= c <= 'f' || 'A' <= c <= 'F' }

  function HexValue(c: char): (d: nat)
    requires IsHex(c)
    ensures d < 16
  {
    if '0' <= c <= '9' then c as int - '0' as int
    else if 'a' <= c <= 'f' then c as int - 'a' as int + 10
    else c as int - 'A' as int + 10
  }

  lemma HexValueChar(d: nat)
    requires d < 16
    ensures IsHex(HexChar(d)) && HexValue(HexChar(d)) == d
  {
  }

  /** One ASCII byte as encoding/json prints it, with HTML escaping on. */
  function EscapeAscii(c: char): string
    requires c as int < 0x80
  {
    var n := c as int;
    if c == '\"' || c == '\\' then ['\\', c]
    else if n == 8 then ['\\', 'b']
    else if n == 12 then ['\\', 'f']
    else if n == 10 then ['\\', 'n']
    else if n == 13 then ['\\', 'r']
    else if n == 9 then ['\\', 't']
    else if n < 0x20 || c == '<' || c == '>' || c == '&' then ['\\', 'u', '0', '0', HexChar(n / 16), HexChar(n % 16)]
    else [c]
  }

  /** U+2028 and U+2029. */
  predicate IsSeparator(s: string) {
    |s| >= 3 && s[0] as int == 0xE2 && s[1] as int == 0x80 && (s[2] as int == 0xA8 || s[2] as int == 0xA9)
  }

  /** A string's bytes between the quotes. */
  function EncodeBody(s: string): string {
    if s == "" then ""
    else if RuneLen(s) == 1 then EscapeAscii(s[0]) + EncodeBody(s[1..])
    else if RuneLen(s) == 0 then ['\\', 'u', 'f', 'f', 'f', 'd'] + EncodeBody(s[1..])
    else if IsSeparator(s) then
      ['\\', 'u', '2', '0', '2', HexChar(s[2] as int % 16)] + EncodeBody(s[3..])
    else s[..RuneLen(s)] + EncodeBody(s[RuneLen(s)..])
  }

  predicate HexFour(s: string) {
    |s| >= 4 && IsHex(s[0]) && IsHex(s[1]) && IsHex(s[2]) && IsHex(s[3])
  }

  function CodePoint(s: string): (cp: nat)
    requires HexFour(s)
    ensures cp < 0x10000
  {
    HexValue(s[0]) * 4096 + HexValue(s[1]) * 256 + HexValue(s[2]) * 16 + HexValue(s[3])
  }

  /** The byte a two-character escape stands for. */
  function Short(c: char): string {
    if c == '\"' || c == '\\' || c == '/' then [c]
    else if c == 'b' then [8 as char]
    else if c == 'f' then [12 as char]
    else if c == 'n' then [10 as char]
    else if c == 'r' then [13 as char]
    else if c == 't' then [9 as char]
    else ""
  }

  /** The contents of a string up to its closing quote. */
  function DecodeBody(s: string): (r: Parsed<string>)
    ensures r.Got? ==> |r.rest| < |s|
  {
    if s == "" || s[0] as int < 0x20 then Bad
    else if s[0] == '\"' then Got("", s[1..])
    else if s[0] != '\\' then Prefixed([s[0]], DecodeBody(s[1..]))
    else if |s| >= 2 && Short(s[1]) != "" then Prefixed(Short(s[1]), DecodeBody(s[2..]))
    else if |s| >= 6 && s[1] == 'u' && HexFour(s[2..]) && !(0xD800 <= CodePoint(s[2..]) < 0xE000) then
      Prefixed(EncodeScalar(CodePoint(s[2..])), DecodeBody(s[6..]))
    else Bad
  }

  lemma DecodeHex(a: char, b: char, c: char, d: char, t: string)
    requires HexFour([a, b, c, d]) && !(0xD800 <= CodePoint([a, b, c, d]) < 0xE000)
    ensures DecodeBody(['\\', 'u', a, b, c, d] + t) == Prefixed(EncodeScalar(CodePoint([a, b, c, d])), DecodeBody(t))
  {
    var s := ['\\', 'u', a, b, c, d] + t;
    assert s[2..] == [a, b, c, d] + t;
    assert s[6..] == t;
    assert Short('u') == "";
  }

  lemma DecodeShort(e: char, c: char, t: string)
    requires Short(e) == [c]
    ensures DecodeBody(['\\', e] + t) == Prefixed([c], DecodeBody(t))
  {
    assert (['\\', e] + t)[2..] == t;
  }

  lemma DecodePlain(c: char, t: string)
    requires c as int >= 0x20 && c != '\"' && c != '\\'
    ensures DecodeBody([c] + t) == Prefixed([c], DecodeBody(t))
  {
    assert ([c] + t)[1..] == t;
  }

  lemma DecodeControl(c: char, t: string)
    requires c as int < 0x80
    ensures DecodeBody(['\\', 'u', '0', '0', HexChar(c as int / 16), HexChar(c as int % 16)] + t) == Prefixed([c], DecodeBody(t))
  {
    var hi, lo := HexChar(c as int / 16), HexChar(c as int % 16);
    HexValueChar(c as int / 16);
    HexValueChar(c as int % 16);
    assert CodePoint(['0', '0', hi, lo]) == c as int;
    DecodeHex('0', '0', hi, lo, t);
  }

  lemma DecodeAscii(c: char, t: string)
    requires c as int < 0x80
    ensures DecodeBody(EscapeAscii(c) + t) == Prefixed([c], DecodeBody(t))
  {
    var e := EscapeAscii(c);
    if |e| == 6 {
      DecodeControl(c, t);
    } else if |e| == 2 {
      DecodeShort(e[1], c, t);
    } else {
      DecodePlain(c, t);
    }
  }

  lemma {:induction false} DecodeRaw(p: string, t: string)
    requires forall c | c in p :: c as int >= 0x80
    ensures DecodeBody(p + t) == Prefixed(p, DecodeBody(t))
  {
    if p == "" {
      assert p + t == t;
      assert DecodeBody(t).Got? ==> "" + DecodeBody(t).value == DecodeBody(t).value;
    } else {
      assert p[0] in p && forall c | c in p[1..] :: c in p;
      assert (p + t)[1..] == p[1..] + t;
      DecodeRaw(p[1..], t);
      PrefixedTwice([p[0]], p[1..], DecodeBody(t));
      assert [p[0]] + p[1..] == p;
    }
  }

  lemma PrefixedTwice(a: string, b: string, r: Parsed<string>)
    ensures Prefixed(a, Prefixed(b, r)) == Prefixed(a + b, r)
  {
    if r.Got? { assert a + (b + r.value) == a + b + r.value; }
  }

  lemma DecodeReplacement(t: string)
    ensures DecodeBody(['\\', 'u', 'f', 'f', 'f', 'd'] + t) == Prefixed(REPLACEMENT, DecodeBody(t))
  {
    assert CodePoint(['f', 'f', 'f', 'd']) == 0xFFFD;
    DecodeHex('f', 'f', 'f', 'd', t);
    assert EncodeScalar(0xFFFD) == REPLACEMENT;
  }

  lemma SeparatorEscape(d: nat)
    requires d == 8 || d == 9
    ensures HexFour(['2', '0', '2', HexChar(d)]) && CodePoint(['2', '0', '2', HexChar(d)]) == 0x2020 + d
    ensures EncodeScalar(0x2020 + d) == ['\U{E2}', '\U{80}', (0xA0 + d) as char]
  {
    HexValueChar(d);
  }

  lemma DecodeSeparator(s: string, t: string)
    requires IsSeparator(s)
    ensures DecodeBody(['\\', 'u', '2', '0', '2', HexChar(s[2] as int % 16)] + t) == Prefixed(s[..3], DecodeBody(t))
  {
    var d := s[2] as int % 16;
    SeparatorEscape(d);
    DecodeHex('2', '0', '2', HexChar(d), t);
    assert s[..3] == [s[0], s[1], s[2]];
  }

  /** The bytes for the head of s and what is left of s. */
  function Head(s: string): (string, nat)
    requires s != ""
  {
    if RuneLen(s) == 1 then (EscapeAscii(s[0]), 1)
    else if RuneLen(s) == 0 then (['\\', 'u', 'f', 'f', 'f', 'd'], 1)
    else if IsSeparator(s) then (['\\', 'u', '2', '0', '2', HexChar(s[2] as int % 16)], 3)
    else (s[..RuneLen(s)], RuneLen(s))
  }

  /** What the head of s reads back as. */
  function Unit(s: string): string
    requires s != ""
  {
    if RuneLen(s) == 0 then REPLACEMENT else s[..RuneLen(s)]
  }

  lemma DecodeHead(s: string, t: string)
    requires s != ""
    ensures DecodeBody(Head(s).0 + t)
         == Prefixed(Unit(s), DecodeBody(t))
  {
    if RuneLen(s) == 1 {
      DecodeAscii(s[0], t);
      assert s[..1] == [s[0]];
    } else if RuneLen(s) == 0 {
      DecodeReplacement(t);
    } else if IsSeparator(s) {
      DecodeSeparator(s, t);
    } else {
      DecodeRaw(s[..RuneLen(s)], t);
    }
  }

  lemma HeadStep(s: string)
    requires s != ""
    ensures EncodeBody(s) == Head(s).0 + EncodeBody(s[Head(s).1..])
    ensures Sanitize(s) == Unit(s) + Sanitize(s[Head(s).1..])
  {
  }

  lemma Reassoc(a: string, b: string, c: string)
    ensures a + b + c == a + (b + c)
  {
  }

  /** Reading back a printed string gives the string with each invalid byte
      replaced. */
  lemma {:induction false} DecodeEncode(s: string, rest: string)
    ensures DecodeBody(EncodeBody(s) + (['\"'] + rest)) == Got(Sanitize(s), rest)
    decreases |s|
  {
    var t := ['\"'] + rest;
    if s == "" {
      assert EncodeBody(s) + t == t;
      assert t[1..] == rest;
    } else {
      var (e, n) := Head(s);
      HeadStep(s);
      DecodeEncode(s[n..], rest);
      DecodeHead(s, EncodeBody(s[n..]) + t);
      Reassoc(e, EncodeBody(s[n..]), t);
    }
  }

  predicate NoControl(s: string) { forall c | c in s :: c as int >= 0x20 }

  /** Printed contents hold no control byte, in particular no line break. */
  lemma {:induction false} EncodeNoControl(s: string)
    ensures NoControl(EncodeBody(s))
    decreases |s|
  {
    if s != "" {
      var (e, n) := Head(s);
      HeadNoControl(s);
      EncodeNoControl(s[n..]);
      assert EncodeBody(s) == e + EncodeBody(s[n..]);
    }
  }

  lemma HeadNoControl(s: string)
    requires s != ""
    ensures NoControl(Head(s).0)
  {
    if RuneLen(s) > 1 && !IsSeparator(s) {
      assert forall c | c in Head(s).0 :: c as int >= 0x80;
    }
  }

  // ----- integers, section 6

  function PrintInt(n: int): string {
    if n < 0 then ['-'] + Decimal.Print(-n) else Decimal.Print(n)
  }

  function ParseNat(s: string): (r: Parsed<nat>)
    ensures r.Got? ==> |r.rest| < |s|
  {
    var k := Decimal.Run(s);
    if k == 0 || (k > 1 && s[0] == '0') then Bad else Got(Decimal.Value(s[..k]), s[k..])
  }

  function Signed(negative: bool, r: Parsed<nat>): Parsed<int> {
    if r.Bad? then Bad
    else
      var n: int := r.value;
      Got(if negative then 0 - n else n, r.rest)
  }

  function ParseInt(s: string): (r: Parsed<int>)
    ensures r.Got? ==> |r.rest| < |s|
  {
    if s != "" && s[0] == '-' then Signed(true, ParseNat(s[1..])) else Signed(false, ParseNat(s))
  }

  lemma ParsePrintNat(n: nat, rest: string)
    requires rest == "" || !Decimal.IsDigit(rest[0])
    ensures ParseNat(Decimal.Print(n) + rest) == Got(n, rest)
  {
    var d := Decimal.Print(n);
    Decimal.RunExact(d, rest);
    Decimal.ValuePrint(n);
    if n == 0 { assert d == ['0']; }
  }

  lemma ParseMinus(d: string, n: nat, rest: string)
    requires ParseNat(d + rest) == Got(n, rest)
    ensures ParseInt(['-'] + d + rest) == Got(0 - n, rest)
  {
    var s := ['-'] + d + rest;
    assert s[0] == '-' && s[1..] == d + rest;
  }

  lemma ParsePlain(d: string, n: nat, rest: string)
    requires d != "" && d[0] != '-' && ParseNat(d + rest) == Got(n, rest)
    ensures ParseInt(d + rest) == Got(n, rest)
  {
    assert (d + rest)[0] == d[0];
  }

  lemma ParsePrintInt(n: int, rest: string)
    requires rest == "" || !Decimal.IsDigit(rest[0])
    ensures ParseInt(PrintInt(n) + rest) == Got(n, rest)
  {
    if n < 0 {
      ParsePrintNat(-n, rest);
      ParseMinus(Decimal.Print(-n), -n, rest);
    } else {
      ParsePrintNat(n, rest);
      assert Decimal.IsDigit(Decimal.Print(n)[0]);
      ParsePlain(Decimal.Print(n), n, rest);
    }
  }

  // ----- members and objects, section 4

  datatype Value = Str(s: string) | Num(n: int)

  datatype Member = Member(key: string, value: Value)

  function PrintStr(s: string): string { ['\"'] + (EncodeBody(s) + ['\"']) }

  function PrintValue(v: Value): string {
    match v
    case Str(s) => PrintStr(s)
    case Num(n) => PrintInt(n)
  }

  function PrintMember(m: Member): string { PrintStr(m.key) + ([':'] + PrintValue(m.value)) }

  function PrintMembers(ms: seq<Member>): string {
    if ms == [] then ""
    else if |ms| == 1 then PrintMember(ms[0])
    else PrintMember(ms[0]) + ([','] + PrintMembers(ms[1..]))
  }

  function PrintObject(ms: seq<Member>): string { ['{'] + (PrintMembers(ms) + ['}']) }

  function ParseStr(s: string): (r: Parsed<string>)
    ensures r.Got? ==> |r.rest| < |s|
  {
    if s != "" && s[0] == '\"' then DecodeBody(s[1..]) else Bad
  }

  function ParseValue(s: string): (r: Parsed<Value>)
    ensures r.Got? ==> |r.rest| < |s|
  {
    if s != "" && s[0] == '\"' then
      match ParseStr(s)
      case Bad => Bad
      case Got(v, rest) => Got(Str(v), rest)
    else
      match ParseInt(s)
      case Bad => Bad
      case Got(n, rest) => Got(Num(n), rest)
  }

  function ParseMember(s: string): (r: Parsed<Member>)
    ensures r.Got? ==> |r.rest| < |s|
  {
    match ParseStr(s)
    case Bad => Bad
    case Got(key, rest) =>
      if rest == "" || rest[0] != ':' then Bad
      else
        match ParseValue(rest[1..])
        case Bad => Bad
        case Got(v, rest') => Got(Member(key, v), rest')
  }

  /** One member or more, up to the closing brace. */
  function ParseMembers(s: string): Parsed<seq<Member>>
    decreases |s|
  {
    match ParseMember(s)
    case Bad => Bad
    case Got(m, rest) =>
      if rest == "" then Bad
      else if rest[0] == '}' then Got([m], rest[1..])
      else if rest[0] == ',' then
        match ParseMembers(rest[1..])
        case Bad => Bad
        case Got(ms, rest') => Got([m] + ms, rest')
      else Bad
  }

  /** A whole text that is one object. */
  function ParseObject(s: string): Parsed<seq<Member>> {
    if s == "" || s[0] != '{' then Bad
    else if s[1..] == ['}'] then Got([], "")
    else
      var r := ParseMembers(s[1..]);
      if r.Got? && r.rest == "" then r else Bad
  }

  function CleanValue(v: Value): Value {
    match v
    case Str(s) => Str(Sanitize(s))
    case Num(_) => v
  }

  function CleanMember(m: Member): Member { Member(Sanitize(m.key), CleanValue(m.value)) }

  function CleanMembers(ms: seq<Member>): seq<Member> {
    if ms == [] then [] else [CleanMember(ms[0])] + CleanMembers(ms[1..])
  }

  lemma ParsePrintStr(s: string, rest: string)
    ensures ParseStr(PrintStr(s) + rest) == Got(Sanitize(s), rest)
  {
    DecodeEncode(s, rest);
    Unquote(EncodeBody(s), rest);
  }

  lemma Unquote(body: string, rest: string)
    ensures var q := ['\"'] + (body + ['\"']) + rest; q[0] == '\"' && q[1..] == body + (['\"'] + rest)
  {
  }

  lemma ParsePrintValue(v: Value, rest: string)
    requires rest != "" && !Decimal.IsDigit(rest[0])
    ensures ParseValue(PrintValue(v) + rest) == Got(CleanValue(v), rest)
  {
    match v
    case Str(s) =>
      ParsePrintStr(s, rest);
    case Num(n) =>
      ParsePrintInt(n, rest);
      assert n >= 0 ==> Decimal.IsDigit(PrintInt(n)[0]);
  }

  lemma ParsePrintMember(m: Member, rest: string)
    requires rest != "" && !Decimal.IsDigit(rest[0])
    ensures ParseMember(PrintMember(m) + rest) == Got(CleanMember(m), rest)
  {
    var tail := [':'] + PrintValue(m.value) + rest;
    ParsePrintStr(m.key, tail);
    assert PrintMember(m) + rest == PrintStr(m.key) + tail;
    assert tail[1..] == PrintValue(m.value) + rest;
    ParsePrintValue(m.value, rest);
  }

  lemma LastMember(s: string, m: Member, rest: string)
    requires ParseMember(s) == Got(m, ['}'] + rest)
    ensures ParseMembers(s) == Got([m], rest)
  {
    assert (['}'] + rest)[1..] == rest;
  }

  lemma MoreMembers(s: string, m: Member, t: string, ms: seq<Member>, rest: string)
    requires ParseMember(s) == Got(m, [','] + t) && ParseMembers(t) == Got(ms, rest)
    ensures ParseMembers(s) == Got([m] + ms, rest)
  {
    assert ([','] + t)[1..] == t;
  }

  lemma {:induction false} ParsePrintMembers(ms: seq<Member>, rest: string)
    requires ms != []
    ensures ParseMembers(PrintMembers(ms) + (['}'] + rest)) == Got(CleanMembers(ms), rest)
  {
    var close := ['}'] + rest;
    var m := ms[0];
    if |ms| == 1 {
      ParsePrintMember(m, close);
      LastMember(PrintMember(m) + close, CleanMember(m), rest);
      assert CleanMembers(ms) == [CleanMember(m)];
    } else {
      var more := PrintMembers(ms[1..]);
      ParsePrintMembers(ms[1..], rest);
      ParsePrintMember(m, [','] + (more + close));
      MoreMembers(PrintMember(m) + ([','] + (more + close)), CleanMember(m), more + close, CleanMembers(ms[1..]), rest);
      Regroup(PrintMember(m), [','], more, close);
    }
  }

  lemma Regroup(a: string, b: string, c: string, d: string)
    ensures (a + (b + c)) + d == a + (b + (c + d))
  {
  }

  /** Parsing a printed object gives its members, each string sanitized. */
  lemma ParsePrintObject(ms: seq<Member>)
    requires ms != []
    ensures ParseObject(PrintObject(ms)) == Got(CleanMembers(ms), "")
  {
    var s := PrintObject(ms);
    ParsePrintMembers(ms, "");
    assert ['}'] + "" == ['}'];
    assert s[1..] == PrintMembers(ms) + ['}'];
    assert PrintMembers(ms) != "" by { assert PrintMember(ms[0]) != ""; }
  }

  lemma PrintIntNoControl(n: int)
    ensures NoControl(PrintInt(n))
  {
    assert forall c | c in PrintInt(n) :: c == '-' || Decimal.IsDigit(c);
  }

  lemma PrintMemberNoControl(m: Member)
    ensures NoControl(PrintMember(m))
  {
    EncodeNoControl(m.key);
    match m.value
    case Str(s) => EncodeNoControl(s);
    case Num(n) => PrintIntNoControl(n);
  }

  lemma {:induction false} PrintMembersNoControl(ms: seq<Member>)
    ensures NoControl(PrintMembers(ms))
  {
    if ms != [] {
      PrintMemberNoControl(ms[0]);
      PrintMembersNoControl(ms[1..]);
    }
  }

  // ----- the texts themselves

  /** Printable ASCII that encoding/json does not escape. */
  predicate IsPlain(c: char) {
    ' ' <= c <= '~' && c != '\"' && c != '\\' && c != '<' && c != '>' && c != '&'
  }

  lemma {:induction false} EncodePlain(s: string)
    requires forall c | c in s :: IsPlain(c)
    ensures EncodeBody(s) == s
  {
    if s != "" {
      assert s[0] in s && forall c | c in s[1..] :: c in s;
      EncodePlain(s[1..]);
      PlainIsItself(s[0]);
      assert Utf8.RuneLen(s) == 1 && [s[0]] + s[1..] == s;
    }
  }

  lemma PlainIsItself(c: char)
    requires IsPlain(c)
    ensures EscapeAscii(c) == [c]
  {
  }

  /** The escapes, one by one. */
  lemma EscapesAre()
    ensures EscapeAscii('\"') == "\\\"" && EscapeAscii('\\') == "\\\\"
    ensures EscapeAscii('\n') == "\\n" && EscapeAscii('\r') == "\\r" && EscapeAscii('\t') == "\\t"
    ensures EscapeAscii('<') == "\\u003c" && EscapeAscii('>') == "\\u003e" && EscapeAscii('&') == "\\u0026"
    ensures EscapeAscii('\0') == "\\u0000" && EscapeAscii('\U{1F}') == "\\u001f" && EscapeAscii('\U{7F}') == ['\U{7F}']
  {
  }

  lemma IntegersAre(n: int, d: int)
    requires 0 <= n && 0 <= d < 10
    ensures PrintInt(d) == ["0123456789"[d]]
    ensures 0 < n ==> PrintInt(10 * n + d) == PrintInt(n) + ["0123456789"[d]] && PrintInt(-n) == "-" + PrintInt(n)
  {
    assert "0123456789"[d] == Decimal.DigitChar(d);
    if 0 < n { Decimal.PrintTimesTen(n, d); }
  }
}
