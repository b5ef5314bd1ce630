/** Go strings as byte strings: a `char` stands for one byte. */
module Utf8 {

  predicate Within(c: char, lo: int, hi: int) { lo <= c as int <= hi }

  predicate Continues(c: char) { Within(c, 0x80, 0xBF) }

  /** Width of the well-formed UTF-8 sequence at the head of s, 0 if there is none
      (utf8.DecodeRune then reports an error of width one). */
  function RuneLen(s: string): (n: nat)
    requires s != ""
    ensures n <= |s|
    ensures n == 1 <==> s[0] as int < 0x80
    ensures n > 1 ==> forall i | 0 <= i < n :: s[i] as int >= 0x80
  {
    var a := s[0] as int;
    if a < 0x80 then 1
    else if 0xC2 <= a <= 0xDF then
      if |s| >= 2 && Continues(s[1]) then 2 else 0
    else if 0xE0 <= a <= 0xEF then
      if |s| >= 3 && Within(s[1], if a == 0xE0 then 0xA0 else 0x80, if a == 0xED then 0x9F else 0xBF)
         && Continues(s[2]) then 3 else 0
    else if 0xF0 <= a <= 0xF4 then
      if |s| >= 4 && Within(s[1], if a == 0xF0 then 0x90 else 0x80, if a == 0xF4 then 0x8F else 0xBF)
         && Continues(s[2]) && Continues(s[3]) then 4 else 0
    else 0
  }

  predicate Valid(s: string) {
    s == "" || (RuneLen(s) > 0 && Valid(s[RuneLen(s)..]))
  }

  /** U+FFFD in UTF-8. */
  const REPLACEMENT: string := ['\U{EF}', '\U{BF}', '\U{BD}']

  /** s with every byte that starts no well-formed sequence replaced by U+FFFD. */
  function Sanitize(s: string): string {
    if s == "" then ""
    else if RuneLen(s) == 0 then REPLACEMENT + Sanitize(s[1..])
    else s[..RuneLen(s)] + Sanitize(s[RuneLen(s)..])
  }

  /** Sanitizing never shortens, and keeps the length only of valid text. */
  lemma {:induction false} SanitizeGrows(s: string)
    ensures |Sanitize(s)| >= |s|
    ensures |Sanitize(s)| == |s| <==> Valid(s)
    ensures Valid(s) ==> Sanitize(s) == s
  {
    if s != "" {
      var n := RuneLen(s);
      if n == 0 {
        SanitizeGrows(s[1..]);
      } else {
        SanitizeGrows(s[n..]);
        assert s == s[..n] + s[n..];
      }
    }
  }

  lemma SanitizeExactly(s: string)
    ensures Sanitize(s) == s <==> Valid(s)
  {
    SanitizeGrows(s);
  }

  ghost predicate Ascii(s: string) { forall c | c in s :: c as int < 0x80 }

  lemma {:induction false} AsciiIsValid(s: string)
    requires Ascii(s)
    ensures Valid(s)
  {
    if s != "" {
      assert s[0] in s && forall c | c in s[1..] :: c in s;
      AsciiIsValid(s[1..]);
    }
  }

  // ----- the definition of RFC 3629, section 3

  predicate IsScalar(n: nat) { n < 0xD800 || 0xE000 <= n < 0x110000 }

  function High(n: nat): nat { n / 64 }
  function Low(n: nat): nat { n % 64 }

  function Tail(n: nat): char { (0x80 + Low(n)) as char }

  function EncodeScalar(n: nat): string
    requires IsScalar(n)
  {
    if n < 0x80 then [n as char]
    else if n < 0x800 then Two(n)
    else if n < 0x10000 then Three(n)
    else Four(n)
  }

  function Two(n: nat): string
    requires n < 0x800
  {
    [(0xC0 + High(n)) as char, Tail(n)]
  }

  function Three(n: nat): string
    requires n < 0x10000
  {
    [(0xE0 + High(High(n))) as char, Tail(High(n)), Tail(n)]
  }

  function Four(n: nat): string
    requires n < 0x110000
  {
    [(0xF0 + High(High(High(n)))) as char, Tail(High(High(n))), Tail(High(n)), Tail(n)]
  }

  /** The replacement character is U+FFFD. */
  lemma ReplacementIs()
    ensures REPLACEMENT == EncodeScalar(0xFFFD)
  {
  }

  lemma TwoIsRune(n: nat, s: string)
    requires 0x80 <= n < 0x800 && |s| >= 2 && s[0] == Two(n)[0] && s[1] == Two(n)[1]
    ensures RuneLen(s) == 2
  {
  }

  lemma ThreeIsRune(n: nat, s: string)
    requires IsScalar(n) && 0x800 <= n < 0x10000 && |s| >= 3
    requires s[0] == Three(n)[0] && s[1] == Three(n)[1] && s[2] == Three(n)[2]
    ensures RuneLen(s) == 3
  {
  }

  lemma FourIsRune(n: nat, s: string)
    requires 0x10000 <= n < 0x110000 && |s| >= 4
    requires s[0] == Four(n)[0] && s[1] == Four(n)[1] && s[2] == Four(n)[2] && s[3] == Four(n)[3]
    ensures RuneLen(s) == 4
  {
  }

  lemma ScalarHasRune(n: nat, t: string)
    requires IsScalar(n)
    ensures RuneLen(EncodeScalar(n) + t) == |EncodeScalar(n)|
  {
    var s := EncodeScalar(n) + t;
    if n < 0x80 {
    } else if n < 0x800 {
      TwoIsRune(n, s);
    } else if n < 0x10000 {
      ThreeIsRune(n, s);
    } else {
      FourIsRune(n, s);
    }
  }

  lemma Sextets(a: nat, c: char)
    requires Continues(c)
    ensures High(64 * a + (c as int - 0x80)) == a && Tail(64 * a + (c as int - 0x80)) == c
  {
  }

  /** The scalar that a well-formed sequence at the head of s stands for. */
  lemma RuneHasScalar(s: string) returns (n: nat)
    requires s != "" && RuneLen(s) > 0
    ensures IsScalar(n) && EncodeScalar(n) == s[..RuneLen(s)]
  {
    var k := RuneLen(s);
    if k == 1 {
      n := s[0] as int;
    } else if k == 2 {
      n := RuneOfTwo(s[0], s[1]);
    } else if k == 3 {
      n := RuneOfThree(s[0], s[1], s[2]);
    } else {
      n := RuneOfFour(s[0], s[1], s[2], s[3]);
    }
  }

  lemma RuneOfTwo(a: char, b: char) returns (n: nat)
    requires Within(a, 0xC2, 0xDF) && Continues(b)
    ensures 0x80 <= n < 0x800 && Two(n) == [a, b]
  {
    var h := a as int - 0xC0;
    n := 64 * h + (b as int - 0x80);
    Sextets(h, b);
  }

  lemma RuneOfThree(a: char, b: char, c: char) returns (n: nat)
    requires Within(a, 0xE0, 0xEF) && Continues(c)
    requires Within(b, if a as int == 0xE0 then 0xA0 else 0x80, if a as int == 0xED then 0x9F else 0xBF)
    ensures 0x800 <= n < 0x10000 && IsScalar(n) && Three(n) == [a, b, c]
  {
    var h := a as int - 0xE0;
    var m := 64 * h + (b as int - 0x80);
    n := 64 * m + (c as int - 0x80);
    Sextets(h, b);
    Sextets(m, c);
  }

  lemma RuneOfFour(a: char, b: char, c: char, d: char) returns (n: nat)
    requires Within(a, 0xF0, 0xF4) && Continues(c) && Continues(d)
    requires Within(b, if a as int == 0xF0 then 0x90 else 0x80, if a as int == 0xF4 then 0x8F else 0xBF)
    ensures 0x10000 <= n < 0x110000 && Four(n) == [a, b, c, d]
  {
    var h := a as int - 0xF0;
    var m := 64 * h + (b as int - 0x80);
    var l := 64 * m + (c as int - 0x80);
    n := 64 * l + (d as int - 0x80);
    Sextets(h, b);
    Sextets(m, c);
    Sextets(l, d);
  }

  ghost predicate AllScalars(ns: seq<nat>) { forall n | n in ns :: IsScalar(n) }

  function EncodeAll(ns: seq<nat>): string
    requires AllScalars(ns)
  {
    if ns == [] then "" else EncodeScalar(ns[0]) + EncodeAll(ns[1..])
  }

  lemma {:induction false} EncodedIsValid(ns: seq<nat>)
    requires AllScalars(ns)
    ensures Valid(EncodeAll(ns))
  {
    if ns != [] {
      assert ns[0] in ns && AllScalars(ns[1..]);
      EncodedIsValid(ns[1..]);
      ScalarHasRune(ns[0], EncodeAll(ns[1..]));
      var e := EncodeScalar(ns[0]);
      assert (e + EncodeAll(ns[1..]))[|e|..] == EncodeAll(ns[1..]);
    }
  }

  lemma {:induction false} ValidIsEncoded(s: string) returns (ns: seq<nat>)
    requires Valid(s)
    ensures AllScalars(ns) && EncodeAll(ns) == s
    decreases |s|
  {
    if s == "" {
      ns := [];
    } else {
      var rest := ValidIsEncoded(s[RuneLen(s)..]);
      var n := RuneHasScalar(s);
      ns := [n] + rest;
      assert ns[1..] == rest && s == s[..RuneLen(s)] + s[RuneLen(s)..];
    }
  }

  /** Text is valid exactly if it is the encoding of a list of Unicode scalars. */
  lemma ValidExactly(s: string)
    ensures Valid(s) <==> exists ns: seq<nat> :: AllScalars(ns) && EncodeAll(ns) == s
  {
    if Valid(s) {
      var ns := ValidIsEncoded(s);
      assert AllScalars(ns) && EncodeAll(ns) == s;
    }
    if exists ns: seq<nat> :: AllScalars(ns) && EncodeAll(ns) == s {
      var ns: seq<nat> :| AllScalars(ns) && EncodeAll(ns) == s;
      EncodedIsValid(ns);
    }
  }
}
