/**
 The version order of the self-updater. A `char` is one Unicode character here.

 `ParseVersion` and `IsNewerVersion` are the loops of the source; `Parts` and
 `Rank` say what they compute.
 */
module Versions {
  import opened Text
  import Decimal

  /** Values of Go's 64-bit int that a scan accepts. */
  const INT_LIMIT: nat := 0x8000_0000_0000_0000

  // ----- normalizeVersion

  /** unicode.IsSpace; fmt's scanner skips the same characters. */
  predicate IsSpace(c: char) {
    var n := c as int;
    9 <= n <= 13 || n in {0x20, 0x85, 0xA0, 0x1680, 0x2028, 0x2029, 0x202F, 0x205F, 0x3000} || 0x2000 <= n <= 0x200A
  }

  function TrimLeft(s: string): string {
    if s != "" && IsSpace(s[0]) then TrimLeft(s[1..]) else s
  }

  function TrimRight(s: string): string {
    if s != "" && IsSpace(s[|s| - 1]) then TrimRight(s[..|s| - 1]) else s
  }

  function Normalize(version: string): string {
    var v := TrimRight(TrimLeft(version));
    if HasPrefix(v, "v") then v[1..] else v
  }

  // ----- parseVersion

  predicate IsCut(c: char) { c == '-' || c == '+' }

  /** The part before the first '-' or '+'. */
  function Cut(part: string): string {
    if part == "" || IsCut(part[0]) then "" else [part[0]] + Cut(part[1..])
  }

  /** fmt.Sscanf(part, "%d", &num), where num stays 0 on any error: skip spaces
      (a line break is an error), read digits, refuse values of 64 bits and more.
      A sign cannot occur, since the part was cut at the first '-' or '+'. */
  function Scan(part: string): (n: nat)
    ensures n < INT_LIMIT
  {
    if part == "" || part[0] == '\n' then 0
    else if IsSpace(part[0]) then Scan(part[1..])
    else
      var n := Decimal.Value(part[..Decimal.Run(part)]);
      if n < INT_LIMIT then n else 0
  }

  function Number(part: string): nat { Scan(Cut(part)) }

  function Numbers(parts: seq<string>): (ns: seq<nat>)
    ensures |ns| == |parts|
    ensures forall i | 0 <= i < |ns| :: ns[i] == Number(parts[i])
  {
    if parts == [] then [] else [Number(parts[0])] + Numbers(parts[1..])
  }

  /** What a version string denotes. */
  function Parts(v: string): (ns: seq<nat>)
    ensures ns != []
  {
    Numbers(Split(v, '.'))
  }

  /** strings.IndexAny and the slice up to it. */
  method CutSuffix(part: string) returns (cut: string)
    ensures cut == Cut(part)
  {
    var idx := 0;
    while idx < |part| && !IsCut(part[idx])
      invariant idx <= |part|
      invariant part[..idx] + Cut(part[idx..]) == Cut(part)
    {
      assert part[idx..][1..] == part[idx + 1..];
      assert part[..idx + 1] == part[..idx] + [part[idx]];
      idx := idx + 1;
    }
    return part[..idx];
  }

  method ParseVersion(v: string) returns (result: seq<nat>)
    ensures result == Parts(v)
    ensures result != [] && forall n | n in result :: n < INT_LIMIT
  {
    var parts := Split(v, '.');
    result := [];
    for i := 0 to |parts|
      invariant |result| == i
      invariant forall j | 0 <= j < i :: result[j] == Number(parts[j])
    {
      var part := CutSuffix(parts[i]);
      result := result + [Scan(part)];
    }
    assert result == Numbers(parts);
    forall n | n in result ensures n < INT_LIMIT {
      var j :| 0 <= j < |result| && result[j] == n;
      assert n == Scan(Cut(parts[j]));
    }
  }

  // ----- isNewerVersion

  /** Lexicographic order, a proper prefix being smaller. */
  predicate LexLess(a: seq<nat>, b: seq<nat>) {
    b != [] && (a == [] || a[0] < b[0] || (a[0] == b[0] && LexLess(a[1..], b[1..])))
  }

  /** "" and "dev" are a common bottom below every other version. */
  datatype Rank = Bottom | Release(parts: seq<nat>)

  function RankOf(v: string): Rank {
    if v == "" || v == "dev" then Bottom else Release(Parts(v))
  }

  predicate Below(a: Rank, b: Rank) {
    b.Release? && (a.Bottom? || LexLess(a.parts, b.parts))
  }

  predicate Newer(current: string, latest: string) { Below(RankOf(current), RankOf(latest)) }

  /** The bottom versions parse to [0], which no parsed version is below. */
  lemma BottomIsNeverNewer(current: string, latest: string)
    requires latest == "" || latest == "dev"
    ensures !LexLess(Parts(current), Parts(latest))
  {
    if latest == "" {
      assert Split(latest, '.') == [""];
    } else {
      SplitWhole(latest, '.');
      assert Cut("dev") == "dev" by {
        assert "dev"[1..] == "ev" && "ev"[1..] == "v" && "v"[1..] == "";
        assert Cut("v") == "v" && Cut("ev") == "ev";
      }
      assert !Decimal.IsDigit("dev"[0]) && !IsSpace('d');
      assert Decimal.Run("dev") == 0;
      assert Scan("dev") == 0;
    }
    assert Parts(latest) == [0];
  }

  /** The index loop computes the order of ranks, for every pair of strings. A host
      without a version is offered every release that has one, and a release
      without a version is offered to nobody. */
  method IsNewerVersion(current: string, latest: string) returns (newer: bool)
    ensures newer <==> Newer(current, latest)
    ensures current == "" || current == "dev" ==> (newer <==> latest != "" && latest != "dev")
    ensures latest == "" || latest == "dev" ==> !newer
  {
    if current == "" || current == "dev" {
      return latest != "" && latest != "dev";
    }
    var c := ParseVersion(current);
    var l := ParseVersion(latest);
    ghost var answer := LexLess(c, l);
    if latest == "" || latest == "dev" { BottomIsNeverNewer(current, latest); }
    assert answer == Newer(current, latest);
    var i := 0;
    while i < |c| && i < |l|
      invariant i <= |c| && i <= |l|
      invariant LexLess(c[i..], l[i..]) == answer
    {
      if l[i] > c[i] { return true; }
      if l[i] < c[i] { return false; }
      assert c[i..][1..] == c[i + 1..] && l[i..][1..] == l[i + 1..];
      i := i + 1;
    }
    return |l| > |c|;
  }

  // ----- a strict weak order

  lemma {:induction false} LexTotal(a: seq<nat>, b: seq<nat>)
    ensures !(LexLess(a, b) && LexLess(b, a))
    ensures LexLess(a, b) || LexLess(b, a) <==> a != b
  {
    if a != [] && b != [] && a[0] == b[0] {
      LexTotal(a[1..], b[1..]);
      assert a == [a[0]] + a[1..] && b == [b[0]] + b[1..];
    }
  }

  lemma {:induction false} LexTransitive(a: seq<nat>, b: seq<nat>, c: seq<nat>)
    requires LexLess(a, b) && LexLess(b, c)
    ensures LexLess(a, c)
  {
    if a != [] && a[0] == b[0] == c[0] {
      LexTransitive(a[1..], b[1..], c[1..]);
    }
  }

  lemma BelowTransitive(a: Rank, b: Rank, c: Rank)
    requires Below(a, b) && Below(b, c)
    ensures Below(a, c)
  {
    if a.Release? { LexTransitive(a.parts, b.parts, c.parts); }
  }

  lemma BelowTotal(a: Rank, b: Rank)
    ensures !(Below(a, b) && Below(b, a))
    ensures Below(a, b) || Below(b, a) <==> a != b
  {
    if a.Release? && b.Release? { LexTotal(a.parts, b.parts); }
  }

  ghost predicate Incomparable(a: string, b: string) { !Newer(a, b) && !Newer(b, a) }

  /** Over all strings: irreflexive, transitive, and incomparability is the
      equivalence "same rank". */
  lemma StrictWeakOrder(a: string, b: string, c: string)
    ensures !Newer(a, a)
    ensures Newer(a, b) && Newer(b, c) ==> Newer(a, c)
    ensures Incomparable(a, b) <==> RankOf(a) == RankOf(b)
    ensures Incomparable(a, b) && Incomparable(b, c) ==> Incomparable(a, c)
  {
    BelowTotal(RankOf(a), RankOf(a));
    BelowTotal(RankOf(a), RankOf(b));
    BelowTotal(RankOf(b), RankOf(c));
    BelowTotal(RankOf(a), RankOf(c));
    if Newer(a, b) && Newer(b, c) { BelowTransitive(RankOf(a), RankOf(b), RankOf(c)); }
  }

  // ----- printing and parsing

  function Dotted(ns: seq<nat>): seq<string>
  {
    if ns == [] then [] else [Decimal.Print(ns[0])] + Dotted(ns[1..])
  }

  function PrintVersion(ns: seq<nat>): string { Join(Dotted(ns), '.') }

  /** Numbers a 64-bit integer holds. */
  ghost predicate InRange(ns: seq<nat>) { forall n | n in ns :: n <= 9223372036854775807 }

  lemma {:induction false} DottedAt(ns: seq<nat>)
    ensures |Dotted(ns)| == |ns|
    ensures forall i | 0 <= i < |ns| :: Dotted(ns)[i] == Decimal.Print(ns[i])
  {
    if ns != [] { DottedAt(ns[1..]); }
  }

  lemma DottedFree(ns: seq<nat>)
    ensures Free(Dotted(ns), '.')
  {
    DottedAt(ns);
    forall p | p in Dotted(ns) ensures '.' !in p {
      var i :| 0 <= i < |ns| && Dotted(ns)[i] == p;
      assert Decimal.AllDigits(Decimal.Print(ns[i]));
    }
  }

  lemma {:induction false} CutStops(a: string, tail: string)
    requires forall c | c in a :: !IsCut(c)
    requires tail == "" || IsCut(tail[0])
    ensures Cut(a + tail) == a
  {
    if a == "" {
      assert a + tail == tail;
    } else {
      assert (a + tail)[1..] == a[1..] + tail;
      CutStops(a[1..], tail);
      assert [a[0]] + a[1..] == a;
    }
  }

  /** A printed number, alone or followed by a '-' or '+' suffix, scans to itself
      exactly when it fits in 63 bits, and to 0 otherwise. */
  lemma NumberPrint(n: nat, tail: string)
    requires tail == "" || IsCut(tail[0])
    ensures Number(Decimal.Print(n) + tail) == if n <= 9223372036854775807 then n else 0
  {
    var d := Decimal.Print(n);
    assert forall c | c in d :: Decimal.IsDigit(c);
    CutStops(d, tail);
    Decimal.RunExact(d, "");
    assert d + "" == d;
    Decimal.ValuePrint(n);
    assert d[..Decimal.Run(d)] == d;
    assert !IsSpace(d[0]) && d[0] != '\n';
  }

  lemma {:induction false} CutPast(d: string, tail: string)
    requires forall c | c in d :: !IsCut(c)
    ensures Cut(d + tail) == d + Cut(tail)
  {
    if d == "" {
      assert d + tail == tail;
    } else {
      assert (d + tail)[1..] == d[1..] + tail;
      CutPast(d[1..], tail);
      assert [d[0]] + (d[1..] + Cut(tail)) == d + Cut(tail);
    }
  }

  lemma ScanDigits(d: string, rest: string)
    requires d != "" && Decimal.AllDigits(d) && (rest == "" || !Decimal.IsDigit(rest[0]))
    ensures Scan(d + rest) == if Decimal.Value(d) <= 9223372036854775807 then Decimal.Value(d) else 0
  {
    Decimal.RunExact(d, rest);
    assert Decimal.IsDigit(d[0]) && (d + rest)[0] == d[0];
  }

  lemma NumberBefore(n: nat, tail: string)
    requires tail == "" || !('0' <= tail[0] <= '9')
    ensures Number(Decimal.Print(n) + tail) == if n <= 9223372036854775807 then n else 0
  {
    var d := Decimal.Print(n);
    assert forall c | c in d :: Decimal.IsDigit(c);
    CutPast(d, tail);
    ScanDigits(d, Cut(tail));
    Decimal.ValuePrint(n);
  }

  lemma {:induction false} BlanksSkipped(blanks: string, rest: string)
    requires forall c | c in blanks :: c == ' ' || c == '\t'
    ensures Number(blanks + rest) == Number(rest)
  {
    if blanks == "" {
      assert blanks + rest == rest;
    } else {
      assert blanks[0] in blanks && forall c | c in blanks[1..] :: c in blanks;
      BlanksSkipped(blanks[1..], rest);
      assert blanks + rest == [blanks[0]] + (blanks[1..] + rest);
      BlankSkipped(blanks[0], blanks[1..] + rest);
    }
  }

  /** Blanks before a number and anything but a digit after it do not matter. */
  lemma NumberInside(blanks: string, n: nat, tail: string)
    requires forall c | c in blanks :: c == ' ' || c == '\t'
    requires tail == "" || !('0' <= tail[0] <= '9')
    ensures Number(blanks + (Decimal.Print(n) + tail)) == if n <= 9223372036854775807 then n else 0
  {
    NumberBefore(n, tail);
    BlanksSkipped(blanks, Decimal.Print(n) + tail);
  }

  lemma BlankSkipped(c: char, rest: string)
    requires c == ' ' || c == '\t'
    ensures Number([c] + rest) == Number(rest)
  {
    assert ([c] + rest)[1..] == rest && ([c] + Cut(rest))[1..] == Cut(rest);
  }

  /** A part without digits is 0. */
  lemma NumberNone(part: string)
    requires forall c | c in part :: !('0' <= c <= '9')
    ensures Number(part) == 0
  {
    CutIsPrefix(part);
    assert forall c | c in Cut(part) :: c in part;
    ScanNone(Cut(part));
  }

  lemma {:induction false} CutIsPrefix(part: string)
    ensures Cut(part) <= part
  {
    if part != "" { CutIsPrefix(part[1..]); }
  }

  lemma {:induction false} ScanNone(part: string)
    requires forall c | c in part :: !Decimal.IsDigit(c)
    ensures Scan(part) == 0
  {
    if part != "" {
      assert part[0] in part && forall c | c in part[1..] :: c in part;
      ScanNone(part[1..]);
    }
  }

  /** Printing then parsing gives the list back exactly when every number is
      below 2^63; a larger one reads as 0. */
  lemma ParsePrint(ns: seq<nat>)
    requires ns != []
    ensures Parts(PrintVersion(ns)) == ns <==> InRange(ns)
  {
    DottedAt(ns);
    DottedFree(ns);
    SplitJoin(Dotted(ns), '.');
    forall i | 0 <= i < |ns|
      ensures Parts(PrintVersion(ns))[i] == if ns[i] < INT_LIMIT then ns[i] else 0
    {
      NumberPrint(ns[i], "");
      assert Decimal.Print(ns[i]) + "" == Decimal.Print(ns[i]);
    }
    if Parts(PrintVersion(ns)) == ns {
      forall n | n in ns ensures n < INT_LIMIT {
        var i :| 0 <= i < |ns| && ns[i] == n;
        assert ns[i] == if ns[i] < INT_LIMIT then ns[i] else 0;
      }
    } else {
      var i :| 0 <= i < |ns| && Parts(PrintVersion(ns))[i] != ns[i];
      assert ns[i] in ns;
    }
  }

  /** A printed version starts with a digit, so it is neither "" nor "dev". */
  lemma PrintStartsWithDigit(ns: seq<nat>)
    requires ns != []
    ensures PrintVersion(ns) != "" && Decimal.IsDigit(PrintVersion(ns)[0])
    ensures forall c | c in PrintVersion(ns) :: Decimal.IsDigit(c) || c == '.'
    ensures Decimal.IsDigit(PrintVersion(ns)[|PrintVersion(ns)| - 1])
  {
    var d := Decimal.Print(ns[0]);
    if |ns| > 1 {
      assert |Dotted(ns)| > 1 by { DottedAt(ns); }
      assert Dotted(ns)[1..] == Dotted(ns[1..]);
      PrintStartsWithDigit(ns[1..]);
      assert PrintVersion(ns) == d + ['.'] + PrintVersion(ns[1..]);
    } else {
      assert Dotted(ns) == [d];
    }
  }

  lemma {:induction false} TrimAround(l: string, v: string, r: string)
    requires forall c | c in l + r :: IsSpace(c)
    requires v != "" && !IsSpace(v[0]) && !IsSpace(v[|v| - 1])
    ensures TrimRight(TrimLeft(l + v + r)) == v
    decreases |l| + |r|
  {
    if l != "" {
      assert IsSpace(l[0]) by { assert l[0] in l + r; }
      assert (l + v + r)[1..] == l[1..] + v + r;
      assert forall c | c in l[1..] + r :: c in l + r;
      TrimAround(l[1..], v, r);
    } else {
      assert l + v + r == v + r;
      assert TrimLeft(v + r) == v + r;
      if r == "" {
        assert v + r == v;
      } else {
        var r' := r[..|r| - 1];
        assert r[|r| - 1] in l + r;
        assert (v + r)[..|v + r| - 1] == v + r';
        assert forall c | c in l + r' :: c in l + r;
        TrimAround("", v, r');
        assert "" + v + r' == v + r';
        assert TrimLeft(v + r') == v + r';
      }
    }
  }

  /** normalizeVersion removes surrounding space and one leading "v", whatever
      printed version is inside. */
  lemma NormalizePrint(l: string, ns: seq<nat>, r: string)
    requires ns != [] && forall c | c in l + r :: IsSpace(c)
    ensures Normalize(l + PrintVersion(ns) + r) == PrintVersion(ns)
    ensures Normalize(l + ("v" + PrintVersion(ns)) + r) == PrintVersion(ns)
  {
    PrintStartsWithDigit(ns);
    TrimAround(l, PrintVersion(ns), r);
    TrimAround(l, "v" + PrintVersion(ns), r);
  }

  /** Tags as they are written, perhaps with a "v", or with blanks around. */
  lemma NormalizeTag(ns: seq<nat>)
    requires ns != []
    ensures Normalize("v" + PrintVersion(ns)) == PrintVersion(ns) && Normalize(PrintVersion(ns)) == PrintVersion(ns)
  {
    var v := PrintVersion(ns);
    NormalizePrint("", ns, "");
    assert "" + ("v" + v) + "" == "v" + v && "" + v + "" == v;
  }

  lemma Blanks()
    ensures IsSpace(' ') && IsSpace('\t') && IsSpace('\n') && IsSpace('\r')
    ensures forall c: char | 'a' <= c <= 'z' || 'A' <= c <= 'Z' || '0' <= c <= '9' || c == '.' || c == '-' || c == '+' :: !IsSpace(c)
  {
  }

  lemma NormalizeBlanks(ns: seq<nat>, before: string, after: string)
    requires ns != [] && forall c | c in before + after :: c == ' ' || c == '\t' || c == '\n' || c == '\r'
    ensures Normalize(before + ("v" + PrintVersion(ns)) + after) == PrintVersion(ns)
  {
    Blanks();
    NormalizePrint(before, ns, after);
  }

  /** "", "v" and "dev" stand for no version. */
  lemma NormalizeNone()
    ensures Normalize("") == "" && Normalize("v") == "" && Normalize("dev") == "dev" && Normalize(" dev\n") == "dev"
  {
    assert TrimRight("v") == "v" && "v"[1..] == "";
    TrimAround("", "dev", "");
    assert "" + "dev" + "" == "dev";
    TrimAround(" ", "dev", "\n");
    assert " " + "dev" + "\n" == " dev\n";
  }

  // ----- agreement with Semantic Versioning 2.0.0, section 11

  /** Item 2: numeric comparison of major, minor and patch, left to right. */
  predicate Precedes(x: nat, y: nat, z: nat, x': nat, y': nat, z': nat) {
    x < x' || (x == x' && (y < y' || (y == y' && z < z')))
  }

  lemma LexTriple(x: nat, y: nat, z: nat, x': nat, y': nat, z': nat)
    ensures LexLess([x, y, z], [x', y', z']) <==> Precedes(x, y, z, x', y', z')
  {
    assert [x, y, z][1..] == [y, z] && [x', y', z'][1..] == [y', z'];
    assert [y, z][1..] == [z] && [y', z'][1..] == [z'];
    assert LexLess([z], [z']) <==> z < z';
  }

  lemma RankPrint(ns: seq<nat>)
    requires ns != [] && InRange(ns)
    ensures RankOf(PrintVersion(ns)) == Release(ns)
  {
    ParsePrint(ns);
    PrintStartsWithDigit(ns);
  }

  lemma AgreesWithSemVer(x: nat, y: nat, z: nat, x': nat, y': nat, z': nat)
    requires InRange([x, y, z]) && InRange([x', y', z'])
    ensures Newer(PrintVersion([x, y, z]), PrintVersion([x', y', z'])) <==> Precedes(x, y, z, x', y', z')
  {
    RankPrint([x, y, z]);
    RankPrint([x', y', z']);
    LexTriple(x, y, z, x', y', z');
  }

  lemma NumbersCons(p: string, rest: seq<string>)
    ensures Numbers([p] + rest) == [Number(p)] + Numbers(rest)
  {
    assert ([p] + rest)[1..] == rest;
  }

  lemma PrintHasNoDot(n: nat)
    ensures '.' !in Decimal.Print(n)
  {
    assert forall c | c in Decimal.Print(n) :: Decimal.IsDigit(c);
  }

  lemma FirstPart(n: nat, rest: string)
    requires n < INT_LIMIT
    ensures Parts(Decimal.Print(n) + ['.'] + rest) == [n] + Parts(rest)
  {
    var d := Decimal.Print(n);
    PrintHasNoDot(n);
    SplitConcat(d, '.', rest);
    SplitWhole(d, '.');
    NumbersCons(d, Split(rest, '.'));
    NumberPrint(n, "");
    assert d + "" == d;
  }

  lemma LastPart(n: nat, sign: char, s: string)
    requires n < INT_LIMIT && IsCut(sign)
    ensures Parts(Decimal.Print(n) + ([sign] + s)) == [n] + Numbers(Split(s, '.')[1..])
  {
    var d, pieces := Decimal.Print(n), Split(s, '.');
    PrintHasNoDot(n);
    var first := [sign] + pieces[0];
    SplitPrefix(d, [sign] + s);
    SplitPrefix([sign], s);
    assert Split([sign] + s, '.')[0] == first;
    assert Split([sign] + s, '.')[1..] == pieces[1..];
    NumbersCons(d + first, pieces[1..]);
    NumberPrint(n, first);
  }

  lemma PrintedStep(n: nat, ns: seq<nat>, tail: string)
    requires n < INT_LIMIT && ns != []
    ensures Parts(PrintVersion([n] + ns) + tail) == [n] + Parts(PrintVersion(ns) + tail)
  {
    PrintCons(n, ns);
    assert PrintVersion([n] + ns) + tail == Decimal.Print(n) + ['.'] + (PrintVersion(ns) + tail);
    FirstPart(n, PrintVersion(ns) + tail);
  }

  /** A '-' or '+' suffix on a printed version is ignored up to its first dot;
      each dot in it opens one more part. */
  lemma {:induction false} SuffixParts(ns: seq<nat>, sign: char, s: string)
    requires ns != [] && InRange(ns) && IsCut(sign)
    ensures Parts(PrintVersion(ns) + ([sign] + s)) == ns + Numbers(Split(s, '.')[1..])
  {
    var n, rest := ns[0], ns[1..];
    assert n in ns && ns == [n] + rest;
    if rest == [] {
      LastPart(n, sign, s);
      assert Dotted(ns) == [Decimal.Print(n)];
    } else {
      PrintedStep(n, rest, [sign] + s);
      assert forall m | m in rest :: m in ns;
      SuffixParts(rest, sign, s);
      Regroup(n, rest, Numbers(Split(s, '.')[1..]));
    }
  }

  /** In particular a suffix without a dot, after either sign, changes nothing. */
  lemma PlainSuffixIgnored(ns: seq<nat>, s: string)
    requires ns != [] && InRange(ns) && '.' !in s
    ensures Parts(PrintVersion(ns) + ("-" + s)) == ns && Parts(PrintVersion(ns) + ("+" + s)) == ns
  {
    SplitWhole(s, '.');
    SuffixParts(ns, '-', s);
    SuffixParts(ns, '+', s);
    assert ['-'] + s == "-" + s && ['+'] + s == "+" + s;
    assert [s][1..] == [] && ns + [] == ns;
  }

  lemma Regroup(n: nat, a: seq<nat>, b: seq<nat>)
    ensures [n] + (a + b) == ([n] + a) + b
  {
  }

  lemma PrintCons(n: nat, ns: seq<nat>)
    requires ns != []
    ensures PrintVersion([n] + ns) == Decimal.Print(n) + ['.'] + PrintVersion(ns)
  {
    assert ([n] + ns)[1..] == ns;
    assert Dotted([n] + ns)[1..] == Dotted(ns);
    assert Dotted(ns) != [];
  }

  lemma {:induction false} SplitPrefix(a: string, s: string)
    requires '.' !in a
    ensures Split(a + s, '.') == [a + Split(s, '.')[0]] + Split(s, '.')[1..]
  {
    if a == "" {
      assert a + s == s;
      assert "" + Split(s, '.')[0] == Split(s, '.')[0];
    } else {
      assert (a + s)[1..] == a[1..] + s;
      SplitPrefix(a[1..], s);
      assert [a[0]] + (a[1..] + Split(s, '.')[0]) == a + Split(s, '.')[0];
    }
  }

  lemma {:induction false} LexExtension(a: seq<nat>, more: seq<nat>)
    ensures LexLess(a, a + more) <==> more != []
    ensures !LexLess(a + more, a)
  {
    if a == [] {
      assert a + more == more;
    } else {
      assert (a + more)[1..] == a[1..] + more;
      LexExtension(a[1..], more);
    }
  }

  /** Items 3 and 10 of Semantic Versioning put a pre-release below its release and
      ignore build metadata. The code meets neither rule in general: a suffix is
      ignored exactly when it has no dot, and with a dot the suffixed version is
      the newer one. */
  lemma SuffixOrder(ns: seq<nat>, sign: char, s: string)
    requires ns != [] && InRange(ns) && IsCut(sign)
    ensures Newer(PrintVersion(ns), PrintVersion(ns) + ([sign] + s)) <==> '.' in s
    ensures !Newer(PrintVersion(ns) + ([sign] + s), PrintVersion(ns))
  {
    var w := PrintVersion(ns) + ([sign] + s);
    RankPrint(ns);
    SuffixParts(ns, sign, s);
    PrintStartsWithDigit(ns);
    assert w[0] == PrintVersion(ns)[0];
    assert RankOf(w) == Release(ns + Numbers(Split(s, '.')[1..]));
    LexExtension(ns, Numbers(Split(s, '.')[1..]));
    DotSplits(s);
  }

  lemma DotSplits(s: string)
    ensures |Split(s, '.')| > 1 <==> '.' in s
  {
    if '.' in s {
      var i :| 0 <= i < |s| && s[i] == '.';
      assert s == s[..i] + ['.'] + s[i + 1..];
      SplitConcat(s[..i], '.', s[i + 1..]);
    } else {
      SplitWhole(s, '.');
    }
  }

  lemma PrintOneZeroZero()
    ensures PrintVersion([1, 0, 0]) == "1.0.0"
  {
    assert Dotted([0]) == ["0"];
    assert Dotted([0, 0]) == ["0"] + Dotted([0]) == ["0", "0"];
    assert Dotted([1, 0, 0]) == ["1"] + Dotted([0, 0]) == ["1", "0", "0"];
    assert Join(["0"], '.') == "0";
    assert Join(["0", "0"], '.') == "0" + ['.'] + Join(["0"], '.') == "0.0";
    assert Join(["1", "0", "0"], '.') == "1" + ['.'] + Join(["0", "0"], '.') == "1.0.0";
  }

  lemma RcLiteral()
    ensures '.' in "rc.1"
    ensures "1.0.0" + (['-'] + "rc.1") == "1.0.0-rc.1"
  {
    assert "rc.1"[2] == '.';
  }

  /** So the final release is never offered to a host on its "-rc.1". */
  lemma ReleaseCandidateIsStuck()
    ensures !Newer("1.0.0-rc.1", "1.0.0") && Newer("1.0.0", "1.0.0-rc.1")
  {
    PrintOneZeroZero();
    RcLiteral();
    SuffixOrder([1, 0, 0], '-', "rc.1");
  }
}
