/** The choice of a release asset, FindAssetForPlatform. A `char` is one Unicode
    character here. */
module Assets {
  import opened Options
  import opened Text

  datatype Asset = Asset(name: string, url: string)

  /** unicode.ToLower, exact where the result is ASCII: besides A to Z that is
      U+0130 and the Kelvin sign. */
  function LowerChar(c: char): char {
    if 'A' <= c <= 'Z' then (c as int + 32) as char
    else if c == '\U{130}' then 'i'
    else if c == '\U{212A}' then 'k'
    else c
  }

  function Lower(s: string): (l: string)
    ensures |l| == |s|
    ensures forall i | 0 <= i < |s| :: l[i] == LowerChar(s[i])
  {
    if s == "" then "" else [LowerChar(s[0])] + Lower(s[1..])
  }

  function Dashed(os: string, arch: string): string { os + "-" + arch }
  function Underscored(os: string, arch: string): string { os + "_" + arch }

  /** The four patterns, the two with the service's name first. */
  function Patterns(os: string, arch: string): seq<string> {
    [ "vito-root-service-" + Dashed(os, arch) + ".tar.gz",
      "vito-root-service_" + Underscored(os, arch) + ".tar.gz",
      Dashed(os, arch) + ".tar.gz",
      Underscored(os, arch) + ".tar.gz" ]
  }

  function ShortPatterns(os: string, arch: string): seq<string> {
    [Dashed(os, arch) + ".tar.gz", Underscored(os, arch) + ".tar.gz"]
  }

  function ArchPatterns(os: string, arch: string): seq<string> {
    [Dashed(os, arch), Underscored(os, arch)]
  }

  /** The test of the first pair of loops, for one asset and one pattern. */
  predicate Hits(name: string, pattern: string) {
    Contains(Lower(name), Lower(pattern)) || Lower(name) == Lower(pattern)
  }

  /** The test of the fallback loops: the pattern is not lower-cased there. */
  predicate FallsBack(name: string, pattern: string) {
    Contains(Lower(name), pattern) && HasSuffix(Lower(name), ".tar.gz")
  }

  // ----- what is searched for

  /** An asset that names the platform's archive. */
  predicate Exact(name: string, os: string, arch: string) {
    exists p | p in ShortPatterns(os, arch) :: Contains(Lower(name), Lower(p))
  }

  predicate Fallback(name: string, os: string, arch: string) {
    exists p | p in ArchPatterns(os, arch) :: FallsBack(name, p)
  }

  /** The first asset with a property. */
  ghost predicate First(assets: seq<Asset>, i: int, good: string -> bool) {
    0 <= i < |assets| && good(assets[i].name) && forall j | 0 <= j < i :: !good(assets[j].name)
  }

  ghost predicate Without(assets: seq<Asset>, good: string -> bool) {
    forall j | 0 <= j < |assets| :: !good(assets[j].name)
  }

  /** The index that is chosen: the first exact one, else the first fallback. */
  ghost predicate Chosen(assets: seq<Asset>, i: int, os: string, arch: string) {
    if Without(assets, n => Exact(n, os, arch)) then First(assets, i, n => Fallback(n, os, arch))
    else First(assets, i, n => Exact(n, os, arch))
  }

  lemma {:induction false} LowerConcat(a: string, b: string)
    ensures Lower(a + b) == Lower(a) + Lower(b)
  {
    if a == "" {
      assert a + b == b;
    } else {
      assert (a + b)[1..] == a[1..] + b;
      LowerConcat(a[1..], b);
    }
  }

  lemma ContainsTail(p: string, q: string)
    ensures Contains(Lower(p + q), Lower(q))
  {
    LowerConcat(p, q);
    var s := Lower(p) + Lower(q);
    assert s[|Lower(p)|..] == Lower(q);
    assert HasPrefix(s[|Lower(p)|..], Lower(q));
  }

  lemma ContainsSelf(s: string)
    ensures Contains(s, s)
  {
    assert s[0..] == s && HasPrefix(s[0..], s);
  }

  /** Each long pattern has a short one as its tail. */
  lemma LongHasTail(os: string, arch: string)
    ensures Patterns(os, arch)[0] == "vito-root-service-" + Patterns(os, arch)[2]
    ensures Patterns(os, arch)[1] == "vito-root-service_" + Patterns(os, arch)[3]
  {
  }

  /** So the two short patterns decide alone. */
  lemma ShortPatternsSuffice(name: string, os: string, arch: string)
    ensures (exists p | p in Patterns(os, arch) :: Hits(name, p)) <==> Exact(name, os, arch)
  {
    var ps := Patterns(os, arch);
    if exists p | p in ps :: Hits(name, p) {
      var p :| p in ps && Hits(name, p);
      if Lower(name) == Lower(p) { ContainsSelf(Lower(p)); }
      LongHasTail(os, arch);
      ContainsTail("vito-root-service-", ps[2]);
      ContainsTail("vito-root-service_", ps[3]);
      if p == ps[0] {
        ContainsTransitive(Lower(name), Lower(ps[0]), Lower(ps[2]));
      } else if p == ps[1] {
        ContainsTransitive(Lower(name), Lower(ps[1]), Lower(ps[3]));
      }
      assert ps[2] in ShortPatterns(os, arch) && ps[3] in ShortPatterns(os, arch);
    }
    if Exact(name, os, arch) {
      var p :| p in ShortPatterns(os, arch) && Contains(Lower(name), Lower(p));
      assert ps[2] in ps && ps[3] in ps;
      assert Hits(name, p);
    }
  }

  ghost predicate IsArchive(name: string) { HasSuffix(Lower(name), ".tar.gz") }

  /** No asset is exact, or the first exact one is an archive. */
  ghost predicate ArchiveFirst(assets: seq<Asset>, os: string, arch: string) {
    || Without(assets, n => Exact(n, os, arch))
    || exists j :: First(assets, j, n => Exact(n, os, arch)) && IsArchive(assets[j].name)
  }

  /** What is chosen is an archive by its name exactly if no asset is exact, or the
      first exact one is an archive. */
  lemma ArchiveExactly(assets: seq<Asset>, i: nat, os: string, arch: string)
    requires i < |assets| && Chosen(assets, i, os, arch)
    ensures IsArchive(assets[i].name) <==> ArchiveFirst(assets, os, arch)
  {
  }

  lemma FirstExact(assets: seq<Asset>, i: nat, os: string, arch: string)
    requires i < |assets| && Exact(assets[i].name, os, arch) && forall j | 0 <= j < i :: !Exact(assets[j].name, os, arch)
    ensures Chosen(assets, i, os, arch) && (IsArchive(assets[i].name) <==> ArchiveFirst(assets, os, arch))
  {
    var exact := n => Exact(n, os, arch);
    assert exact(assets[i].name) && First(assets, i, exact);
    ArchiveExactly(assets, i, os, arch);
  }

  lemma FirstFallback(assets: seq<Asset>, i: nat, os: string, arch: string)
    requires i < |assets| && Fallback(assets[i].name, os, arch) && forall j | 0 <= j < i :: !Fallback(assets[j].name, os, arch)
    requires forall j | 0 <= j < |assets| :: !Exact(assets[j].name, os, arch)
    ensures Chosen(assets, i, os, arch) && (IsArchive(assets[i].name) <==> ArchiveFirst(assets, os, arch))
  {
    assert First(assets, i, n => Fallback(n, os, arch)) && Without(assets, n => Exact(n, os, arch));
    ArchiveExactly(assets, i, os, arch);
  }

  /** For every list of assets: the first exact one, else the first fallback, else
      an error, which happens exactly if no asset is either. */
  method FindAssetForPlatform(assets: seq<Asset>, os: string, arch: string) returns (found: Option<Asset>)
    ensures found.Some? <==> exists a | a in assets :: Exact(a.name, os, arch) || Fallback(a.name, os, arch)
    ensures found.Some? ==> exists i :: 0 <= i < |assets| && found == Some(assets[i]) && Chosen(assets, i, os, arch)
    ensures found.Some? ==> (IsArchive(found.value.name) <==> ArchiveFirst(assets, os, arch))
  {
    var patterns := Patterns(os, arch);
    for i := 0 to |assets|
      invariant forall j | 0 <= j < i :: !Exact(assets[j].name, os, arch)
    {
      var name := Lower(assets[i].name);
      ShortPatternsSuffice(assets[i].name, os, arch);
      for k := 0 to |patterns|
        invariant forall l | 0 <= l < k :: !Hits(assets[i].name, patterns[l])
      {
        if Contains(name, Lower(patterns[k])) || name == Lower(patterns[k]) {
          assert patterns[k] in patterns && Hits(assets[i].name, patterns[k]);
          FirstExact(assets, i, os, arch);
          return Some(assets[i]);
        }
      }
    }
    var archPatterns := ArchPatterns(os, arch);
    for i := 0 to |assets|
      invariant forall j | 0 <= j < i :: !Fallback(assets[j].name, os, arch)
    {
      var name := Lower(assets[i].name);
      for k := 0 to |archPatterns|
        invariant forall l | 0 <= l < k :: !FallsBack(assets[i].name, archPatterns[l])
      {
        if Contains(name, archPatterns[k]) && HasSuffix(name, ".tar.gz") {
          assert archPatterns[k] in archPatterns && FallsBack(assets[i].name, archPatterns[k]);
          FirstFallback(assets, i, os, arch);
          return Some(assets[i]);
        }
      }
    }
    return None;
  }

  /** "Contains" is not "ends with": in any list, a checksum file listed before every
      other exact asset is chosen, and it is no archive. */
  lemma ChecksumIsChosen(before: seq<Asset>, after: seq<Asset>, base: string, url: string, os: string, arch: string)
    requires Without(before, n => Exact(n, os, arch))
    ensures var checksum := Asset(base + (Dashed(os, arch) + ".tar.gz") + ".sha256", url);
            Chosen(before + [checksum] + after, |before|, os, arch) && !IsArchive(checksum.name)
  {
    ChecksumIsExact(base, os, arch);
    ChosenAfter(before, Asset(base + (Dashed(os, arch) + ".tar.gz") + ".sha256", url), after, os, arch);
  }

  lemma ChecksumIsExact(base: string, os: string, arch: string)
    ensures var name := base + (Dashed(os, arch) + ".tar.gz") + ".sha256";
            Exact(name, os, arch) && !IsArchive(name)
  {
    var p := Dashed(os, arch) + ".tar.gz";
    assert p in ShortPatterns(os, arch);
    TailAfter(base, p, ".sha256");
    LowerConcat(base + p, ".sha256");
    EndsDiffer(Lower(base + p), Lower(".sha256"), ".tar.gz");
  }

  lemma ChosenAfter(before: seq<Asset>, a: Asset, after: seq<Asset>, os: string, arch: string)
    requires Without(before, n => Exact(n, os, arch)) && Exact(a.name, os, arch)
    ensures Chosen(before + [a] + after, |before|, os, arch)
  {
    var assets := before + [a] + after;
    var exact := n => Exact(n, os, arch);
    forall j | 0 <= j < |before| ensures !Exact(assets[j].name, os, arch) {
      assert assets[j] == before[j] && !exact(before[j].name);
    }
    FirstExact(assets, |before|, os, arch);
  }

  lemma TailAfter(base: string, p: string, tail: string)
    ensures Contains(Lower(base + p + tail), Lower(p))
  {
    LowerConcat(base + p, tail);
    LowerConcat(base, p);
    Middle(Lower(base), Lower(p), Lower(tail), "");
    assert Lower(tail) + "" == Lower(tail);
  }

  lemma EndsDiffer(a: string, b: string, suffix: string)
    requires b != "" && suffix != "" && b[|b| - 1] != suffix[|suffix| - 1]
    ensures !HasSuffix(a + b, suffix)
  {
    var s := a + b;
    assert s[|s| - 1] == b[|b| - 1];
    assert |suffix| <= |s| ==> s[|s| - |suffix|..][|suffix| - 1] == s[|s| - 1];
  }

  /** A name with the platform, then something else, then the extension. */
  ghost predicate Stretched(name: string, os: string, arch: string) {
    exists p, base, more :: p in ArchPatterns(os, arch) && more != "" && Lower(name) == base + p + (more + ".tar.gz")
  }

  // ----- the same tests, read in letters of either case

  ghost predicate HoldsFold(s: string, p: string) {
    exists i | 0 <= i <= |s| :: PrefixFold(s[i..], p)
  }

  ghost predicate EndsFold(s: string, p: string) {
    |p| <= |s| && EqualFold(s[|s| - |p|..], p)
  }

  lemma LowerIsFold(a: char, b: char)
    requires a as int < 0x80 && b as int < 0x80
    ensures LowerChar(a) == LowerChar(b) <==> SameLetter(a, b)
  {
  }

  lemma LowerIsEqual(s: string, t: string)
    requires IsAscii(s) && IsAscii(t)
    ensures Lower(s) == Lower(t) <==> EqualFold(s, t)
  {
    if |s| == |t| {
      forall i | 0 <= i < |s| ensures Lower(s)[i] == Lower(t)[i] <==> SameLetter(s[i], t[i]) {
        assert s[i] in s && t[i] in t;
        LowerIsFold(s[i], t[i]);
      }
    } else {
      assert |Lower(s)| == |s| && |Lower(t)| == |t|;
    }
  }

  lemma LowerSlice(s: string, i: nat, j: nat)
    requires i <= j <= |s|
    ensures Lower(s)[i..j] == Lower(s[i..j])
  {
    Cutting(Lower(s), s, Lower(s[i..j]), s[i..j], i);
  }

  lemma Cutting(l: string, s: string, m: string, t: string, i: nat)
    requires |l| == |s| && forall k | 0 <= k < |s| :: l[k] == LowerChar(s[k])
    requires |m| == |t| && forall k | 0 <= k < |t| :: m[k] == LowerChar(t[k])
    requires i + |t| <= |s| && t == s[i..i + |t|]
    ensures l[i..i + |t|] == m
  {
    assert forall k | 0 <= k < |t| :: l[i..i + |t|][k] == l[i + k] && t[k] == s[i + k];
  }

  lemma LowerIsPrefix(s: string, p: string, i: nat)
    requires IsAscii(s) && IsAscii(p) && i <= |s|
    ensures HasPrefix(Lower(s)[i..], Lower(p)) <==> PrefixFold(s[i..], p)
  {
    if |p| <= |s| - i {
      var t := s[i..i + |p|];
      assert IsAscii(t) by { assert forall c | c in t :: c in s; }
      LowerSlice(s, i, i + |p|);
      assert s[i..][..|p|] == t && Lower(s)[i..][..|p|] == Lower(t);
      LowerIsEqual(t, p);
    }
  }

  lemma LowerContains(s: string, p: string)
    requires IsAscii(s) && IsAscii(p)
    ensures Contains(Lower(s), Lower(p)) <==> HoldsFold(s, p)
  {
    forall i | 0 <= i <= |s| ensures HasPrefix(Lower(s)[i..], Lower(p)) <==> PrefixFold(s[i..], p) {
      LowerIsPrefix(s, p, i);
    }
  }

  lemma LowerEnds(s: string, p: string)
    requires IsAscii(s) && IsAscii(p)
    ensures HasSuffix(Lower(s), Lower(p)) <==> EndsFold(s, p)
  {
    if |p| <= |s| {
      var t := s[|s| - |p|..];
      assert IsAscii(t) by { assert forall c | c in t :: c in s; }
      LowerSlice(s, |s| - |p|, |s|);
      assert Lower(s)[|s| - |p|..] == Lower(t);
      LowerIsEqual(t, p);
    }
  }

  lemma PatternIsAscii(os: string, sign: string, arch: string)
    requires IsAscii(os) && IsAscii(arch) && (sign == "-" || sign == "_")
    ensures IsAscii(os + sign + arch) && IsAscii(os + sign + arch + ".tar.gz")
  {
    assert IsAscii(".tar.gz");
  }

  /** An asset is exact for a platform exactly if its name holds, in letters of either
      case, the platform's archive. */
  lemma ExactExactly(name: string, os: string, arch: string)
    requires IsAscii(name) && IsAscii(os) && IsAscii(arch)
    ensures Exact(name, os, arch)
      <==> HoldsFold(name, os + "-" + arch + ".tar.gz") || HoldsFold(name, os + "_" + arch + ".tar.gz")
  {
    PatternIsAscii(os, "-", arch);
    PatternIsAscii(os, "_", arch);
    var p, q := os + "-" + arch + ".tar.gz", os + "_" + arch + ".tar.gz";
    LowerContains(name, p);
    LowerContains(name, q);
    var ps := ShortPatterns(os, arch);
    assert ps == [p, q];
    assert ps[0] in ps && ps[1] in ps;
  }

  /** A platform's names as the Go runtime spells them. */
  predicate Platform(os: string, arch: string) {
    Lower(os) == os && Lower(arch) == arch && '.' !in os && '.' !in arch
  }

  lemma FixedConcat(a: string, b: string)
    requires Lower(a) == a && Lower(b) == b
    ensures Lower(a + b) == a + b
  {
    LowerConcat(a, b);
  }

  lemma ArchiveIs(name: string)
    requires IsAscii(name)
    ensures IsArchive(name) <==> EndsFold(name, ".tar.gz")
  {
    LowerDotTar();
    LowerEnds(name, ".tar.gz");
  }

  /** The fallback asks for the platform anywhere and the extension at the end. */
  lemma FallbackFolds(name: string, os: string, arch: string)
    requires IsAscii(name) && IsAscii(os) && IsAscii(arch) && Platform(os, arch)
    ensures Fallback(name, os, arch)
      <==> (HoldsFold(name, os + "-" + arch) || HoldsFold(name, os + "_" + arch)) && EndsFold(name, ".tar.gz")
  {
    PatternIsAscii(os, "-", arch);
    PatternIsAscii(os, "_", arch);
    ArchiveIs(name);
    FoldFixed(name, os, "-", arch);
    FoldFixed(name, os, "_", arch);
    var ps := ArchPatterns(os, arch);
    assert ps == [os + "-" + arch, os + "_" + arch];
    assert ps[0] in ps && ps[1] in ps;
  }

  lemma FoldFixed(name: string, os: string, sign: string, arch: string)
    requires IsAscii(name) && IsAscii(os + sign + arch) && Platform(os, arch) && (sign == "-" || sign == "_")
    ensures Contains(Lower(name), os + sign + arch) <==> HoldsFold(name, os + sign + arch)
  {
    LowerFixed(sign);
    FixedConcat(os, sign);
    FixedConcat(os + sign, arch);
    LowerContains(name, os + sign + arch);
  }

  lemma PatternFixed(os: string, sign: string, arch: string)
    requires Platform(os, arch) && (sign == "-" || sign == "_")
    ensures var p := os + sign + arch;
            Lower(p + ".tar.gz") == p + ".tar.gz" && '.' !in p && |os| < |p| && (p[|os|] == '-' || p[|os|] == '_')
  {
    LowerDotTar();
    LowerFixed(sign);
    FixedConcat(os, sign);
    FixedConcat(os + sign, arch);
    FixedConcat(os + sign + arch, ".tar.gz");
  }

  lemma PatternShape(os: string, arch: string, p: string)
    requires Platform(os, arch) && p in ArchPatterns(os, arch)
    ensures Lower(p + ".tar.gz") == p + ".tar.gz" && '.' !in p
    ensures |os| < |p| && (p[|os|] == '-' || p[|os|] == '_')
    ensures p + ".tar.gz" in ShortPatterns(os, arch)
  {
    PatternFixed(os, "-", arch);
    PatternFixed(os, "_", arch);
    assert p == Dashed(os, arch) || p == Underscored(os, arch);
    var ps := ShortPatterns(os, arch);
    assert ps[0] in ps && ps[1] in ps;
  }

  lemma TailLetters(l: string, k: nat)
    requires HasSuffix(l, ".tar.gz") && |l| - 7 < k < |l|
    ensures l[k] != '-' && l[k] != '_'
  {
    var n := |l| - 7;
    assert l[k] == l[n..][k - n] == ".tar.gz"[k - n];
  }

  /** The platform's name cannot reach into the extension. */
  lemma NoOverlap(l: string, p: string, i: nat, k: nat)
    requires HasSuffix(l, ".tar.gz") && i <= |l| && HasPrefix(l[i..], p) && '.' !in p
    requires k < |p| && (p[k] == '-' || p[k] == '_')
    ensures i + |p| <= |l| - 7
  {
    var n := |l| - 7;
    assert l[n] == l[n..][0] == '.';
    assert forall m | 0 <= m < |p| :: p[m] == l[i..][m] == l[i + m];
    if n < i { TailLetters(l, i + k); }
  }

  lemma Spread(l: string, p: string, k: nat) returns (base: string, more: string)
    requires HasSuffix(l, ".tar.gz") && Contains(l, p) && '.' !in p
    requires k < |p| && (p[k] == '-' || p[k] == '_')
    ensures l == base + p + (more + ".tar.gz")
    ensures !Contains(l, p + ".tar.gz") ==> more != ""
  {
    var i :| 0 <= i <= |l| && HasPrefix(l[i..], p);
    NoOverlap(l, p, i, k);
    Cut(l, i, p);
    base, more := l[..i], l[i + |p|..|l| - 7];
    Nothing(p, more);
    assert more == "" ==> HasPrefix(l[i..], p + ".tar.gz");
  }

  lemma NotExact(name: string, os: string, arch: string, p: string)
    requires Platform(os, arch) && !Exact(name, os, arch) && p in ArchPatterns(os, arch)
    ensures !Contains(Lower(name), p + ".tar.gz")
  {
    PatternShape(os, arch, p);
    assert p + ".tar.gz" in ShortPatterns(os, arch);
  }

  lemma TakenByFallback(name: string, os: string, arch: string, p: string)
    requires Platform(os, arch) && !Exact(name, os, arch) && p in ArchPatterns(os, arch) && FallsBack(name, p)
    ensures Stretched(name, os, arch)
  {
    PatternShape(os, arch, p);
    NotExact(name, os, arch, p);
    var base, more := Spread(Lower(name), p, |os|);
    assert Lower(name) == base + p + (more + ".tar.gz");
  }

  lemma Cut(l: string, i: nat, p: string)
    requires HasSuffix(l, ".tar.gz") && i + |p| <= |l| - 7 && HasPrefix(l[i..], p)
    ensures l[i..] == p + (l[i + |p|..|l| - 7] + ".tar.gz")
    ensures l == l[..i] + p + (l[i + |p|..|l| - 7] + ".tar.gz")
  {
    assert l == l[..i] + l[i..];
    assert l[i..] == p + l[i + |p|..];
    assert l[i + |p|..] == l[i + |p|..|l| - 7] + l[|l| - 7..];
  }

  lemma Nothing(p: string, more: string)
    ensures more == "" ==> p + (more + ".tar.gz") == p + ".tar.gz"
  {
  }

  lemma TakesStretched(name: string, os: string, arch: string)
    requires Stretched(name, os, arch)
    ensures Fallback(name, os, arch)
  {
    var p, base, more :| p in ArchPatterns(os, arch) && more != "" && Lower(name) == base + p + (more + ".tar.gz");
    Middle(base, p, more, ".tar.gz");
    assert FallsBack(name, p);
  }

  /** Among the assets that are not exact, the fallback takes exactly those with more
      text between the platform's name and the extension: "arm64" for "arm". */
  lemma FallbackExactly(name: string, os: string, arch: string)
    requires Platform(os, arch) && !Exact(name, os, arch)
    ensures Fallback(name, os, arch) <==> Stretched(name, os, arch)
  {
    if Fallback(name, os, arch) {
      var p :| p in ArchPatterns(os, arch) && FallsBack(name, p);
      TakenByFallback(name, os, arch, p);
    }
    if Stretched(name, os, arch) { TakesStretched(name, os, arch); }
  }

  /** Plain words, such as the Go runtime's names of platforms. */
  predicate Word(s: string) { Lower(s) == s && '.' !in s && '-' !in s && '_' !in s }

  /** The sign between two words is at one place only. */
  lemma OneSign(os: string, arch: string, more: string, sign: string, i: nat)
    requires Word(os) && Word(arch) && Word(more) && more != "" && (sign == "-" || sign == "_")
    ensures var l := os + "-" + arch + (more + ".tar.gz"); i <= |l| ==> !HasPrefix(l[i..], os + sign + arch + ".tar.gz")
  {
    var l, p := os + "-" + arch + (more + ".tar.gz"), os + sign + arch + ".tar.gz";
    var n := |os| + 1 + |arch|;
    assert p[n] == '.' && p[|os|] == sign[0];
    if i <= |more| {
      assert |l| == |p| + |more|;
      if i < |more| {
        assert l[i + n] == (arch + more + ".tar.gz")[i + n - |os| - 1];
        SignIsNotDot(os, arch, more, i + n);
        Differs(l, p, i, n);
      } else {
        SignIsFirst(os, arch, more, i + |os|);
        Differs(l, p, i, |os|);
      }
    }
  }

  lemma Differs(l: string, p: string, i: nat, k: nat)
    requires k < |p| && i + |p| <= |l| && l[i + k] != p[k]
    ensures !HasPrefix(l[i..], p)
  {
    assert l[i..][k] == l[i + k];
  }

  lemma SignIsNotDot(os: string, arch: string, more: string, k: nat)
    requires Word(os) && Word(arch) && Word(more) && k < |os| + 1 + |arch| + |more|
    ensures (os + "-" + arch + (more + ".tar.gz"))[k] != '.'
  {
    var s := os + "-" + arch + more;
    assert os + "-" + arch + (more + ".tar.gz") == s + ".tar.gz";
    assert s[k] in s && forall c | c in s :: c in os || c == '-' || c in arch || c in more;
  }

  lemma SignIsFirst(os: string, arch: string, more: string, k: nat)
    requires Word(os) && Word(arch) && Word(more) && |os| < k < |os| + 1 + |arch| + |more| + 7
    ensures (os + "-" + arch + (more + ".tar.gz"))[k] != '-' && (os + "-" + arch + (more + ".tar.gz"))[k] != '_'
  {
    var s := arch + more + ".tar.gz";
    assert os + "-" + arch + (more + ".tar.gz") == os + "-" + s;
    assert s[k - |os| - 1] in s && forall c | c in s :: c in arch || c in more || c in ".tar.gz";
    assert '-' !in ".tar.gz" && '_' !in ".tar.gz";
  }

  /** For any words: the fallback for one architecture takes the archive of every
      architecture whose name is longer. */
  lemma LongerIsTaken(os: string, arch: string, more: string)
    requires Word(os) && Word(arch) && Word(more) && more != ""
    ensures var name := Dashed(os, arch) + (more + ".tar.gz"); Fallback(name, os, arch) && !Exact(name, os, arch)
  {
    var name, d, u := Dashed(os, arch) + (more + ".tar.gz"), Dashed(os, arch), Underscored(os, arch);
    PatternFixed(os, "-", arch);
    PatternFixed(os, "_", arch);
    NameFixed(os, arch, more);
    forall i | 0 <= i <= |name| ensures !HasPrefix(name[i..], d + ".tar.gz") && !HasPrefix(name[i..], u + ".tar.gz") {
      OneSign(os, arch, more, "-", i);
      OneSign(os, arch, more, "_", i);
    }
    NoneExact(name, os, arch);
    assert d in ArchPatterns(os, arch) && name == "" + d + (more + ".tar.gz");
    assert Stretched(name, os, arch);
    TakesStretched(name, os, arch);
  }

  lemma NameFixed(os: string, arch: string, more: string)
    requires Word(os) && Word(arch) && Word(more)
    ensures Lower(Dashed(os, arch) + (more + ".tar.gz")) == Dashed(os, arch) + (more + ".tar.gz")
  {
    LowerFixed("-");
    FixedConcat(os, "-");
    FixedConcat(os + "-", arch);
    LowerDotTar();
    FixedConcat(more, ".tar.gz");
    FixedConcat(Dashed(os, arch), more + ".tar.gz");
  }

  lemma NoneExact(name: string, os: string, arch: string)
    requires Platform(os, arch) && Lower(name) == name
    requires !Contains(name, Dashed(os, arch) + ".tar.gz") && !Contains(name, Underscored(os, arch) + ".tar.gz")
    ensures !Exact(name, os, arch)
  {
    PatternFixed(os, "-", arch);
    PatternFixed(os, "_", arch);
  }

  lemma ArmWords()
    ensures Word("arm") && Word("64")
  {
    LowerFixed("arm");
    LowerFixed("64");
  }

  /** On "arm", whatever the operating system, the fallback takes the archive for
      "arm64". */
  lemma ArmTakesArm64(os: string)
    requires Word(os)
    ensures var name := Dashed(os, "arm") + ("64" + ".tar.gz"); Fallback(name, os, "arm") && !Exact(name, os, "arm")
  {
    ArmWords();
    LongerIsTaken(os, "arm", "64");
  }

  lemma Middle(a: string, b: string, c: string, d: string)
    ensures Contains(a + b + (c + d), b) && HasSuffix(a + b + (c + d), d)
  {
    var s := a + b + (c + d);
    assert s[|a|..] == b + (c + d);
    assert HasPrefix(s[|a|..], b);
  }

  lemma LowerDotTar()
    ensures Lower(".tar.gz") == ".tar.gz"
  {
    LowerFixed(".tar.gz");
  }

  lemma LowerFixed(s: string)
    requires forall c | c in s :: LowerChar(c) == c
    ensures Lower(s) == s
  {
    forall i | 0 <= i < |s| ensures Lower(s)[i] == s[i] {
      assert s[i] in s;
    }
  }
}
