/**
 Update histories of one host. A process reports the version compiled into it
 (`running`); an applied update puts another binary in place (`installed`),
 which reports its release tag once the service restarts into it.
 */
module History {
  import opened Versions
  import Decimal
  import Text

  datatype Host = Host(running: string, installed: string)

  /** One request for an update, or one restart. `replaced` says whether
      everything after the version test went through. */
  datatype Event = Update(tag: string, replaced: bool) | Restart

  function Level(version: string): Rank { RankOf(Normalize(version)) }

  /** The version test of CheckUpdate and PerformUpdate. */
  predicate Offers(running: string, tag: string) { Newer(Normalize(running), Normalize(tag)) }

  predicate Applies(h: Host, e: Event) {
    e.Update? && e.replaced && Offers(h.running, e.tag)
  }

  function Next(h: Host, e: Event): Host {
    if e.Restart? then h.(running := h.installed)
    else if Applies(h, e) then h.(installed := e.tag)
    else h
  }

  function After(h: Host, es: seq<Event>): Host
    decreases |es|
  {
    if es == [] then h else After(Next(h, es[0]), es[1..])
  }

  /** Tags of the updates applied along a history, in order. */
  function Applied(h: Host, es: seq<Event>): seq<string>
    decreases |es|
  {
    if es == [] then []
    else (if Applies(h, es[0]) then [es[0].tag] else []) + Applied(Next(h, es[0]), es[1..])
  }

  /** A host without a version is offered every release that has one, with or
      without "v", and nobody is offered a release without one. */
  lemma NoVersionIsLowest(running: string, ns: seq<nat>)
    requires ns != []
    ensures Offers("dev", PrintVersion(ns)) && Offers("dev", "v" + PrintVersion(ns))
    ensures Offers("", PrintVersion(ns)) && Offers("", "v" + PrintVersion(ns))
    ensures !Offers(running, "") && !Offers(running, "v") && !Offers(running, "dev")
  {
    NormalizeTag(ns);
    NormalizeNone();
    PrintStartsWithDigit(ns);
  }

  predicate AtMost(a: Rank, b: Rank) { a == b || Below(a, b) }

  lemma AtMostTransitive(a: Rank, b: Rank, c: Rank)
    requires AtMost(a, b) && AtMost(b, c)
    ensures AtMost(a, c)
    ensures Below(a, b) || Below(b, c) ==> Below(a, c)
  {
    if Below(a, b) && Below(b, c) { BelowTransitive(a, b, c); }
  }

  /** What any history keeps: nothing older than the running version is ever
      installed, hence no restart goes back. */
  lemma {:induction false} RunningNeverGoesBack(h: Host, es: seq<Event>)
    requires AtMost(Level(h.running), Level(h.installed))
    ensures var h' := After(h, es);
            AtMost(Level(h.running), Level(h'.running)) && AtMost(Level(h'.running), Level(h'.installed))
    decreases |es|
  {
    if es != [] {
      var h1 := Next(h, es[0]);
      RunningNeverGoesBack(h1, es[1..]);
      AtMostTransitive(Level(h.running), Level(h1.running), Level(After(h, es).running));
    }
  }

  /** The restart after an applied update strictly raises the running version. */
  lemma RestartRaises(h: Host, tag: string)
    requires Applies(h, Update(tag, true))
    ensures var h' := After(h, [Update(tag, true), Restart]);
            h' == Host(tag, tag) && Below(Level(h.running), Level(h'.running))
  {
    var mid := Next(h, Update(tag, true));
    assert [Update(tag, true), Restart][1..] == [Restart];
    assert After(mid, [Restart]) == After(Next(mid, Restart), []);
  }

  /** Each process applies at most one update: every applied update runs in a
      process started from the binary it replaces. */
  predicate Disciplined(h: Host, es: seq<Event>)
    decreases |es|
  {
    es != [] ==> (Applies(h, es[0]) ==> h.running == h.installed) && Disciplined(Next(h, es[0]), es[1..])
  }

  /** Under that discipline the installed version never goes back, every applied
      tag is above the start, and the applied tags climb strictly. */
  lemma {:induction false} InstalledClimbs(h: Host, es: seq<Event>)
    requires AtMost(Level(h.running), Level(h.installed)) && Disciplined(h, es)
    ensures AtMost(Level(h.installed), Level(After(h, es).installed))
    ensures forall t | t in Applied(h, es) :: Below(Level(h.installed), Level(t))
    ensures forall i, j | 0 <= i < j < |Applied(h, es)| :: Below(Level(Applied(h, es)[i]), Level(Applied(h, es)[j]))
    decreases |es|
  {
    if es != [] {
      var h1, rest := Next(h, es[0]), es[1..];
      InstalledClimbs(h1, rest);
      assert AtMost(Level(h.installed), Level(h1.installed));
      AtMostTransitive(Level(h.installed), Level(h1.installed), Level(After(h, es).installed));
      forall t | t in Applied(h1, rest) ensures Below(Level(h.installed), Level(t)) {
        AtMostTransitive(Level(h.installed), Level(h1.installed), Level(t));
      }
    }
  }

  ghost function Levels(tags: set<string>): set<Rank> { set t | t in tags :: Level(t) }

  lemma {:induction false} ClimbIsShort(ts: seq<string>, levels: set<Rank>)
    requires forall t | t in ts :: Level(t) in levels
    requires forall i, j | 0 <= i < j < |ts| :: Below(Level(ts[i]), Level(ts[j]))
    ensures |ts| <= |levels|
  {
    if ts != [] {
      var top := Level(ts[0]);
      assert ts[0] in ts;
      forall t | t in ts[1..] ensures Level(t) in levels - {top} {
        var i :| 1 <= i < |ts| && ts[i] == t;
        assert Below(Level(ts[0]), Level(ts[i]));
        BelowTotal(top, Level(t));
      }
      ClimbIsShort(ts[1..], levels - {top});
    }
  }

  /** With finitely many tags the number of applied updates is at most the number
      of distinct ranks among them. */
  lemma UpdatesAreBounded(h: Host, es: seq<Event>, tags: set<string>)
    requires AtMost(Level(h.running), Level(h.installed)) && Disciplined(h, es)
    requires forall e | e in es && e.Update? :: e.tag in tags
    ensures |Applied(h, es)| <= |Levels(tags)|
  {
    InstalledClimbs(h, es);
    AppliedAreOffered(h, es, tags);
    ClimbIsShort(Applied(h, es), Levels(tags));
  }

  lemma {:induction false} AppliedAreOffered(h: Host, es: seq<Event>, tags: set<string>)
    requires forall e | e in es && e.Update? :: e.tag in tags
    ensures forall t | t in Applied(h, es) :: t in tags
    decreases |es|
  {
    if es != [] {
      assert es[0] in es && forall e | e in es[1..] :: e in es;
      AppliedAreOffered(Next(h, es[0]), es[1..], tags);
    }
  }

  /** Asking again for a release of the running rank changes nothing. */
  lemma RepeatIsCurrent(h: Host, tag: string, replaced: bool)
    requires Level(h.running) == Level(tag)
    ensures !Offers(h.running, tag) && Next(h, Update(tag, replaced)) == h
  {
    BelowTotal(Level(tag), Level(tag));
  }

  /** The rank directly above another. */
  function Succ(r: Rank): Rank { Release(if r.Bottom? then [0] else r.parts + [0]) }

  lemma {:induction false} NothingBetween(a: seq<nat>, x: seq<nat>)
    requires LexLess(a, x)
    ensures !LexLess(x, a + [0])
  {
    if a != [] && a[0] == x[0] {
      assert (a + [0])[1..] == a[1..] + [0];
      NothingBetween(a[1..], x[1..]);
    }
  }

  lemma LevelParts(v: string)
    ensures Level(v).Release? ==> Level(v).parts != [] && InRange(Level(v).parts)
  {
    var n := Normalize(v);
    forall k | k in Parts(n) ensures k < INT_LIMIT {
      var i :| 0 <= i < |Parts(n)| && Parts(n)[i] == k;
      assert k == Number(Text.Split(n, '.')[i]);
    }
  }

  /** No version lies between a rank and its successor. */
  lemma SuccIsNext(low: string, v: string)
    ensures Below(Level(low), Succ(Level(low)))
    ensures Below(Level(low), Level(v)) <==> Level(v) == Succ(Level(low)) || Below(Succ(Level(low)), Level(v))
  {
    var a, x, s := Level(low), Level(v), Succ(Level(low));
    LevelParts(v);
    if a.Release? { LexExtension(a.parts, [0]); }
    if Below(a, x) {
      if a.Release? {
        NothingBetween(a.parts, x.parts);
      } else {
        assert !LexLess(x.parts, [0]);
      }
      BelowTotal(s, x);
    } else if Below(s, x) {
      BelowTransitive(a, s, x);
    }
  }

  /** Some tag has the successor's rank. */
  lemma TagOfSucc(low: string) returns (tag: string)
    ensures Level(tag) == Succ(Level(low))
  {
    LevelParts(low);
    var ns := Succ(Level(low)).parts;
    tag := PrintVersion(ns);
    RankPrint(ns);
    NormalizePrint("", ns, "");
    assert "" + tag + "" == tag;
  }

  /** Without the discipline the binary on disk can go back. Some event can lower
      the installed version exactly if it is above the running one, and not by the
      smallest possible step. */
  lemma DowngradeExactly(h: Host)
    ensures (exists e: Event :: Below(Level(Next(h, e).installed), Level(h.installed)))
       <==> Below(Level(h.running), Level(h.installed)) && Level(h.installed) != Succ(Level(h.running))
  {
    BelowTotal(Level(h.installed), Level(h.installed));
    SuccIsNext(h.running, h.installed);
    if exists e: Event :: Below(Level(Next(h, e).installed), Level(h.installed)) {
      var e: Event :| Below(Level(Next(h, e).installed), Level(h.installed));
      BelowTransitive(Level(h.running), Level(e.tag), Level(h.installed));
      SuccIsNext(h.running, e.tag);
      BelowTotal(Succ(Level(h.running)), Level(e.tag));
    }
    if Below(Level(h.running), Level(h.installed)) && Level(h.installed) != Succ(Level(h.running)) {
      var tag := TagOfSucc(h.running);
      assert Next(h, Update(tag, true)).installed == tag;
    }
  }

  lemma LevelOfDigit(s: string, n: nat)
    requires n < 10 && s == [Decimal.DigitChar(n)]
    ensures Level(s) == Release([n])
  {
    assert Decimal.Print(n) == s;
    assert Dotted([n]) == [s];
    assert PrintVersion([n]) == s;
    RankPrint([n]);
    NormalizePrint("", [n], "");
    assert "" + s + "" == s;
  }

  /** Such a history exists: 3 is applied, withdrawn, and 2 applied before the restart. */
  lemma DowngradeHappens()
    ensures var h := After(Host("1", "1"), [Update("3", true), Update("2", true)]);
            h == Host("1", "2") && Below(Level("2"), Level("3"))
  {
    LevelOfDigit("1", 1);
    LevelOfDigit("2", 2);
    LevelOfDigit("3", 3);
    assert [Update("3", true), Update("2", true)][1..] == [Update("2", true)];
    assert [Update("2", true)][1..] == [];
  }
}
