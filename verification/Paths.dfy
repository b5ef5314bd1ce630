/** path/filepath on Unix, as far as sanitizePath uses it. */
module Paths {
  import opened Options
  import opened Text

  predicate Rooted(p: string) { p != "" && p[0] == '/' }

  /** The rules of filepath.Clean on one more element: drop "" and ".", let ".."
      cancel the element before it, drop ".." at the root. */
  function Push(rooted: bool, stack: seq<string>, e: string): seq<string> {
    if e == "" || e == "." then stack
    else if e != ".." then stack + [e]
    else if stack != [] && stack[|stack| - 1] != ".." then stack[..|stack| - 1]
    else if rooted then stack
    else stack + [".."]
  }

  function Resolve(rooted: bool, stack: seq<string>, elements: seq<string>): seq<string>
    decreases |elements|
  {
    if elements == [] then stack else Resolve(rooted, Push(rooted, stack, elements[0]), elements[1..])
  }

  function Render(rooted: bool, stack: seq<string>): string {
    if rooted then "/" + Join(stack, '/')
    else if stack == [] then "."
    else Join(stack, '/')
  }

  /** The elements a path denotes. */
  function Elements(p: string): seq<string> { Resolve(Rooted(p), [], Split(p, '/')) }

  function Clean(p: string): (c: string)
    ensures c != ""
    ensures Rooted(c) <==> Rooted(p)
  {
    ElementsNormal(p);
    RenderStart(Rooted(p), Elements(p));
    Render(Rooted(p), Elements(p))
  }

  /** filepath.Join of two elements, the second one non-empty. */
  function JoinPath(base: string, name: string): string
    requires name != ""
  {
    if base == "" then Clean(name) else Clean(base + "/" + name)
  }

  /** filepath.Base */
  function Base(p: string): string {
    if p == "" then "."
    else
      var q := TrimSlashes(p);
      if q == "" then "/" else AfterSlash(q)
  }

  function TrimSlashes(p: string): string {
    if p != "" && p[|p| - 1] == '/' then TrimSlashes(p[..|p| - 1]) else p
  }

  function AfterSlash(p: string): string {
    if p == "" || p[|p| - 1] == '/' then "" else AfterSlash(p[..|p| - 1]) + [p[|p| - 1]]
  }

  /** filepath.Dir */
  function Dir(p: string): string { Clean(p[..DirLength(p)]) }

  /** Length up to and including the last separator. */
  function DirLength(p: string): (n: nat)
    ensures n + |AfterSlash(p)| == |p|
    ensures p[..n] + AfterSlash(p) == p
  {
    AfterSlashIsTail(p);
    |p| - |AfterSlash(p)|
  }

  lemma {:induction false} AfterSlashIsTail(p: string)
    ensures '/' !in AfterSlash(p)
    ensures |AfterSlash(p)| <= |p| && p[|p| - |AfterSlash(p)|..] == AfterSlash(p)
  {
    if p != "" && p[|p| - 1] != '/' {
      AfterSlashIsTail(p[..|p| - 1]);
    }
  }

  lemma BaseHasNoSlash(p: string)
    ensures Base(p) == "/" || '/' !in Base(p)
  {
    if p != "" { AfterSlashIsTail(TrimSlashes(p)); }
  }

  function SanitizePath(base: string, name: string): Option<string> {
    var cleaned := Clean(name);
    if HasPrefix(cleaned, "..") || HasPrefix(cleaned, "/") then None
    else
      var full := JoinPath(base, cleaned);
      if !HasPrefix(full, Clean(base) + "/") && full != Clean(base) then None
      else Some(full)
  }

  // ----- the elements of a cleaned path

  predicate Plain(e: string) { e != "" && e != "." && e != ".." && '/' !in e }

  /** Plain elements, after a block of ".." that a rooted path does not have. */
  ghost predicate Normal(rooted: bool, stack: seq<string>) {
    && (forall i | 0 <= i < |stack| :: Plain(stack[i]) || (!rooted && stack[i] == ".."))
    && (forall i | 0 < i < |stack| :: stack[i] == ".." ==> stack[i - 1] == "..")
  }

  lemma JoinStart(parts: seq<string>)
    requires parts != []
    ensures parts[0] <= Join(parts, '/')
  {
  }

  lemma RenderStart(rooted: bool, stack: seq<string>)
    requires Normal(rooted, stack)
    ensures Render(rooted, stack) != "" && (Rooted(Render(rooted, stack)) <==> rooted)
  {
    if !rooted && stack != [] {
      JoinStart(stack);
      assert stack[0] != "" && stack[0][0] in stack[0];
    }
  }

  lemma {:induction false} ResolveNormal(rooted: bool, stack: seq<string>, elements: seq<string>)
    requires Normal(rooted, stack) && Free(elements, '/')
    ensures Normal(rooted, Resolve(rooted, stack, elements))
    decreases |elements|
  {
    if elements != [] {
      assert elements[0] in elements && forall e | e in elements[1..] :: e in elements;
      ResolveNormal(rooted, Push(rooted, stack, elements[0]), elements[1..]);
    }
  }

  lemma ElementsNormal(p: string)
    ensures Normal(Rooted(p), Elements(p))
  {
    SplitIsFree(p, '/');
    ResolveNormal(Rooted(p), [], Split(p, '/'));
  }

  lemma {:induction false} ResolveConcat(rooted: bool, stack: seq<string>, a: seq<string>, b: seq<string>)
    ensures Resolve(rooted, stack, a + b) == Resolve(rooted, Resolve(rooted, stack, a), b)
    decreases |a|
  {
    if a == [] {
      assert a + b == b;
    } else {
      assert (a + b)[1..] == a[1..] + b;
      ResolveConcat(rooted, Push(rooted, stack, a[0]), a[1..], b);
    }
  }

  /** A normal stack resolves to itself. */
  lemma {:induction false} ResolveFixed(rooted: bool, pre: seq<string>, post: seq<string>)
    requires Normal(rooted, pre + post)
    ensures Resolve(rooted, pre, post) == pre + post
    decreases |post|
  {
    if post == [] {
      assert pre + post == pre;
    } else {
      var k := |pre|;
      assert (pre + post)[k] == post[0];
      assert k > 0 ==> (pre + post)[k - 1] == pre[k - 1];
      assert Push(rooted, pre, post[0]) == pre + [post[0]];
      assert (pre + [post[0]]) + post[1..] == pre + post;
      ResolveFixed(rooted, pre + [post[0]], post[1..]);
    }
  }

  /** Cleaning keeps the elements, so cleaning twice is cleaning once. */
  lemma CleanIdempotent(p: string)
    ensures Elements(Clean(p)) == Elements(p) && Clean(Clean(p)) == Clean(p)
  {
    ElementsNormal(p);
    ElementsRender(Rooted(p), Elements(p));
  }

  lemma ElementsRender(rooted: bool, st: seq<string>)
    requires Normal(rooted, st)
    ensures Elements(Render(rooted, st)) == st
  {
    RenderStart(rooted, st);
    assert Free(st, '/') by {
      forall e | e in st ensures '/' !in e { assert e == ".." || Plain(e); }
    }
    if st != [] { SplitJoin(st, '/'); }
    ResolveFixed(rooted, [], st);
    assert [] + st == st;
    if rooted {
      RootedSplit(Join(st, '/'));
      ResolveConcat(true, [], [""], Split(Join(st, '/'), '/'));
      assert Resolve(true, [], [""]) == Resolve(true, Push(true, [], ""), []);
      if st == [] {
        assert Resolve(true, [], [""]) == [];
      }
    } else if st == [] {
      SplitWhole(".", '/');
      assert Resolve(false, [], ["."]) == Resolve(false, Push(false, [], "."), []);
    }
  }

  // ----- what the elements do to each other

  /** A normal list of elements, written down, is clean. */
  lemma NormalIsClean(rooted: bool, st: seq<string>)
    requires Normal(rooted, st)
    ensures Clean(Render(rooted, st)) == Render(rooted, st)
  {
    RenderStart(rooted, st);
    ElementsRender(rooted, st);
  }

  lemma ElementsBetween(p: string, e: string, q: string)
    requires p != "" && '/' !in e
    ensures Elements(p + "/" + e + "/" + q)
         == Resolve(Rooted(p), Push(Rooted(p), Elements(p), e), Split(q, '/'))
  {
    var s := p + "/" + e + "/" + q;
    assert s == (p + ['/'] + e) + ['/'] + q;
    SplitConcat(p + ['/'] + e, '/', q);
    SplitConcat(p, '/', e);
    SplitWhole(e, '/');
    var r := Rooted(p);
    ResolveConcat(r, [], Split(p, '/') + [e], Split(q, '/'));
    ResolveConcat(r, [], Split(p, '/'), [e]);
    assert [e][1..] == [];
    assert Resolve(r, Elements(p), [e]) == Resolve(r, Push(r, Elements(p), e), []);
  }

  lemma ElementsAfter(p: string, q: string)
    requires p != ""
    ensures Elements(p + "/" + q) == Resolve(Rooted(p), Elements(p), Split(q, '/'))
  {
    assert p + "/" + q == p + ['/'] + q;
    SplitConcat(p, '/', q);
    ResolveConcat(Rooted(p), [], Split(p, '/'), Split(q, '/'));
  }

  /** "" and "." between two elements are dropped. */
  lemma DotVanishes(p: string, e: string, q: string)
    requires p != "" && (e == "" || e == ".")
    ensures Clean(p + "/" + e + "/" + q) == Clean(p + "/" + q)
  {
    ElementsBetween(p, e, q);
    ElementsAfter(p, q);
  }

  /** ".." cancels the element before it, wherever the two stand. */
  lemma DotDotCancels(p: string, e: string, q: string)
    requires p != "" && Plain(e)
    ensures Clean(p + "/" + e + "/../" + q) == Clean(p + "/" + q)
  {
    var pe := p + "/" + e;
    ElementsBetween(pe, "..", q);
    assert pe + "/" + ".." + "/" + q == pe + "/../" + q;
    ElementsAfter(p, e);
    SplitWhole(e, '/');
    var r, st := Rooted(p), Elements(p);
    assert [e][1..] == [];
    assert Resolve(r, st, [e]) == Resolve(r, Push(r, st, e), []);
    assert (st + [e])[..|st + [e]| - 1] == st;
    ElementsAfter(p, q);
  }

  /** Above the root there is nothing. */
  lemma RootStops(q: string)
    ensures Clean("/../" + q) == Clean("/" + q)
  {
    RootedSplit("../" + q);
    assert "/../" + q == "/" + ("../" + q) && "../" + q == ".." + ['/'] + q;
    SplitConcat("..", '/', q);
    SplitWhole("..", '/');
    RootedSplit(q);
    var parts := Split(q, '/');
    assert Split("/../" + q, '/') == ["", ".."] + parts;
    ResolveConcat(true, [], ["", ".."], parts);
    ResolveConcat(true, [], [""], parts);
    assert ["", ".."][1..] == [".."] && [".."][1..] == [] && [""][1..] == [];
    assert Resolve(true, [], ["", ".."]) == Resolve(true, [], [".."]) == Resolve(true, [], []) == [];
    assert Resolve(true, [], [""]) == Resolve(true, [], []);
  }

  lemma RootedSplit(rest: string)
    ensures Split("/" + rest, '/') == [""] + Split(rest, '/')
  {
    assert "" + ['/'] + rest == "/" + rest;
    SplitConcat("", '/', rest);
  }

  /** Base is the last element, whatever precedes it and however many separators
      follow. */
  lemma {:induction false} BaseExactly(dir: string, name: string, slashes: string)
    requires name != "" && '/' !in name && (forall c | c in slashes :: c == '/')
    requires dir == "" || dir[|dir| - 1] == '/'
    ensures Base(dir + name + slashes) == name
  {
    var p := dir + name;
    assert p[|p| - 1] == name[|name| - 1] && name[|name| - 1] in name;
    TrimTrailing(p, slashes);
    LastElement(dir, name);
  }

  lemma {:induction false} TrimTrailing(p: string, slashes: string)
    requires p != "" && p[|p| - 1] != '/' && (forall c | c in slashes :: c == '/')
    ensures TrimSlashes(p + slashes) == p
  {
    if slashes == "" {
      assert p + slashes == p;
    } else {
      var k := |slashes| - 1;
      assert (p + slashes)[..|p + slashes| - 1] == p + slashes[..k];
      assert slashes[k] in slashes && forall c | c in slashes[..k] :: c in slashes;
      TrimTrailing(p, slashes[..k]);
    }
  }

  lemma {:induction false} LastElement(dir: string, name: string)
    requires '/' !in name && (dir == "" || dir[|dir| - 1] == '/')
    ensures AfterSlash(dir + name) == name
  {
    if name == "" {
      assert dir + name == dir;
    } else {
      var k := |name| - 1;
      assert (dir + name)[..|dir + name| - 1] == dir + name[..k];
      assert name[k] in name && forall c | c in name[..k] :: c in name;
      LastElement(dir, name[..k]);
      assert name[..k] + [name[k]] == name;
    }
  }

  ghost predicate AllPlain(elements: seq<string>) { forall e | e in elements :: Plain(e) }

  lemma {:induction false} ResolvePlain(rooted: bool, stack: seq<string>, elements: seq<string>)
    requires AllPlain(elements)
    ensures Resolve(rooted, stack, elements) == stack + elements
    decreases |elements|
  {
    if elements == [] {
      assert stack + elements == stack;
    } else {
      assert elements[0] in elements && forall e | e in elements[1..] :: e in elements;
      ResolvePlain(rooted, stack + [elements[0]], elements[1..]);
      assert stack + [elements[0]] + elements[1..] == stack + elements;
    }
  }

  /** A cleaned relative path without leading ".." is "." or plain elements. */
  lemma RelativeIsPlain(name: string)
    requires !Rooted(name) && !HasPrefix(Clean(name), "..")
    ensures AllPlain(Elements(name))
  {
    ElementsNormal(name);
    var st := Elements(name);
    if st != [] {
      JoinStart(st);
      assert st[0] != "..";
      NoDotDot(st);
    }
  }

  lemma {:induction false} NoDotDot(st: seq<string>)
    requires Normal(false, st) && (st != [] ==> st[0] != "..")
    ensures AllPlain(st)
  {
    if st != [] {
      var k := |st| - 1;
      NoDotDot(st[..k]);
      assert k > 0 ==> st[k - 1] == st[..k][k - 1] && st[..k][k - 1] in st[..k];
      assert forall e | e in st :: e in st[..k] || e == st[k];
    }
  }

  lemma SplitClean(name: string)
    requires !Rooted(name) && AllPlain(Elements(name))
    ensures Split(Clean(name), '/') == (if Elements(name) == [] then ["."] else Elements(name))
  {
    var st := Elements(name);
    if st == [] {
      SplitWhole(".", '/');
    } else {
      assert Free(st, '/') by { forall e | e in st ensures '/' !in e { assert Plain(e); } }
      SplitJoin(st, '/');
    }
  }

  /** Joining appends the name's elements to the base's. */
  lemma JoinElements(base: string, name: string)
    requires !Rooted(name) && AllPlain(Elements(name))
    ensures JoinPath(base, Clean(name)) == Render(Rooted(base), Elements(base) + Elements(name))
  {
    SplitClean(name);
    var c, st := Clean(name), Elements(name);
    var parts := Split(c, '/');
    if base == "" {
      assert Split(base, '/') == [""];
      assert Elements(base) == Resolve(false, [], []) == [];
      ResolvedIn(false, [], st, parts);
      assert [] + st == st;
    } else {
      var joined := base + "/" + c;
      SplitConcat(base, '/', c);
      assert base + ['/'] + c == joined;
      ResolveConcat(Rooted(base), [], Split(base, '/'), parts);
      ResolvedIn(Rooted(base), Elements(base), st, parts);
    }
  }

  lemma ResolvedIn(rooted: bool, stack: seq<string>, st: seq<string>, parts: seq<string>)
    requires AllPlain(st) && parts == (if st == [] then ["."] else st)
    ensures Resolve(rooted, stack, parts) == stack + st
  {
    if st == [] {
      assert Resolve(rooted, stack, ["."]) == Resolve(rooted, stack, []);
      assert stack + st == stack;
    } else {
      ResolvePlain(rooted, stack, st);
    }
  }

  /** Below a base that is neither "/" nor ".", one separator leads on. */
  lemma RenderBelow(rooted: bool, stack: seq<string>, st: seq<string>)
    requires stack != [] && st != []
    ensures Render(rooted, stack + st) == Render(rooted, stack) + "/" + Join(st, '/')
  {
    JoinConcat(stack, '/', st);
    assert Join(stack, '/') + ['/'] + Join(st, '/') == Join(stack, '/') + "/" + Join(st, '/');
    assert "/" + (Join(stack, '/') + "/" + Join(st, '/')) == "/" + Join(stack, '/') + "/" + Join(st, '/');
  }

  lemma PlainStart(st: seq<string>)
    requires st != [] && AllPlain(st)
    ensures Join(st, '/') != "" && Join(st, '/')[0] != '/'
    ensures !HasPrefix(Join(st, '/'), "./")
  {
    JoinStart(st);
    var e, j := st[0], Join(st, '/');
    assert e in st && Plain(e);
    assert j[..|e|] == e && j[0] == e[0];
    assert e[0] in e;
    assert |e| == 1 ==> e == [e[0]];
    assert |e| > 1 ==> j[1] == e[1] && e[1] in e;
    assert "." == ['.'];
  }

  // ----- sanitizePath

  /** The names that pass the first check: relative, and not starting with "..". */
  predicate PassesFirst(name: string) { !Rooted(name) && !HasPrefix(Clean(name), "..") }

  lemma JoinedValue(base: string, name: string)
    requires PassesFirst(name)
    ensures var full := JoinPath(base, Clean(name));
            && AllPlain(Elements(name))
            && (Elements(name) == [] ==> full == Clean(base) && Clean(name) == ".")
            && (Elements(name) != [] ==> Clean(name) == Join(Elements(name), '/') && Clean(name) != ".")
            && (Elements(name) != [] && Elements(base) != [] ==> full == Clean(base) + "/" + Clean(name))
            && (Elements(name) != [] && Elements(base) == [] ==> full == (if Rooted(base) then "/" else "") + Clean(name))
  {
    RelativeIsPlain(name);
    JoinElements(base, name);
    var b, st := Elements(base), Elements(name);
    if st == [] {
      assert b + st == b;
    } else {
      PlainStart(st);
      assert st[0] in st && Plain(st[0]);
      NotDot(st);
      if b == [] {
        assert b + st == st;
        assert "" + Join(st, '/') == Join(st, '/');
      } else {
        RenderBelow(Rooted(base), b, st);
      }
    }
  }

  lemma NotDot(st: seq<string>)
    requires st != [] && AllPlain(st)
    ensures Join(st, '/') != "."
  {
    JoinStart(st);
    assert st[0] in st && Plain(st[0]);
    if |st| > 1 { assert |Join(st, '/')| > 1; }
  }

  lemma RootOrDot(base: string)
    ensures Elements(base) == [] <==> Clean(base) == "/" || Clean(base) == "."
  {
    ElementsNormal(base);
    var st := Elements(base);
    if st != [] {
      JoinStart(st);
      assert Join(st, '/') != "";
      if !Rooted(base) {
        assert st[0] != ".";
        if |st| > 1 { assert |Join(st, '/')| > 1; }
      }
    }
  }

  /** Every base and name: sanitizePath accepts exactly the names that pass the
      first check, except that below "/" and "." it accepts only names that clean
      to ".". What it returns is the cleaned base itself, or the cleaned base, a
      separator and plain elements, none of them "..". */
  lemma SanitizeExactly(base: string, name: string)
    ensures SanitizePath(base, name).Some?
       <==> PassesFirst(name) && ((Clean(base) != "/" && Clean(base) != ".") || Clean(name) == ".")
    ensures SanitizePath(base, name).Some? ==>
      && AllPlain(Elements(name))
      && SanitizePath(base, name).value
           == (if Clean(name) == "." then Clean(base) else Clean(base) + "/" + Join(Elements(name), '/'))
  {
    assert HasPrefix(Clean(name), "/") <==> Rooted(Clean(name)) by {
      if Rooted(Clean(name)) { assert Clean(name)[..1] == "/"; }
    }
    if PassesFirst(name) {
      var full, c := JoinPath(base, Clean(name)), Clean(base);
      JoinedValue(base, name);
      RootOrDot(base);
      if Elements(name) != [] {
        PlainStart(Elements(name));
        if Elements(base) != [] {
          assert full[..|c + "/"|] == c + "/";
        } else {
          Refused(Rooted(base), Clean(name));
        }
      }
    }
  }

  /** Below "/" and "." the prefix test fails. */
  lemma Refused(rooted: bool, c: string)
    requires c != "" && c[0] != '/' && !HasPrefix(c, "./") && c != "."
    ensures var full := (if rooted then "/" else "") + c;
            var b := if rooted then "/" else ".";
            !HasPrefix(full, b + "/") && full != b
  {
    if rooted {
      assert ("/" + c)[1] == c[0];
      assert "/" + "/" == ['/', '/'];
    } else {
      assert "" + c == c && "." + "/" == "./";
    }
  }

  /** A name used as it is by extractBinary: one plain element under a temporary
      directory. */
  lemma SanitizeOne(base: string, name: string)
    requires Plain(name) && !HasPrefix(name, "..") && Clean(base) != "/" && Clean(base) != "."
    ensures SanitizePath(base, name) == Some(Clean(base) + "/" + name)
  {
    SplitWhole(name, '/');
    assert name[0] in name && AllPlain([name]);
    ResolvePlain(false, [], [name]);
    assert [] + [name] == [name];
    assert Elements(name) == [name];
    assert Clean(name) == name;
    SanitizeExactly(base, name);
  }

  lemma CleanOne(name: string)
    requires Plain(name)
    ensures Clean(name) == name && !Rooted(name)
  {
    SplitWhole(name, '/');
    assert name[0] in name && AllPlain([name]);
    ResolvePlain(false, [], [name]);
    assert [] + [name] == [name];
  }

  /** Two harmless names that are refused: "..data" everywhere, and any name below
      "/". */
  lemma HarmlessIsRefused(base: string)
    ensures Plain("..data") && SanitizePath(base, "..data") == None
    ensures Plain("data") && SanitizePath("/", "data") == None
  {
    CleanOne("..data");
    CleanOne("data");
    assert "..data"[..2] == "..";
    SanitizeExactly(base, "..data");
    SanitizeExactly("/", "data");
    NoElements();
    RootOrDot("/");
    assert "data" != ".";
  }

  // ----- a file joined to a directory

  /** Whatever the directory, joining "." elements and a plain name gives a path
      whose last element is the name. */
  lemma JoinedBase(dir: string, dots: seq<string>, name: string)
    requires dir != "" && Plain(name) && (forall d | d in dots :: d == ".")
    ensures Base(JoinPath(dir, Join(dots + [name], '/'))) == name
    ensures JoinPath(dir, Join(dots + [name], '/')) == Render(Rooted(dir), Elements(dir) + [name])
  {
    var parts := dots + [name];
    var tail := Join(parts, '/');
    assert Free(parts, '/') by { forall e | e in parts ensures '/' !in e { assert e in dots || e == name; } }
    SplitJoin(parts, '/');
    SplitConcat(dir, '/', tail);
    assert dir + ['/'] + tail == dir + "/" + tail;
    ResolveConcat(Rooted(dir), [], Split(dir, '/'), parts);
    ResolveDots(Rooted(dir), Elements(dir), dots, name);
    RenderBase(Rooted(dir), Elements(dir), name);
  }

  lemma {:induction false} ResolveDots(rooted: bool, stack: seq<string>, dots: seq<string>, name: string)
    requires Plain(name) && (forall d | d in dots :: d == ".")
    ensures Resolve(rooted, stack, dots + [name]) == stack + [name]
  {
    if dots == [] {
      assert dots + [name] == [name];
      assert Resolve(rooted, stack, [name]) == Resolve(rooted, stack + [name], []);
    } else {
      assert dots[0] in dots && (dots + [name])[1..] == dots[1..] + [name];
      assert forall d | d in dots[1..] :: d in dots;
      ResolveDots(rooted, stack, dots[1..], name);
    }
  }

  lemma EndsInName(dir: string, name: string)
    requires Plain(name) && (dir == "" || dir[|dir| - 1] == '/')
    ensures Base(dir + name) == name
  {
    BaseExactly(dir, name, "");
    assert dir + name + "" == dir + name;
  }

  lemma RenderBase(rooted: bool, stack: seq<string>, name: string)
    requires Plain(name)
    ensures Base(Render(rooted, stack + [name])) == name
  {
    if stack == [] {
      assert [] + [name] == [name] && "" + name == name;
      EndsInName(if rooted then "/" else "", name);
    } else {
      RenderBelow(rooted, stack, [name]);
      EndsInName(Render(rooted, stack) + "/", name);
    }
  }

  /** Of a clean path other than "/", Base is what follows the last separator. */
  lemma CleanBase(target: string)
    requires Clean(target) == target && target != "/"
    ensures Base(target) == AfterSlash(target) != "/"
  {
    AfterSlashIsTail(target);
    var rooted, st := Rooted(target), Elements(target);
    ElementsNormal(target);
    if st == [] {
      assert target == ".";
    } else {
      var last := st[|st| - 1];
      assert st == st[..|st| - 1] + [last];
      var head := HeadOfPath(rooted, st[..|st| - 1], last);
      assert last[|last| - 1] in last && (head + last)[|head + last| - 1] == last[|last| - 1];
    }
  }

  lemma ElementsOfDir(rooted: bool, pre: seq<string>)
    requires Normal(rooted, pre) && pre != []
    ensures Elements(Render(rooted, pre) + "/") == pre
  {
    var c := Render(rooted, pre);
    RenderStart(rooted, pre);
    ElementsRender(rooted, pre);
    SplitConcat(c, '/', "");
    assert c + ['/'] + "" == c + "/";
    ResolveConcat(rooted, [], Split(c, '/'), [""]);
    assert Resolve(rooted, pre, [""]) == Resolve(rooted, pre, []);
  }

  lemma NoElements()
    ensures Elements("/") == [] && Elements("") == []
  {
    assert Split("", '/') == [""] && Split("/", '/') == [""] + Split("", '/');
    assert forall r: bool :: Resolve(r, [], [""]) == Resolve(r, Push(r, [], ""), []);
    assert ["", ""][1..] == [""];
    assert Resolve(true, [], ["", ""]) == Resolve(true, Push(true, [], ""), [""]);
  }

  /** A path up to its last separator denotes the elements before the last one. */
  lemma HeadOfPath(rooted: bool, pre: seq<string>, last: string) returns (head: string)
    requires Normal(rooted, pre + [last]) && '/' !in last
    ensures Render(rooted, pre + [last]) == head + last && AfterSlash(head + last) == last
    ensures Rooted(head) == rooted && Elements(head) == pre
  {
    assert Normal(rooted, pre) by {
      assert forall i | 0 <= i < |pre| :: (pre + [last])[i] == pre[i];
    }
    if pre == [] {
      head := if rooted then "/" else "";
      NoElements();
      assert [] + [last] == [last];
    } else {
      head := Render(rooted, pre) + "/";
      RenderBelow(rooted, pre, [last]);
      ElementsOfDir(rooted, pre);
      RenderStart(rooted, pre);
    }
    LastElement(head, last);
  }

  lemma SameHead(rooted: bool, pre: seq<string>, a: string, b: string, head: string)
    requires Render(rooted, pre + [a]) == head + a
    ensures Render(rooted, pre + [b]) == head + b
  {
    if pre == [] {
      assert [] + [a] == [a] && [] + [b] == [b];
      Tail(if rooted then "/" else "", head, a);
    } else {
      RenderBelow(rooted, pre, [a]);
      RenderBelow(rooted, pre, [b]);
      Tail(Render(rooted, pre) + "/", head, a);
    }
  }

  lemma Tail(h1: string, h2: string, a: string)
    requires h1 + a == h2 + a
    ensures h1 == h2
  {
    assert (h1 + a)[..|h1|] == h1 && (h2 + a)[..|h2|] == h2;
  }

  lemma SiblingOfDot(name: string)
    ensures Render(false, Elements(Dir(".")) + [name]) == "."[..DirLength(".")] + name
  {
    NoElements();
    CleanIdempotent("");
    assert AfterSlash(".") == AfterSlash("") + ['.'];
    assert [] + [name] == [name];
  }

  lemma HeadIsDir(head: string, last: string)
    requires AfterSlash(head + last) == last
    ensures (head + last)[..DirLength(head + last)] == head && Elements(Dir(head + last)) == Elements(head)
  {
    Tail((head + last)[..DirLength(head + last)], head, last);
    CleanIdempotent(head);
  }

  /** Next to a clean path: the same text up to the last separator. */
  lemma SiblingPath(target: string, name: string)
    requires Clean(target) == target && target != "/"
    ensures Render(Rooted(target), Elements(Dir(target)) + [name]) == target[..DirLength(target)] + name
  {
    var rooted, st := Rooted(target), Elements(target);
    ElementsNormal(target);
    if st == [] {
      SiblingOfDot(name);
    } else {
      var pre, last := st[..|st| - 1], st[|st| - 1];
      assert st == pre + [last];
      var head := HeadOfPath(rooted, pre, last);
      HeadIsDir(head, last);
      SameHead(rooted, pre, last, name, head);
    }
  }

  /** A name joined to the directory of a clean path. */
  lemma NextTo(head: string, name: string, other: string)
    requires Plain(name) && Plain(other) && (head == "" || head[|head| - 1] == '/') && Clean(head + name) == head + name
    ensures JoinPath(Dir(head + name), other) == head + other
  {
    var target := head + name;
    assert target != "/" by { assert name[|name| - 1] in name; }
    LastElement(head, name);
    HeadIsDir(head, name);
    JoinedBase(Dir(target), [], other);
    assert [] + [other] == [other];
    SiblingPath(target, other);
  }
}
