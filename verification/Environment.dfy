/** The environment of a command: the service's own, plus the request's admissible
    variables. A `char` is one Unicode character here. */
module Environment {
  import opened Options
  import opened Text

  /** unicode.ToUpper, exact where the result is ASCII: besides a to z that is
      U+0131 and U+017F. */
  function UpperChar(c: char): char {
    if 'a' <= c <= 'z' then (c as int - 32) as char
    else if c == '\U{131}' then 'I'
    else if c == '\U{17F}' then 'S'
    else c
  }

  function Upper(s: string): string {
    if s == "" then "" else [UpperChar(s[0])] + Upper(s[1..])
  }

  const BLOCKED_VARS: set<string> := {
    "PATH", "LD_PRELOAD", "LD_LIBRARY_PATH", "LD_AUDIT", "LD_DEBUG", "LD_PROFILE", "BASH_ENV", "ENV",
    "SHELLOPTS", "BASHOPTS", "IFS", "CDPATH", "GLOBIGNORE" }

  const BLOCKED_PREFIXES: seq<string> := ["LD_", "BASH_FUNC_"]

  predicate Blocked(key: string) {
    var upper := Upper(key);
    upper in BLOCKED_VARS || HasPrefix(upper, "LD_") || HasPrefix(upper, "BASH_FUNC_")
  }

  method IsBlockedEnvVar(key: string) returns (blocked: bool)
    ensures blocked <==> Blocked(key)
  {
    var upper := Upper(key);
    if upper in BLOCKED_VARS { return true; }
    for i := 0 to |BLOCKED_PREFIXES|
      invariant forall j | 0 <= j < i :: !HasPrefix(upper, BLOCKED_PREFIXES[j])
    {
      if HasPrefix(upper, BLOCKED_PREFIXES[i]) { return true; }
    }
    assert !HasPrefix(upper, BLOCKED_PREFIXES[0]) && !HasPrefix(upper, BLOCKED_PREFIXES[1]);
    return false;
  }

  /** Keys a client may set: no '=', no NUL, not blocked. */
  predicate Admissible(key: string) { '=' !in key && '\0' !in key && !Blocked(key) }

  // ----- how os/exec reads an environment list

  function Find(s: string, c: char): (i: nat)
    ensures i <= |s|
    ensures forall j | 0 <= j < i :: s[j] != c
    ensures i < |s| ==> s[i] == c
  {
    if s == "" || s[0] == c then 0 else 1 + Find(s[1..], c)
  }

  /** The key of an entry: up to the first '=', or up to the second one if the
      entry starts with '='. */
  function KeyOf(entry: string): Option<string> {
    var i := Find(entry, '=');
    if i == |entry| then None
    else if i > 0 then Some(entry[..i])
    else
      var j := Find(entry[1..], '=');
      if j == |entry[1..]| then Some("") else Some(entry[..j + 1])
  }

  function ValueOf(entry: string): string
    requires KeyOf(entry).Some? && |KeyOf(entry).value| < |entry|
  {
    entry[|KeyOf(entry).value| + 1..]
  }

  predicate Holds(entry: string, key: string) {
    KeyOf(entry) == Some(key) && |key| < |entry|
  }

  /** The last entry for a key wins. */
  function Lookup(env: seq<string>, key: string): Option<string> {
    if env == [] then None
    else
      var last := env[|env| - 1];
      if Holds(last, key) then Some(ValueOf(last)) else Lookup(env[..|env| - 1], key)
  }

  lemma FindAt(a: string, c: char, b: string)
    requires c !in a
    ensures Find(a + [c] + b, c) == |a|
  {
    if a == "" {
      assert ("" + [c] + b)[0] == c;
    } else {
      assert (a + [c] + b)[1..] == a[1..] + [c] + b;
      FindAt(a[1..], c, b);
    }
  }

  /** An appended entry with a non-empty key is found under that key and no other
      name. */
  lemma LookupAppended(env: seq<string>, k: string, v: string, name: string)
    requires '=' !in k && k != ""
    ensures Lookup(env + [k + "=" + v], name) == if name == k then Some(v) else Lookup(env, name)
  {
    var e := k + "=" + v;
    assert e == k + ['='] + v;
    FindAt(k, '=', v);
    assert (env + [e])[..|env|] == env;
    assert e[..|k|] == k;
    assert KeyOf(e) == Some(k);
    assert e[|k| + 1..] == v;
  }

  /** The name under which an entry with an empty key is found: everything up to the
      '=' in its value, with one '=' in front, or the empty name. */
  predicate Names(name: string, v: string) {
    if name == "" then '=' !in v else name[0] == '=' && '=' !in name[1..] && HasPrefix(v, name[1..] + "=")
  }

  lemma PrefixHas(s: string, p: string, c: char)
    requires HasPrefix(s, p + [c])
    ensures c in s && |p| < |s| && s == p + [c] + s[|p| + 1..]
  {
    assert s[|p|] == (p + [c])[|p|] == c;
  }

  lemma FindIn(s: string, c: char)
    requires c in s
    ensures Find(s, c) < |s|
  {
  }

  lemma KeyOfSecond(e: string)
    requires e != "" && e[0] == '=' && '=' in e[1..]
    ensures KeyOf(e) == Some(e[..Find(e[1..], '=') + 1])
  {
    FindIn(e[1..], '=');
  }

  /** An entry with an empty key and a second '='. */
  lemma SecondSign(v: string)
    requires '=' in v
    ensures Find(v, '=') < |v| && KeyOf("=" + v) == Some("=" + v[..Find(v, '=')])
  {
    var e := "=" + v;
    FindIn(v, '=');
    assert e[0] == '=' && e[1..] == v;
    KeyOfSecond(e);
    assert e[..Find(v, '=') + 1] == "=" + v[..Find(v, '=')];
  }

  lemma SpellsName(v: string)
    requires '=' in v && Find(v, '=') < |v|
    ensures Names("=" + v[..Find(v, '=')], v)
  {
    var n := v[..Find(v, '=')];
    assert ("=" + n)[1..] == n && n + "=" == v[..|n| + 1];
  }

  lemma SpelledOnce(v: string, name: string)
    requires name != "" && Names(name, v)
    ensures Find(v, '=') == |name| - 1 && name == "=" + v[..Find(v, '=')]
  {
    var n := name[1..];
    PrefixHas(v, n, '=');
    FindAt(n, '=', v[|n| + 1..]);
    assert v[..|n|] == n && name == "=" + n;
  }

  lemma NoSecondSign(v: string, name: string)
    requires '=' !in v
    ensures KeyOf("=" + v) == Some(name) && |name| < |"=" + v| <==> Names(name, v)
  {
    assert ("=" + v)[1..] == v && Find("=" + v, '=') == 0;
    if name != "" && HasPrefix(v, name[1..] + "=") { PrefixHas(v, name[1..], '='); }
  }

  lemma HoldsUnnamed(v: string, name: string)
    ensures Holds("=" + v, name) <==> Names(name, v)
    ensures Names(name, v) ==> |name| <= |v| && ValueOf("=" + v) == v[|name|..]
  {
    if '=' in v {
      SecondSign(v);
      SpellsName(v);
      if name != "" && Names(name, v) { SpelledOnce(v, name); }
    } else {
      NoSecondSign(v, name);
    }
    if Names(name, v) { assert ("=" + v)[|name| + 1..] == v[|name|..]; }
  }

  /** An appended entry with an empty key. */
  lemma LookupUnnamed(env: seq<string>, v: string, name: string)
    ensures Lookup(env + ["" + "=" + v], name) == if Names(name, v) then Some(v[|name|..]) else Lookup(env, name)
  {
    assert "" + "=" + v == "=" + v && (env + ["=" + v])[..|env|] == env;
    HoldsUnnamed(v, name);
  }

  /** What a request says of a name: its own value for an admissible name, and for a
      name that is empty or starts with '=' what the value of its empty key says. */
  function Requested(request: map<string, string>, name: string): Option<string> {
    if name != "" && name in request && Admissible(name) then Some(request[name])
    else if "" in request && Names(name, request[""]) then Some(request[""][|name|..])
    else None
  }

  /** What the merged environment is to say, of every name whatever. */
  ghost predicate Merges(env: seq<string>, parent: seq<string>, request: map<string, string>) {
    forall name :: Lookup(env, name) == if Requested(request, name).Some? then Requested(request, name) else Lookup(parent, name)
  }

  lemma NamesIsNotAdmissible(name: string, v: string)
    requires Names(name, v) && name != ""
    ensures !Admissible(name)
  {
    assert name[0] in name;
  }

  lemma EmptyIsAdmissible()
    ensures Admissible("")
  {
    assert Upper("") == "";
    assert forall k | k in BLOCKED_VARS :: |k| > 0;
  }

  lemma MergeOne(env: seq<string>, parent: seq<string>, done: map<string, string>, k: string, v: string)
    requires Merges(env, parent, done) && k !in done && Admissible(k)
    ensures Merges(env + [k + "=" + v], parent, done[k := v])
  {
    forall name
      ensures Lookup(env + [k + "=" + v], name)
           == if Requested(done[k := v], name).Some? then Requested(done[k := v], name) else Lookup(parent, name)
    {
      if k == "" {
        LookupUnnamed(env, v, name);
        if Names(name, v) && name != "" { NamesIsNotAdmissible(name, v); }
      } else {
        LookupAppended(env, k, v, name);
        if name == k && "" in done && Names(name, done[""]) { NamesIsNotAdmissible(name, done[""]); }
      }
    }
  }

  lemma MergeNone(env: seq<string>, parent: seq<string>, done: map<string, string>, k: string, v: string)
    requires Merges(env, parent, done) && !Admissible(k)
    ensures Merges(env, parent, done[k := v])
  {
    EmptyIsAdmissible();
    forall name ensures Requested(done[k := v], name) == Requested(done, name) {
    }
  }

  ghost function Listed(order: seq<string>): set<string> { set k | k in order }

  ghost predicate Distinct(order: seq<string>) { forall i, j | 0 <= i < j < |order| :: order[i] != order[j] }

  /** `order` is the order in which the request's map is gone through, any order
      without repetition. */
  method MergeEnv(parent: seq<string>, request: map<string, string>, order: seq<string>) returns (env: seq<string>)
    requires Listed(order) == request.Keys && Distinct(order)
    ensures Merges(env, parent, request)
  {
    env := parent;
    ghost var done: map<string, string> := map[];
    for i := 0 to |order|
      invariant done.Keys == Listed(order[..i])
      invariant forall k | k in done :: k in request && done[k] == request[k]
      invariant Merges(env, parent, done)
    {
      var k := order[i];
      assert k in request.Keys by { assert k in Listed(order); }
      var v := request[k];
      assert order[..i + 1] == order[..i] + [k] && k !in order[..i];
      ghost var before := done;
      done := done[k := v];
      if '=' in k || '\0' in k {
        MergeNone(env, parent, before, k, v);
        continue;
      }
      var blocked := IsBlockedEnvVar(k);
      if blocked {
        MergeNone(env, parent, before, k, v);
        continue;
      }
      MergeOne(env, parent, before, k, v);
      env := env + [k + "=" + v];
    }
    assert order[..|order|] == order;
    assert done == request;
  }

  lemma OneMore(order: seq<string>, k: string)
    requires Distinct(order) && k !in order
    ensures Distinct(order + [k]) && Listed(order + [k]) == Listed(order) + {k}
  {
  }

  /** Go's range over a map: its keys in any order. */
  method Range(request: map<string, string>) returns (order: seq<string>)
    ensures Listed(order) == request.Keys && Distinct(order)
  {
    var left := request.Keys;
    order := [];
    while left != {}
      invariant Listed(order) + left == request.Keys && Listed(order) !! left && Distinct(order)
      decreases |left|
    {
      var k :| k in left;
      assert k !in order by { assert k !in Listed(order); }
      OneMore(order, k);
      left, order := left - {k}, order + [k];
    }
  }

  /** The simple rule for a merged environment: a non-empty name has the request's
      value if the request has it and it is admissible, else the parent's. */
  ghost predicate ObeysSimpleRule(env: seq<string>, parent: seq<string>, request: map<string, string>, name: string) {
    Lookup(env, name) == if name in request && Admissible(name) then Some(request[name]) else Lookup(parent, name)
  }

  /** It fails exactly for a name that the value of the request's empty key spells,
      unless the parent happens to have the same value there. */
  lemma SimpleRuleExactly(env: seq<string>, parent: seq<string>, request: map<string, string>, name: string)
    requires Merges(env, parent, request) && name != ""
    ensures ObeysSimpleRule(env, parent, request, name) <==>
      !("" in request && Names(name, request[""]) && Lookup(parent, name) != Some(request[""][|name|..]))
  {
    if "" in request && Names(name, request[""]) { NamesIsNotAdmissible(name, request[""]); }
    assert Lookup(env, name) == if Requested(request, name).Some? then Requested(request, name) else Lookup(parent, name);
  }

  /** The request {"": "X=1"} gives "=X" a value in every environment merged into an
      empty one. */
  lemma EmptyKeySetsAName(env: seq<string>)
    requires Merges(env, [], map["" := "X=1"])
    ensures Lookup(env, "=X") == Some("1") && !ObeysSimpleRule(env, [], map["" := "X=1"], "=X")
  {
    var v := "X=1";
    assert "=X"[1..] == "X" && v[..2] == "X" + "=" && v[2..] == "1";
    assert Names("=X", v);
    SimpleRuleExactly(env, [], map["" := v], "=X");
    NamesIsNotAdmissible("=X", v);
  }

  /** The order of the map does not matter. */
  lemma OrderDoesNotMatter(e1: seq<string>, e2: seq<string>, parent: seq<string>, request: map<string, string>, name: string)
    requires Merges(e1, parent, request) && Merges(e2, parent, request)
    ensures Lookup(e1, name) == Lookup(e2, name)
  {
  }

  lemma UpperSign(name: string)
    requires name != "" && name[0] == '='
    ensures !Blocked(name)
  {
    assert Upper(name)[0] == '=';
    assert forall k | k in BLOCKED_VARS :: |k| > 0 && k[0] != '=';
    assert "LD_"[0] == 'L' && "BASH_FUNC_"[0] == 'B';
  }

  lemma BlockedIsNotUnnamed(name: string, v: string)
    requires Blocked(name)
    ensures !Names(name, v)
  {
    if name == "" {
      EmptyIsAdmissible();
    } else if name[0] == '=' {
      UpperSign(name);
    }
  }

  /** And every name that is blocked in some spelling keeps the service's value. */
  lemma BlockedKeepsParent(env: seq<string>, parent: seq<string>, request: map<string, string>, name: string)
    requires Merges(env, parent, request) && Blocked(name)
    ensures forall other | Upper(other) == Upper(name) :: Lookup(env, other) == Lookup(parent, other)
  {
    forall other | Upper(other) == Upper(name) ensures Lookup(env, other) == Lookup(parent, other) {
      assert Blocked(other);
      if "" in request { BlockedIsNotUnnamed(other, request[""]); }
    }
  }

  // ----- the block list, name by name

  /** The names refused by the source, in any spelling. */
  predicate Forbidden(key: string) {
    || EqualFold(key, "PATH") || EqualFold(key, "LD_PRELOAD") || EqualFold(key, "LD_LIBRARY_PATH")
    || EqualFold(key, "LD_AUDIT") || EqualFold(key, "LD_DEBUG") || EqualFold(key, "LD_PROFILE")
    || EqualFold(key, "BASH_ENV") || EqualFold(key, "ENV") || EqualFold(key, "SHELLOPTS")
    || EqualFold(key, "BASHOPTS") || EqualFold(key, "IFS") || EqualFold(key, "CDPATH") || EqualFold(key, "GLOBIGNORE")
  }

  lemma {:induction false} UpperAt(s: string)
    ensures |Upper(s)| == |s| && forall i | 0 <= i < |s| :: Upper(s)[i] == UpperChar(s[i])
  {
    if s != "" { UpperAt(s[1..]); }
  }

  /** Upper-casing and comparing is comparing without regard to case. */
  lemma UpperIsFold(key: string, name: string)
    requires IsAscii(key) && forall c | c in name :: c as int < 0x80 && !('a' <= c <= 'z')
    ensures Upper(key) == name <==> EqualFold(key, name)
  {
    UpperAt(key);
    if |key| == |name| {
      forall i | 0 <= i < |key| ensures Upper(key)[i] == name[i] <==> SameLetter(key[i], name[i]) {
        assert key[i] in key && name[i] in name;
      }
      assert Upper(key) == name <==> forall i | 0 <= i < |key| :: Upper(key)[i] == name[i];
    }
  }

  lemma UpperPrefixIsFold(key: string, p: string)
    requires IsAscii(key) && forall c | c in p :: c as int < 0x80 && !('a' <= c <= 'z')
    ensures HasPrefix(Upper(key), p) <==> PrefixFold(key, p)
  {
    UpperAt(key);
    if |p| <= |key| {
      var k := key[..|p|];
      assert forall c | c in k :: c in key;
      UpperIsFold(k, p);
      UpperAt(k);
      assert Upper(key)[..|p|] == Upper(k);
    }
  }

  lemma Fold1(key: string)
    requires IsAscii(key)
    ensures Upper(key) == "PATH" <==> EqualFold(key, "PATH")
    ensures Upper(key) == "LD_PRELOAD" <==> EqualFold(key, "LD_PRELOAD")
    ensures Upper(key) == "LD_LIBRARY_PATH" <==> EqualFold(key, "LD_LIBRARY_PATH")
    ensures Upper(key) == "LD_AUDIT" <==> EqualFold(key, "LD_AUDIT")
  {
    UpperIsFold(key, "PATH");
    UpperIsFold(key, "LD_PRELOAD");
    UpperIsFold(key, "LD_LIBRARY_PATH");
    UpperIsFold(key, "LD_AUDIT");
  }

  lemma Fold2(key: string)
    requires IsAscii(key)
    ensures Upper(key) == "LD_DEBUG" <==> EqualFold(key, "LD_DEBUG")
    ensures Upper(key) == "LD_PROFILE" <==> EqualFold(key, "LD_PROFILE")
    ensures Upper(key) == "BASH_ENV" <==> EqualFold(key, "BASH_ENV")
    ensures Upper(key) == "ENV" <==> EqualFold(key, "ENV")
  {
    UpperIsFold(key, "LD_DEBUG");
    UpperIsFold(key, "LD_PROFILE");
    UpperIsFold(key, "BASH_ENV");
    UpperIsFold(key, "ENV");
  }

  lemma Fold3(key: string)
    requires IsAscii(key)
    ensures Upper(key) == "SHELLOPTS" <==> EqualFold(key, "SHELLOPTS")
    ensures Upper(key) == "BASHOPTS" <==> EqualFold(key, "BASHOPTS")
    ensures Upper(key) == "IFS" <==> EqualFold(key, "IFS")
    ensures Upper(key) == "CDPATH" <==> EqualFold(key, "CDPATH")
    ensures Upper(key) == "GLOBIGNORE" <==> EqualFold(key, "GLOBIGNORE")
  {
    UpperIsFold(key, "SHELLOPTS");
    UpperIsFold(key, "BASHOPTS");
    UpperIsFold(key, "IFS");
    UpperIsFold(key, "CDPATH");
    UpperIsFold(key, "GLOBIGNORE");
  }

  lemma ListedIsBlocked(key: string)
    requires IsAscii(key)
    ensures Upper(key) in BLOCKED_VARS <==> Forbidden(key)
  {
    Fold1(key);
    Fold2(key);
    Fold3(key);
    BlockedVarsAre(Upper(key));
  }

  lemma BlockedVarsAre(name: string)
    ensures name in BLOCKED_VARS <==>
      || name == "PATH" || name == "LD_PRELOAD" || name == "LD_LIBRARY_PATH" || name == "LD_AUDIT" || name == "LD_DEBUG"
      || name == "LD_PROFILE" || name == "BASH_ENV" || name == "ENV" || name == "SHELLOPTS" || name == "BASHOPTS"
      || name == "IFS" || name == "CDPATH" || name == "GLOBIGNORE"
  {
  }

  /** An ASCII key is blocked exactly if, without regard to case, it is one of the
      thirteen names or starts with "LD_" or "BASH_FUNC_". */
  lemma BlockedExactly(key: string)
    requires IsAscii(key)
    ensures Blocked(key) <==> Forbidden(key) || PrefixFold(key, "LD_") || PrefixFold(key, "BASH_FUNC_")
  {
    ListedIsBlocked(key);
    UpperPrefixIsFold(key, "LD_");
    UpperPrefixIsFold(key, "BASH_FUNC_");
  }

  /** The lookup of any ordinary ASCII name in a merged environment. */
  lemma OrdinaryNameExactly(env: seq<string>, parent: seq<string>, request: map<string, string>, key: string)
    requires Merges(env, parent, request) && IsAscii(key) && key != "" && '=' !in key
    ensures Lookup(env, key) ==
      if key in request && '\0' !in key && !Forbidden(key) && !PrefixFold(key, "LD_") && !PrefixFold(key, "BASH_FUNC_")
      then Some(request[key]) else Lookup(parent, key)
  {
    BlockedExactly(key);
    assert "" in request ==> !Names(key, request[""]) by { assert key[0] in key; }
  }

  /** PATH and the other twelve, however they are spelled, keep the service's value. */
  lemma ListedKeepParent(env: seq<string>, parent: seq<string>, request: map<string, string>, key: string)
    requires Merges(env, parent, request) && IsAscii(key) && Forbidden(key)
    ensures Lookup(env, key) == Lookup(parent, key)
    ensures Lookup(env, "PATH") == Lookup(parent, "PATH")
  {
    BlockedExactly(key);
    BlockedKeepsParent(env, parent, request, key);
    BlockedExactly("PATH");
    BlockedKeepsParent(env, parent, request, "PATH");
  }

  lemma {:induction false} UpperConcat(a: string, b: string)
    ensures Upper(a + b) == Upper(a) + Upper(b)
  {
    if a == "" {
      assert a + b == b;
    } else {
      assert (a + b)[1..] == a[1..] + b;
      UpperConcat(a[1..], b);
    }
  }

  /** Any spelling of a loader variable is blocked, whatever follows its prefix. */
  lemma LoaderVariablesAreBlocked(prefix: string, rest: string)
    requires Upper(prefix) == "LD_" || Upper(prefix) == "BASH_FUNC_"
    ensures Blocked(prefix + rest)
  {
    UpperConcat(prefix, rest);
  }
}
