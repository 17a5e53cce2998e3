/** filepath.Dir on strings, and what it gives for clean absolute paths. */
module DirPath {
  import opened Paths

  /** The non-empty parts between slashes. */
  function Parts(s: string): seq<string>
    decreases |s|
  {
    if s == "" then []
    else if s[0] == '/' then Parts(s[1..])
    else [s[..NextSlash(s, 0)]] + Parts(s[NextSlash(s, 0)..])
  }

  /** One part pushed on the parts before it: "." stays, ".." goes up. */
  function Push(stack: seq<string>, part: string, rooted: bool): seq<string> {
    if part == "." then stack
    else if part != ".." then stack + [part]
    else if stack != [] && stack[|stack| - 1] != ".." then stack[..|stack| - 1]
    else if rooted then stack
    else stack + [part]
  }

  function Resolve(stack: seq<string>, parts: seq<string>, rooted: bool): seq<string>
    decreases |parts|
  {
    if parts == [] then stack else Resolve(Push(stack, parts[0], rooted), parts[1..], rooted)
  }

  lemma {:induction false} ResolveInTwo(stack: seq<string>, a: seq<string>, b: seq<string>, rooted: bool)
    ensures Resolve(stack, a + b, rooted) == Resolve(Resolve(stack, a, rooted), b, rooted)
    decreases |a|
  {
    if a == [] {
      assert a + b == b;
    } else {
      assert (a + b)[0] == a[0] && (a + b)[1..] == a[1..] + b;
      ResolveInTwo(Push(stack, a[0], rooted), a[1..], b, rooted);
    }
  }

  lemma DotParts(stack: seq<string>, x: string, rooted: bool)
    requires x != "." && x != ".."
    ensures Resolve(stack, ["."], rooted) == stack && Resolve(stack, [x, ".."], rooted) == stack
  {
    assert ["."][1..] == [] && [x, ".."][1..] == [".."] && [".."][1..] == [];
    assert (stack + [x])[..|stack|] == stack;
    assert Resolve(stack + [x], [".."], rooted) == Resolve(stack, [], rooted);
  }

  /** A dot stands for nothing, and two dots take back the name before them. */
  lemma DotsVanish(stack: seq<string>, before: seq<string>, x: string, after: seq<string>, rooted: bool)
    requires x != "." && x != ".."
    ensures Resolve(stack, before + (["."] + after), rooted) == Resolve(stack, before + after, rooted)
    ensures Resolve(stack, before + ([x, ".."] + after), rooted) == Resolve(stack, before + after, rooted)
  {
    hide *;
    var there := Resolve(stack, before, rooted);
    ResolveInTwo(stack, before, after, rooted);
    ResolveInTwo(stack, before, ["."] + after, rooted);
    ResolveInTwo(stack, before, [x, ".."] + after, rooted);
    ResolveInTwo(there, ["."], after, rooted);
    ResolveInTwo(there, [x, ".."], after, rooted);
    DotParts(there, x, rooted);
  }

  function Join(parts: seq<string>): string {
    if parts == [] then "" else "/" + parts[0] + Join(parts[1..])
  }

  /** filepath.Clean. */
  function Clean(s: string): string {
    var rooted := s != "" && s[0] == '/';
    var text := Join(Resolve([], Parts(s), rooted));
    if rooted then if text == "" then "/" else text
    else if text == "" then "." else text[1..]
  }

  function LastSlash(s: string): (e: nat)
    ensures e <= |s|
    ensures e > 0 ==> s[e - 1] == '/'
    ensures forall k :: e <= k < |s| ==> s[k] != '/'
  {
    if s == "" then 0 else if s[|s| - 1] == '/' then |s| else LastSlash(s[..|s| - 1])
  }

  /** filepath.Dir: everything up to the last slash, cleaned. */
  function Dir(s: string): string {
    Clean(s[..LastSlash(s)])
  }

  // ---------------------------------------------------------------- clean paths

  /** A slash and a name that is neither "." nor "..". */
  predicate IsName(t: string) {
    IsToken(t) && t[1] != '/' && t != "/." && t != "/.."
  }

  ghost predicate AllNames(ts: Path) {
    forall i :: 0 <= i < |ts| ==> IsName(ts[i])
  }

  function Names(ts: Path): seq<string>
    requires forall i :: 0 <= i < |ts| ==> |ts[i]| >= 1
  {
    if ts == [] then [] else [ts[0][1..]] + Names(ts[1..])
  }

  lemma {:induction false} PartsOfNames(ts: Path)
    requires AllNames(ts)
    ensures Parts(Concat(ts) + "/") == Names(ts)
  {
    if ts == [] {
      assert "/"[1..] == "";
      assert Concat(ts) + "/" == "/";
    } else {
      var s, t, rest := Concat(ts) + "/", ts[0], ts[1..];
      assert IsName(t);
      PartsOfNames(rest);
      assert AllTokens(rest);
      ConcatStartsWithSlash(rest);
      var s1, r := s[1..], Concat(rest) + "/";
      assert s == t + r;
      assert s1 == t[1..] + r && r[0] == '/';
      assert forall k :: 0 <= k < |t| - 1 ==> s1[k] == t[k + 1] && s1[k] != '/';
      assert s1[|t| - 1] == '/';
      assert NextSlash(s1, 0) == |t| - 1;
      assert s1[..|t| - 1] == t[1..] && s1[|t| - 1..] == r;
    }
  }

  lemma PushName(stack: seq<string>, t: string)
    requires IsName(t)
    ensures Push(stack, t[1..], true) == stack + [t[1..]]
  {
    assert t == "/" + t[1..];
  }

  lemma {:induction false} ResolveNames(stack: seq<string>, ts: Path)
    requires AllNames(ts)
    ensures Resolve(stack, Names(ts), true) == stack + Names(ts)
    decreases |ts|
  {
    if ts == [] {
      assert stack + Names(ts) == stack;
    } else {
      var n, rest := ts[0][1..], Names(ts[1..]);
      assert IsName(ts[0]);
      hide IsName, Push;
      PushName(stack, ts[0]);
      ResolveNames(stack + [n], ts[1..]);
      assert Names(ts) == [n] + rest && ([n] + rest)[1..] == rest;
      assert Resolve(stack, [n] + rest, true) == Resolve(stack + [n], rest, true);
      hide *;
      assert stack + [n] + rest == stack + ([n] + rest);
    }
  }

  lemma {:induction false} JoinNames(ts: Path)
    requires AllNames(ts)
    ensures Join(Names(ts)) == Concat(ts)
  {
    if ts != [] {
      assert IsName(ts[0]) && ts[0] == "/" + ts[0][1..];
      JoinNames(ts[1..]);
      assert Names(ts)[1..] == Names(ts[1..]);
    }
  }

  lemma LastSlashOf(a: string, t: string)
    requires IsName(t)
    ensures LastSlash(a + t) == |a| + 1
  {
    var s, e := a + t, LastSlash(a + t);
    assert s[|a|] == '/';
    forall k | |a| + 1 <= k < |s| ensures s[k] != '/' { assert s[k] == t[k - |a|]; }
  }

  lemma ConcatOne(t: string)
    ensures Concat([t]) == t
  {
    assert Concat([t]) == t + Concat([]);
  }

  lemma CleanOfNames(ts: Path)
    requires AllNames(ts)
    ensures Clean(Concat(ts) + "/") == if ts == [] then "/" else Concat(ts)
  {
    assert AllTokens(ts);
    ConcatStartsWithSlash(ts);
    PartsOfNames(ts);
    ResolveNames([], ts);
    JoinNames(ts);
    hide Parts, Resolve, Join, Names, IsName;
    assert [] + Names(ts) == Names(ts);
    assert (Concat(ts) + "/")[0] == '/';
  }

  lemma ConcatOfLast(ts: Path)
    requires ts != []
    ensures Concat(ts) == Concat(ts[..|ts| - 1]) + ts[|ts| - 1]
  {
    assert ts == ts[..|ts| - 1] + [ts[|ts| - 1]];
    ConcatAppend(ts[..|ts| - 1], [ts[|ts| - 1]]);
    ConcatOne(ts[|ts| - 1]);
  }

  lemma DirOfText(a: string, t: string)
    requires IsName(t)
    ensures Dir(a + t) == Clean(a + "/")
  {
    hide Clean;
    LastSlashOf(a, t);
    assert (a + t)[..|a| + 1] == a + "/" by { assert t[0] == '/'; }
  }

  /** The directory of a clean file is the path without its last segment, or the root. */
  lemma DirOfNames(ts: Path)
    requires AllNames(ts) && ts != []
    ensures Dir(Concat(ts)) == if |ts| == 1 then "/" else Concat(ts[..|ts| - 1])
  {
    hide Dir, Concat, Clean, IsName;
    ConcatOfLast(ts);
    assert IsName(ts[|ts| - 1]);
    DirOfText(Concat(ts[..|ts| - 1]), ts[|ts| - 1]);
    CleanOfNames(ts[..|ts| - 1]);
  }
}
