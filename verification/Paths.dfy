/** Path strings, their tokens and their order.
    Both path tries cut a path with the regular expression (/.[^/]*) and print it again by
    concatenation; this module defines the cut, the concatenation, and the order sort.Strings uses. */
module Paths {

  type Path = seq<string>

  // ---------------------------------------------------------------- tokens

  /** First index at or after `i` that holds a slash, or the end of the string. */
  function NextSlash(s: string, i: nat): (e: nat)
    requires i <= |s|
    ensures i <= e <= |s|
    ensures forall k :: i <= k < e ==> s[k] != '/'
    ensures e < |s| ==> s[e] == '/'
    decreases |s| - i
  {
    if i == |s| || s[i] == '/' then i else NextSlash(s, i + 1)
  }

  /** All matches of (/.[^/]*), left to right. */
  function Tokenize(s: string): Path
    decreases |s|
  {
    if |s| < 2 then []
    else if s[0] == '/' && s[1] != '\n' then
      var e := NextSlash(s, 2);
      [s[..e]] + Tokenize(s[e..])
    else Tokenize(s[1..])
  }

  function Concat(ts: Path): string {
    if ts == [] then "" else ts[0] + Concat(ts[1..])
  }

  /** What the expression can match: a slash, any character but a newline, then no slash. */
  predicate IsToken(t: string) {
    |t| >= 2 && t[0] == '/' && t[1] != '\n' && forall k :: 2 <= k < |t| ==> t[k] != '/'
  }

  ghost predicate AllTokens(ts: Path) {
    forall i :: 0 <= i < |ts| ==> IsToken(ts[i])
  }

  lemma {:induction false} TokenizeTokens(s: string)
    ensures AllTokens(Tokenize(s))
    decreases |s|
  {
    if |s| >= 2 {
      if s[0] == '/' && s[1] != '\n' {
        TokenizeTokens(s[NextSlash(s, 2)..]);
      } else {
        TokenizeTokens(s[1..]);
      }
    }
  }

  /** A text has no token exactly when no slash in it is followed by a character other than a newline. */
  lemma {:induction false} NoTokenExactly(s: string)
    ensures Tokenize(s) == [] <==> forall k :: 1 <= k < |s| ==> !(s[k - 1] == '/' && s[k] != '\n')
    decreases |s|
  {
    if |s| >= 2 && !(s[0] == '/' && s[1] != '\n') {
      NoTokenExactly(s[1..]);
      assert forall k :: 1 <= k < |s| - 1 ==> s[1..][k - 1] == s[k] && s[1..][k] == s[k + 1];
      if Tokenize(s) == [] {
        forall k | 1 <= k < |s| ensures !(s[k - 1] == '/' && s[k] != '\n') {
          if k > 1 { assert s[1..][k - 2] == s[k - 1] && s[1..][k - 1] == s[k]; }
        }
      }
    } else if |s| >= 2 {
      assert s[1 - 1] == '/' && s[1] != '\n';
    }
  }

  lemma {:induction false} ConcatStartsWithSlash(ts: Path)
    requires AllTokens(ts)
    ensures ts == [] <==> Concat(ts) == ""
    ensures ts != [] ==> |Concat(ts)| >= 2 && Concat(ts)[0] == '/' && Concat(ts)[1] == ts[0][1]
  {
    if ts != [] {
      assert IsToken(ts[0]);
      assert Concat(ts)[0] == ts[0][0] && Concat(ts)[1] == ts[0][1];
    }
  }

  lemma FirstToken(t: string, rest: string)
    requires IsToken(t) && (rest == "" || rest[0] == '/')
    ensures Tokenize(t + rest) == [t] + Tokenize(rest)
  {
    var s := t + rest;
    assert s[..|t|] == t && s[|t|..] == rest;
    assert s[0] == t[0] && s[1] == t[1];
    assert forall k :: 2 <= k < |t| ==> s[k] == t[k];
    assert rest != "" ==> s[|t|] == rest[0];
    assert NextSlash(s, 2) == |t|;
  }

  /** Tokenizing undoes concatenation. */
  lemma {:induction false} TokenizeConcat(ts: Path)
    requires AllTokens(ts)
    ensures Tokenize(Concat(ts)) == ts
  {
    if ts != [] {
      var t, rest := ts[0], ts[1..];
      assert IsToken(t);
      TokenizeConcat(rest);
      ConcatStartsWithSlash(rest);
      FirstToken(t, Concat(rest));
      hide Tokenize;
      assert ts == [t] + rest;
    }
  }

  lemma ConcatInjective(a: Path, b: Path)
    requires AllTokens(a) && AllTokens(b) && Concat(a) == Concat(b)
    ensures a == b
  {
    TokenizeConcat(a);
    TokenizeConcat(b);
  }

  lemma {:induction false} ConcatAppend(a: Path, b: Path)
    ensures Concat(a + b) == Concat(a) + Concat(b)
  {
    if a == [] {
      assert a + b == b;
    } else {
      assert (a + b)[1..] == a[1..] + b;
      ConcatAppend(a[1..], b);
    }
  }

  /** A path lies below a directory string exactly when the directory's tokens are a proper prefix. */
  lemma {:induction false} UnderDirectory(a: Path, b: Path)
    requires AllTokens(a) && AllTokens(b)
    ensures Concat(a) + "/" <= Concat(b) <==> a < b
  {
    if a < b {
      assert b == a + b[|a|..];
      ConcatAppend(a, b[|a|..]);
      ConcatStartsWithSlash(b[|a|..]);
    }
    if Concat(a) + "/" <= Concat(b) {
      PrefixOfConcat(a, b);
    }
  }

  lemma {:induction false} PrefixOfConcat(a: Path, b: Path)
    requires AllTokens(a) && AllTokens(b) && Concat(a) + "/" <= Concat(b)
    ensures a < b
  {
    ConcatStartsWithSlash(b);
    if a != [] {
      ConcatStartsWithSlash(a);
      var s, r := Concat(a) + "/", Concat(b);
      assert r == b[0] + Concat(b[1..]) && s == a[0] + (Concat(a[1..]) + "/");
      assert IsToken(a[0]) && IsToken(b[0]);
      ConcatStartsWithSlash(a[1..]);
      ConcatStartsWithSlash(b[1..]);
      var m := |a[0]|;
      assert forall k :: 0 <= k < m ==> r[k] == s[k] == a[0][k];
      assert forall k :: 0 <= k < |b[0]| ==> r[k] == b[0][k];
      assert r[m] == s[m] == '/';
      assert b[1..] != [] ==> r[|b[0]|] == '/';
      assert |b[0]| == m;
      assert a[0] == s[..m] == r[..m] == b[0];
      assert s[m..] == Concat(a[1..]) + "/" && r[m..] == Concat(b[1..]);
      PrefixOfConcat(a[1..], b[1..]);
      assert a == [a[0]] + a[1..] && b == [b[0]] + b[1..];
    }
  }

  // ---------------------------------------------------------------- wildcards

  const WILD_PATH_DIGIT: string := "/[0-9]+"
  const WILD_PATH_CHAR: string := "/.+"

  predicate IsWild(path: string) {
    path == WILD_PATH_DIGIT || path == WILD_PATH_CHAR
  }

  predicate IsDigit(c: char) { '0' <= c <= '9' }

  /** A slash and an unsigned decimal number: the whole-string matches of /[0-9]+. */
  predicate IsNumber(s: string) {
    |s| >= 2 && s[0] == '/' && forall k :: 1 <= k < |s| ==> IsDigit(s[k])
  }

  /** Whether the expression of a wildcard node finds the whole segment (segments are never empty). */
  predicate WildFinds(wild: string, s: string) {
    if wild == WILD_PATH_DIGIT then IsNumber(s)
    else |s| >= 2 && s[0] == '/' && forall k :: 1 <= k < |s| ==> s[k] != '\n'
  }

  /** The test findChildNode makes on one child. */
  predicate ChildMatches(child: string, s: string) {
    if IsWild(child) then WildFinds(child, s) else child == s
  }

  lemma AppendLast<T>(a: seq<T>, b: seq<T>)
    requires b != []
    ensures a + b == (a + b[..|b| - 1]) + [b[|b| - 1]]
  {
  }

  /** How directories are told from files. */
  predicate HasSlash(s: string) {
    s != "" && s[|s| - 1] == '/'
  }

  ghost predicate NoDuplicates<T>(s: seq<T>) {
    forall i, j :: 0 <= i < j < |s| ==> s[i] != s[j]
  }

  lemma {:induction false} DistinctCounts<T>(s: seq<T>, x: T)
    requires NoDuplicates(s)
    ensures multiset(s)[x] <= 1
    decreases |s|
  {
    if s != [] {
      var last := |s| - 1;
      assert s == s[..last] + [s[last]];
      DistinctCounts(s[..last], x);
      assert s[last] !in s[..last];
    }
  }

  lemma TwiceCounts<T>(b: seq<T>, i: nat, j: nat)
    requires i < j < |b| && b[i] == b[j]
    ensures multiset(b)[b[i]] >= 2
  {
    assert b == b[..i] + [b[i]] + b[i + 1..j] + [b[j]] + b[j + 1..];
  }

  lemma SameMultisetDistinct<T>(a: seq<T>, b: seq<T>)
    requires NoDuplicates(a) && multiset(a) == multiset(b)
    ensures NoDuplicates(b)
  {
    forall i, j | 0 <= i < j < |b| ensures b[i] != b[j] {
      DistinctCounts(a, b[i]);
      if b[i] == b[j] { TwiceCounts(b, i, j); }
    }
  }

  // ---------------------------------------------------------------- order

  /** The order of sort.Strings. */
  predicate LexLess(a: string, b: string) {
    b != [] && (a == [] || a[0] < b[0] || (a[0] == b[0] && LexLess(a[1..], b[1..])))
  }

  lemma {:induction false} LexTotal(a: string, b: string)
    ensures LexLess(a, b) || a == b || LexLess(b, a)
    ensures !(LexLess(a, b) && LexLess(b, a))
    ensures !LexLess(a, a)
  {
    if a != [] { LexTotal(a[1..], a[1..]); }
    if a != [] && b != [] && a[0] == b[0] {
      LexTotal(a[1..], b[1..]);
      assert a == [a[0]] + a[1..] && b == [b[0]] + b[1..];
    }
  }

  /** The first difference is at i, and a has the lesser character there. */
  ghost predicate DiffersAt(a: string, b: string, i: nat) {
    i < |a| && i < |b| && a[..i] == b[..i] && a[i] < b[i]
  }

  ghost predicate LesserThere(a: string, b: string) {
    exists i: nat :: DiffersAt(a, b, i)
  }

  lemma DiffersLater(a: string, b: string, i: nat)
    requires a != [] && b != [] && a[0] == b[0]
    ensures DiffersAt(a, b, i + 1) <==> DiffersAt(a[1..], b[1..], i)
    ensures !DiffersAt(a, b, 0)
  {
    if i < |a[1..]| && i < |b[1..]| {
      assert a[..i + 1] == [a[0]] + a[1..][..i] && b[..i + 1] == [b[0]] + b[1..][..i];
    }
  }

  lemma DiffersFirst(a: string, b: string)
    requires a != [] && b != [] && a[0] != b[0]
    ensures LesserThere(a, b) <==> a[0] < b[0]
  {
    assert a[..0] == b[..0];
    if a[0] < b[0] { assert DiffersAt(a, b, 0); }
    forall i: nat | 1 <= i < |a| && i < |b| ensures a[..i] != b[..i] {
      assert a[..i][0] != b[..i][0];
    }
  }

  /** One text comes before another when it begins it, or has the lesser character where they first differ. */
  lemma {:induction false} LexLessExactly(a: string, b: string)
    ensures LexLess(a, b) <==> a < b || LesserThere(a, b)
  {
    if a != [] && b != [] && a[0] == b[0] {
      LexLessExactly(a[1..], b[1..]);
      assert a == [a[0]] + a[1..] && b == [b[0]] + b[1..];
      assert a < b <==> a[1..] < b[1..];
      if i: nat :| DiffersAt(a, b, i) {
        DiffersLater(a, b, 0);
        if i > 0 { DiffersLater(a, b, i - 1); }
        assert LesserThere(a[1..], b[1..]);
      }
      if i: nat :| DiffersAt(a[1..], b[1..], i) { DiffersLater(a, b, i); }
    } else if a != [] && b != [] {
      DiffersFirst(a, b);
    }
  }

  lemma {:induction false} LexTrans(a: string, b: string, c: string)
    requires LexLess(a, b) && LexLess(b, c)
    ensures LexLess(a, c)
  {
    if a != [] && a[0] == b[0] && b[0] == c[0] {
      LexTrans(a[1..], b[1..], c[1..]);
    }
  }

  /** Shorter first, then by LexLess: the order a stable sort by length leaves a sorted list in. */
  predicate LenLexLess(a: string, b: string) {
    |a| < |b| || (|a| == |b| && LexLess(a, b))
  }

  function LexInsert(x: string, s: seq<string>): seq<string> {
    if s == [] || LexLess(x, s[0]) then [x] + s else [s[0]] + LexInsert(x, s[1..])
  }

  /** The result of sort.Strings. */
  function LexSort(s: seq<string>): seq<string> {
    if s == [] then [] else LexInsert(s[0], LexSort(s[1..]))
  }

  ghost predicate LexOrdered(s: seq<string>) {
    forall i, j :: 0 <= i < j < |s| ==> !LexLess(s[j], s[i])
  }

  lemma LexOrderedCons(y: string, q: seq<string>)
    requires LexOrdered(q) && forall j :: 0 <= j < |q| ==> !LexLess(q[j], y)
    ensures LexOrdered([y] + q)
  {
  }

  lemma {:induction false} LexInsertSorts(x: string, s: seq<string>)
    requires LexOrdered(s)
    ensures LexOrdered(LexInsert(x, s))
    ensures multiset(LexInsert(x, s)) == multiset(s) + multiset{x}
  {
    var r := LexInsert(x, s);
    if s == [] {
    } else if LexLess(x, s[0]) {
      forall j | 1 <= j < |r| ensures !LexLess(r[j], x) {
        LexTotal(x, s[0]);
        if LexLess(r[j], x) { LexTrans(r[j], x, s[0]); }
      }
    } else {
      assert s == [s[0]] + s[1..];
      LexInsertSorts(x, s[1..]);
      var q := LexInsert(x, s[1..]);
      forall j | 0 <= j < |q| ensures !LexLess(q[j], s[0]) {
        assert q[j] in multiset(s[1..]) + multiset{x};
        assert q[j] == x || q[j] in s[1..];
      }
      LexOrderedCons(s[0], q);
    }
  }

  lemma {:induction false} LexSortSorts(s: seq<string>)
    ensures LexOrdered(LexSort(s))
    ensures multiset(LexSort(s)) == multiset(s)
  {
    if s != [] {
      assert s == [s[0]] + s[1..];
      LexSortSorts(s[1..]);
      LexInsertSorts(s[0], LexSort(s[1..]));
    }
  }

  lemma LexSortMembers(s: seq<string>)
    ensures |LexSort(s)| == |s|
    ensures forall x :: x in LexSort(s) <==> x in s
  {
    LexSortSorts(s);
    assert |multiset(LexSort(s))| == |multiset(s)|;
    forall x ensures x in LexSort(s) <==> x in s {
      assert x in LexSort(s) <==> x in multiset(LexSort(s));
      assert x in s <==> x in multiset(s);
    }
  }

  // ---------------------------------------------------------------- lists ordered by a key

  ghost predicate KeyOrdered<T(!new)>(s: seq<T>, key: T -> string) {
    forall i, j :: 0 <= i < j < |s| ==> !LexLess(key(s[j]), key(s[i]))
  }

  ghost predicate KeyDistinguishes<T(!new)>(s: seq<T>, key: T -> string) {
    forall x, y :: x in s && y in s && key(x) == key(y) ==> x == y
  }

  /** A list ordered by a key that tells its elements apart is determined by its elements. */
  lemma {:induction false} OrderedListsAgree<T(!new)>(a: seq<T>, b: seq<T>, key: T -> string)
    requires multiset(a) == multiset(b)
    requires KeyOrdered(a, key) && KeyOrdered(b, key) && KeyDistinguishes(a, key)
    ensures a == b
    decreases |a|
  {
    hide *;
    SameCount(a, b);
    if a != [] {
      SameFirst(a, b, key);
      TailMultiset(a);
      TailMultiset(b);
      TailOrdered(a, key);
      TailOrdered(b, key);
      OrderedListsAgree(a[1..], b[1..], key);
      ConsEqual(a, b);
    }
  }

  lemma SameCount<T>(a: seq<T>, b: seq<T>)
    requires multiset(a) == multiset(b)
    ensures |a| == |b|
  {
    assert |a| == |multiset(a)| && |b| == |multiset(b)|;
  }

  lemma ConsEqual<T>(a: seq<T>, b: seq<T>)
    requires a != [] && b != [] && a[0] == b[0] && a[1..] == b[1..]
    ensures a == b
  {
    assert a == [a[0]] + a[1..] && b == [b[0]] + b[1..];
  }

  lemma SameFirst<T(!new)>(a: seq<T>, b: seq<T>, key: T -> string)
    requires a != [] && b != [] && multiset(a) == multiset(b)
    requires KeyOrdered(a, key) && KeyOrdered(b, key) && KeyDistinguishes(a, key)
    ensures a[0] == b[0]
  {
    assert forall x :: x in a <==> x in multiset(a);
    assert forall x :: x in b <==> x in multiset(b);
    assert a[0] in a && b[0] in b;
    LeastKey(a, key, b[0]);
    LeastKey(b, key, a[0]);
    LexTotal(key(a[0]), key(b[0]));
  }

  lemma TailMultiset<T(!new)>(a: seq<T>)
    requires a != []
    ensures multiset(a[1..]) == multiset(a) - multiset{a[0]}
  {
    assert a == [a[0]] + a[1..];
  }

  lemma TailOrdered<T(!new)>(a: seq<T>, key: T -> string)
    requires a != [] && KeyOrdered(a, key)
    ensures KeyOrdered(a[1..], key) && (KeyDistinguishes(a, key) ==> KeyDistinguishes(a[1..], key))
  {
    assert forall x :: x in a[1..] ==> x in a;
  }

  lemma LeastKey<T(!new)>(a: seq<T>, key: T -> string, x: T)
    requires a != [] && x in a && KeyOrdered(a, key)
    ensures !LexLess(key(x), key(a[0]))
  {
    var i :| 0 <= i < |a| && a[i] == x;
    LexTotal(key(a[0]), key(a[0]));
  }

  lemma DistinctSameMembers<T(!new)>(a: seq<T>, b: seq<T>)
    requires NoDuplicates(a) && NoDuplicates(b) && forall x :: x in a <==> x in b
    ensures multiset(a) == multiset(b)
  {
    forall x ensures multiset(a)[x] == multiset(b)[x] {
      DistinctCounts(a, x);
      DistinctCounts(b, x);
      assert x in a <==> x in multiset(a);
      assert x in b <==> x in multiset(b);
    }
  }
}
