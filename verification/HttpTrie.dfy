/** The HTTP path trie on values.
    A tree here carries, instead of a bare touch counter, the list of path remainders that have
    arrived at each node; the counter of the program is the length of that list. HttpNode.dfy
    proves that the in-place tree of the program refines these definitions. */
module HttpTrie {
  import opened Paths

  datatype Tree = Tree(path: string, seen: seq<Path>, kids: seq<Tree>)

  // ================================================================ what a pattern means

  /** One segment of a printed pattern: a literal, an unsigned number, or anything. */
  datatype Seg = Lit(text: string) | Number | Anything

  function Meaning(path: string): Seg {
    if path == WILD_PATH_DIGIT then Number
    else if path == WILD_PATH_CHAR then Anything
    else Lit(path)
  }

  predicate SegMatches(g: Seg, s: string) {
    match g
    case Lit(text) => s == text
    case Number => IsNumber(s)
    case Anything => true
  }

  /** A printed pattern; `leaf` records that it ends in a node without children, whose wildcard
      is printed in a different spelling. */
  datatype Pattern = Pattern(segs: seq<Seg>, leaf: bool)

  predicate Matches(q: Pattern, p: Path) {
    |q.segs| == |p| && forall i :: 0 <= i < |p| ==> SegMatches(q.segs[i], p[i])
  }

  // ================================================================ insertion

  /** Index of the first child that accepts the segment, or the number of children. */
  function Find(kids: seq<Tree>, s: string): (i: nat)
    ensures i <= |kids|
    ensures i < |kids| ==> ChildMatches(kids[i].path, s)
    ensures forall k :: 0 <= k < i ==> !ChildMatches(kids[k].path, s)
  {
    if kids == [] || ChildMatches(kids[0].path, s) then 0 else 1 + Find(kids[1..], s)
  }

  function Fresh(path: string): Tree { Tree(path, [], []) }

  /** One more path reaches the root of `t` and is inserted below it. */
  function Visit(t: Tree, p: Path): Tree
    requires p != []
    decreases |p|, 0
  {
    Tree(t.path, t.seen + [p], InsertBelow(t.kids, p[1..]))
  }

  function InsertBelow(kids: seq<Tree>, p: Path): seq<Tree>
    decreases |p|, 1
  {
    if p == [] then kids
    else
      var i := Find(kids, p[0]);
      if i == |kids| then kids + [Visit(Fresh(p[0]), p)] else kids[i := Visit(kids[i], p)]
  }

  // ================================================================ wildcard aggregation

  /** The part of a segment between its first two slashes. */
  function WithoutSlash(path: string): string {
    var start := NextSlash(path, 0);
    if start == |path| then "" else path[start + 1..NextSlash(path, start + 1)]
  }

  function DigitValue(c: char): nat
    requires IsDigit(c)
  {
    c as int - '0' as int
  }

  function Decimal(s: string): nat
    requires AllDigits(s)
  {
    if s == [] then 0 else 10 * Decimal(s[..|s| - 1]) + DigitValue(s[|s| - 1])
  }

  /** strconv.Atoi reports no error: optional sign, digits, value within 64 bits. */
  predicate AtoiOk(s: string) {
    var digits := Unsigned(s);
    digits != [] && AllDigits(digits)
    && Decimal(digits) <= if s[0] == '-' then 0x8000_0000_0000_0000 else 0x7fff_ffff_ffff_ffff
  }

  function Unsigned(s: string): string {
    if s != [] && (s[0] == '-' || s[0] == '+') then s[1..] else s
  }

  predicate AllDigits(s: string) {
    forall k :: 0 <= k < |s| ==> IsDigit(s[k])
  }

  predicate SameLength(kids: seq<Tree>) {
    forall i, j :: 0 <= i < j < |kids| ==> |kids[i].path| == |kids[j].path|
  }

  predicate DigitsOnly(kids: seq<Tree>) {
    forall i :: 0 <= i < |kids| ==> AtoiOk(WithoutSlash(kids[i].path))
  }

  function Arrivals(kids: seq<Tree>): seq<Path> {
    if kids == [] then [] else kids[0].seen + Arrivals(kids[1..])
  }

  function GrandKids(kids: seq<Tree>): seq<Tree> {
    if kids == [] then [] else kids[0].kids + GrandKids(kids[1..])
  }

  /** The single child that replaces all children. */
  function WildChild(kids: seq<Tree>): Tree {
    Tree(if DigitsOnly(kids) then WILD_PATH_DIGIT else WILD_PATH_CHAR, Arrivals(kids), GrandKids(kids))
  }

  function Select(kids: seq<Tree>, path: string): seq<Tree> {
    if kids == [] then []
    else (if kids[0].path == path then [kids[0]] else []) + Select(kids[1..], path)
  }

  function Group(kids: seq<Tree>, path: string): Tree {
    Tree(path, Arrivals(Select(kids, path)), GrandKids(Select(kids, path)))
  }

  ghost function PathsOf(kids: seq<Tree>): set<string> {
    set k | k in kids :: k.path
  }

  predicate DistinctPaths(kids: seq<Tree>) {
    forall i, j :: 0 <= i < j < |kids| ==> kids[i].path != kids[j].path
  }

  /** Children with equal paths are united; the order of the united children is that of an
      iteration over a hash map, hence any order. */
  ghost predicate MergesSame(kids: seq<Tree>, merged: seq<Tree>) {
    if DistinctPaths(kids) then merged == kids
    else
      && DistinctPaths(merged)
      && PathsOf(merged) == PathsOf(kids)
      && forall i :: 0 <= i < |merged| ==> merged[i] == Group(kids, merged[i].path)
  }

  /** The step at one node, once its children have been aggregated. */
  ghost predicate CollapseStep(t: Tree, t': Tree, threshold: nat) {
    if |t.kids| > threshold && SameLength(t.kids) then
      var w := WildChild(t.kids);
      && t'.path == t.path && t'.seen == t.seen && |t'.kids| == 1
      && t'.kids[0].path == w.path && t'.kids[0].seen == w.seen
      && MergesSame(w.kids, t'.kids[0].kids)
    else t' == t
  }

  /** aggregateChildNodes: children first, then the node itself. */
  ghost predicate Aggregates(t: Tree, t': Tree, threshold: nat)
    decreases t
  {
    exists mids: seq<Tree> ::
      && |mids| == |t.kids|
      && (forall i :: 0 <= i < |mids| ==> Aggregates(t.kids[i], mids[i], threshold))
      && CollapseStep(t.(kids := mids), t', threshold)
  }

  // ================================================================ printing

  function LeafText(path: string): string {
    if path == WILD_PATH_DIGIT then "/[0-9^/]+" else if path == WILD_PATH_CHAR then "/.[^/]+" else path
  }

  /** A node is printed when it has no children or when some path ended at it. */
  predicate EndsHere(t: Tree) {
    |Arrivals(t.kids)| == 0 || |t.seen| > |Arrivals(t.kids)|
  }

  /** The keys generatePaths adds, given the text of the ancestors. */
  function Printed(t: Tree, parent: string): set<string>
    decreases t, 1
  {
    PrintedKids(t.kids, parent + t.path)
    + if |Arrivals(t.kids)| == 0 then {parent + LeafText(t.path)}
      else if |t.seen| > |Arrivals(t.kids)| then {parent + t.path}
      else {}
  }

  function PrintedKids(kids: seq<Tree>, parent: string): set<string>
    decreases kids, 0
  {
    if kids == [] then {} else Printed(kids[0], parent) + PrintedKids(kids[1..], parent)
  }

  /** The same nodes as patterns. */
  ghost predicate IsPattern(t: Tree, q: Pattern)
    decreases t, 1
  {
    q.segs != [] && q.segs[0] == Meaning(t.path)
    && if |q.segs| == 1 then EndsHere(t) && q.leaf == (|Arrivals(t.kids)| == 0)
       else IsKidPattern(t.kids, Rest(q))
  }

  ghost predicate IsKidPattern(kids: seq<Tree>, q: Pattern)
    decreases kids, 0
  {
    exists i :: 0 <= i < |kids| && IsPattern(kids[i], q)
  }

  function Rest(q: Pattern): Pattern
    requires q.segs != []
  {
    Pattern(q.segs[1..], q.leaf)
  }

  function Prefixed(g: Seg, q: Pattern): (r: Pattern)
    ensures r.segs != [] && Rest(r) == q && r.segs[0] == g
  {
    Pattern([g] + q.segs, q.leaf)
  }

  function SegText(g: Seg): string {
    match g
    case Lit(text) => text
    case Number => WILD_PATH_DIGIT
    case Anything => WILD_PATH_CHAR
  }

  function Render(q: Pattern): string
    requires q.segs != []
    decreases |q.segs|
  {
    if |q.segs| == 1 then if q.leaf then LeafText(SegText(q.segs[0])) else SegText(q.segs[0])
    else SegText(q.segs[0]) + Render(Rest(q))
  }

  // ================================================================ the invariant

  /** A segment the wildcard heuristics treat properly: it is not spelled like the digit wildcard,
      and if strconv.Atoi accepts it, it has no sign. */
  predicate SafeSeg(s: string) {
    s != WILD_PATH_DIGIT && (AtoiOk(WithoutSlash(s)) ==> IsNumber(s))
  }

  predicate SafePath(p: Path) {
    forall i :: 0 <= i < |p| ==> SafeSeg(p[i])
  }

  /** The remainders of the paths that go on below a node. */
  function Tails(ps: seq<Path>): seq<Path> {
    if ps == [] then [] else (if |ps[0]| > 1 then [ps[0][1..]] else []) + Tails(ps[1..])
  }

  /** Every arrival matches the text of the node. Unless that is strict, arrivals at the digit wildcard that
      have an unsafe segment need not. */
  ghost predicate HeadsMatch(path: string, seen: seq<Path>, strict: bool) {
    forall p :: p in seen ==>
      p != [] && (strict || path != WILD_PATH_DIGIT || SafePath(p) ==> SegMatches(Meaning(path), p[0]))
  }

  /** Arrivals match the node, and those that go on are exactly the arrivals at its children. */
  ghost predicate Balanced(t: Tree, strict: bool) {
    && t.seen != []
    && HeadsMatch(t.path, t.seen, strict)
    && multiset(Tails(t.seen)) == multiset(Arrivals(t.kids))
  }

  /** Balanced at every node. */
  ghost predicate WF(t: Tree, strict: bool)
    decreases t
  {
    Balanced(t, strict) && forall i :: 0 <= i < |t.kids| ==> WF(t.kids[i], strict)
  }

  ghost predicate AllWF(kids: seq<Tree>, strict: bool) {
    forall i :: 0 <= i < |kids| ==> WF(kids[i], strict)
  }

  // ---------------------------------------------------------------- sums over lists

  lemma {:induction false} TailsAppend(a: seq<Path>, b: seq<Path>)
    ensures Tails(a + b) == Tails(a) + Tails(b)
  {
    if a == [] {
      assert a + b == b;
    } else {
      assert (a + b)[1..] == a[1..] + b;
      TailsAppend(a[1..], b);
    }
  }

  lemma {:induction false} ArrivalsAppend(a: seq<Tree>, b: seq<Tree>)
    ensures Arrivals(a + b) == Arrivals(a) + Arrivals(b)
  {
    if a == [] {
      assert a + b == b;
    } else {
      assert (a + b)[1..] == a[1..] + b;
      ArrivalsAppend(a[1..], b);
    }
  }

  lemma {:induction false} GrandKidsAppend(a: seq<Tree>, b: seq<Tree>)
    ensures GrandKids(a + b) == GrandKids(a) + GrandKids(b)
  {
    if a == [] {
      assert a + b == b;
    } else {
      assert (a + b)[1..] == a[1..] + b;
      GrandKidsAppend(a[1..], b);
    }
  }

  lemma {:induction false} SelectAppend(a: seq<Tree>, b: seq<Tree>, path: string)
    ensures Select(a + b, path) == Select(a, path) + Select(b, path)
  {
    if a == [] {
      assert a + b == b;
    } else {
      var rest := a[1..];
      assert (a + b)[0] == a[0] && (a + b)[1..] == rest + b;
      SelectAppend(rest, b, path);
      assert Select(a + b, path) == (if a[0].path == path then [a[0]] else []) + (Select(rest, path) + Select(b, path));
    }
  }

  /** What one more child adds to the pools of all children and of the children with one path. */
  lemma PoolStep(kids: seq<Tree>, i: nat)
    requires i < |kids|
    ensures Arrivals(kids[..i + 1]) == Arrivals(kids[..i]) + kids[i].seen
    ensures GrandKids(kids[..i + 1]) == GrandKids(kids[..i]) + kids[i].kids
    ensures forall p :: Select(kids[..i + 1], p) ==
                        Select(kids[..i], p) + if kids[i].path == p then [kids[i]] else []
  {
    assert kids[..i + 1] == kids[..i] + [kids[i]];
    ArrivalsAppend(kids[..i], [kids[i]]);
    GrandKidsAppend(kids[..i], [kids[i]]);
    assert Arrivals([kids[i]]) == kids[i].seen && GrandKids([kids[i]]) == kids[i].kids;
    forall p ensures Select(kids[..i + 1], p) ==
                     Select(kids[..i], p) + if kids[i].path == p then [kids[i]] else []
    {
      SelectAppend(kids[..i], [kids[i]], p);
      assert Select([kids[i]], p) == if kids[i].path == p then [kids[i]] else [];
    }
  }

  /** The same for one united child. */
  lemma GroupStep(kids: seq<Tree>, i: nat, p: string)
    requires i < |kids|
    ensures kids[i].path == p ==>
      && Group(kids[..i + 1], p).seen == Group(kids[..i], p).seen + kids[i].seen
      && Group(kids[..i + 1], p).kids == Group(kids[..i], p).kids + kids[i].kids
    ensures kids[i].path != p ==> Group(kids[..i + 1], p) == Group(kids[..i], p)
  {
    PoolStep(kids, i);
    if kids[i].path == p {
      ArrivalsAppend(Select(kids[..i], p), [kids[i]]);
      GrandKidsAppend(Select(kids[..i], p), [kids[i]]);
      assert Arrivals([kids[i]]) == kids[i].seen && GrandKids([kids[i]]) == kids[i].kids;
    } else {
      assert Select(kids[..i + 1], p) == Select(kids[..i], p);
    }
  }

  lemma {:induction false} TailsMembers(ps: seq<Path>, x: Path)
    ensures x in Tails(ps) <==> exists p :: p in ps && |p| > 1 && p[1..] == x
  {
    if ps != [] {
      TailsMembers(ps[1..], x);
      assert ps == [ps[0]] + ps[1..];
    }
  }

  /** Some path of the list consists of one segment. */
  ghost predicate SomeEnds(ps: seq<Path>) {
    exists i :: 0 <= i < |ps| && |ps[i]| == 1
  }

  lemma {:induction false} TailsCount(ps: seq<Path>)
    requires forall i :: 0 <= i < |ps| ==> ps[i] != []
    ensures |Tails(ps)| <= |ps|
    ensures |Tails(ps)| < |ps| <==> SomeEnds(ps)
  {
    if ps != [] {
      TailsCount(ps[1..]);
      if |ps[0]| == 1 {
        assert SomeEnds(ps);
      } else if SomeEnds(ps) {
        var i :| 0 <= i < |ps| && |ps[i]| == 1;
        assert |ps[1..][i - 1]| == 1;
      }
      if SomeEnds(ps[1..]) {
        var i :| 0 <= i < |ps[1..]| && |ps[1..][i]| == 1;
        assert |ps[i + 1]| == 1;
      }
    }
  }

  lemma {:induction false} ArrivalsMembers(kids: seq<Tree>, x: Path)
    ensures x in Arrivals(kids) <==> exists i :: 0 <= i < |kids| && x in kids[i].seen
  {
    if kids != [] {
      ArrivalsMembers(kids[1..], x);
      if i :| 0 <= i < |kids| && x in kids[i].seen {
        if i > 0 { assert x in kids[1..][i - 1].seen; }
      }
      if i :| 0 <= i < |kids[1..]| && x in kids[1..][i].seen { assert x in kids[i + 1].seen; }
    }
  }

  lemma SameMultisetMembers(a: seq<Path>, b: seq<Path>, x: Path)
    requires multiset(a) == multiset(b)
    ensures x in a <==> x in b
    ensures |a| == |b|
  {
    assert x in a <==> x in multiset(a);
    assert x in b <==> x in multiset(b);
    assert |multiset(a)| == |a| && |multiset(b)| == |b|;
  }

  // ---------------------------------------------------------------- insertion keeps the invariant

  lemma {:induction false} ArrivalsUpdate(kids: seq<Tree>, i: nat, k: Tree)
    requires i < |kids|
    ensures multiset(Arrivals(kids[i := k])) + multiset(kids[i].seen) ==
            multiset(Arrivals(kids)) + multiset(k.seen)
  {
    var kids' := kids[i := k];
    assert multiset(Arrivals(kids)) == multiset(kids[0].seen) + multiset(Arrivals(kids[1..]));
    assert multiset(Arrivals(kids')) == multiset(kids'[0].seen) + multiset(Arrivals(kids'[1..]));
    if i == 0 {
      assert kids'[1..] == kids[1..];
    } else {
      assert kids'[1..] == kids[1..][i - 1 := k];
      ArrivalsUpdate(kids[1..], i - 1, k);
      assert multiset(Arrivals(kids')) + multiset(kids[i].seen) ==
             multiset(kids[0].seen) + (multiset(Arrivals(kids'[1..])) + multiset(kids[i].seen));
      assert multiset(Arrivals(kids)) + multiset(k.seen) ==
             multiset(kids[0].seen) + (multiset(Arrivals(kids[1..])) + multiset(k.seen));
    }
  }

  lemma MultisetCancel<T>(x: multiset<T>, y: multiset<T>, a: multiset<T>, b: multiset<T>)
    requires x + a == y + (a + b)
    ensures x == y + b
  {
    assert x == (x + a) - a;
    assert y + b == (y + (a + b)) - a;
  }

  lemma InsertArrivals(kids: seq<Tree>, r: Path)
    requires r != []
    ensures multiset(Arrivals(InsertBelow(kids, r))) == multiset(Arrivals(kids)) + multiset{r}
  {
    var i := Find(kids, r[0]);
    if i == |kids| {
      var k := Visit(Fresh(r[0]), r);
      ArrivalsAppend(kids, [k]);
      assert Arrivals([k]) == k.seen + [] == [r];
    } else {
      var k := Visit(kids[i], r);
      ArrivalsUpdate(kids, i, k);
      assert multiset(k.seen) == multiset(kids[i].seen) + multiset{r};
      MultisetCancel(multiset(Arrivals(kids[i := k])), multiset(Arrivals(kids)), multiset(kids[i].seen), multiset{r});
    }
  }

  lemma HeadsAppend(path: string, a: seq<Path>, b: seq<Path>, strict: bool)
    ensures HeadsMatch(path, a + b, strict) <==> HeadsMatch(path, a, strict) && HeadsMatch(path, b, strict)
  {
    assert forall p :: p in a + b <==> p in a || p in b;
  }

  lemma VisitTails(seen: seq<Path>, kids: seq<Tree>, p: Path)
    requires p != [] && multiset(Tails(seen)) == multiset(Arrivals(kids))
    ensures multiset(Tails(seen + [p])) == multiset(Arrivals(InsertBelow(kids, p[1..])))
  {
    TailsAppend(seen, [p]);
    if |p| > 1 {
      InsertArrivals(kids, p[1..]);
      assert Tails([p]) == [p[1..]];
    } else {
      assert Tails([p]) == [];
    }
  }

  lemma VisitBalanced(t: Tree, p: Path, strict: bool)
    requires Balanced(t, strict) || t == Fresh(t.path)
    requires p != []
    ensures Balanced(Visit(t, p), strict) <==> HeadsMatch(t.path, [p], strict)
  {
    hide Arrivals, InsertBelow, Meaning, Tails, SegMatches, HeadsMatch;
    NothingSeen(t.path, strict);
    VisitTails(t.seen, t.kids, p);
    HeadsAppend(t.path, t.seen, [p], strict);
  }

  lemma NothingSeen(path: string, strict: bool)
    ensures Tails([]) == [] && Arrivals([]) == [] && HeadsMatch(path, [], strict)
  {
  }

  lemma OneHead(path: string, p: Path)
    requires p != []
    ensures HeadsMatch(path, [p], true) <==> SegMatches(Meaning(path), p[0])
    ensures SegMatches(Meaning(path), p[0]) || path == p[0] ==> HeadsMatch(path, [p], false)
  {
    assert p in [p];
  }

  /** A path inserted at a node that it matches, or that is made for it, keeps the invariant. */
  lemma {:induction false} InsertKeepsWF(t: Tree, p: Path)
    requires p != [] && (SegMatches(Meaning(t.path), p[0]) || t.path == p[0])
    requires WF(t, false) || t == Fresh(t.path)
    ensures WF(Visit(t, p), false)
    decreases |p|, 0
  {
    VisitBalanced(t, p, false);
    OneHead(t.path, p);
    if |p| > 1 {
      InsertBelowKeepsWF(t.kids, p[1..]);
    }
  }

  lemma {:induction false} InsertBelowKeepsWF(kids: seq<Tree>, r: Path)
    requires r != [] && AllWF(kids, false)
    ensures AllWF(InsertBelow(kids, r), false)
    decreases |r|, 1
  {
    var i := Find(kids, r[0]);
    InsertKeepsWF(if i == |kids| then Fresh(r[0]) else kids[i], r);
  }

  predicate NoDigitWildcard(p: Path) {
    forall i :: 0 <= i < |p| ==> p[i] != WILD_PATH_DIGIT
  }

  /** The search follows the path as far as there are children for it, and no new child is taken for the
      digit wildcard. */
  predicate Lands(kids: seq<Tree>, r: Path)
    decreases |r|
  {
    r != [] ==>
      var i := Find(kids, r[0]);
      if i == |kids| then NoDigitWildcard(r) else Lands(kids[i].kids, r[1..])
  }

  lemma {:induction false} LandsBelowNothing(r: Path)
    ensures Lands([], r) <==> NoDigitWildcard(r)
  {
  }

  /** The exact step: with all arrivals matching, they all match after an insertion if and only if the path
      matches the node and lands. */
  lemma {:induction false} InsertExact(t: Tree, p: Path)
    requires p != [] && (WF(t, true) || t == Fresh(t.path))
    ensures WF(Visit(t, p), true) <==> SegMatches(Meaning(t.path), p[0]) && Lands(t.kids, p[1..])
    decreases |p|, 0
  {
    VisitBalanced(t, p, true);
    OneHead(t.path, p);
    if |p| > 1 {
      InsertBelowExact(t.kids, p[1..]);
    }
  }

  lemma {:induction false} InsertBelowExact(kids: seq<Tree>, r: Path)
    requires r != [] && AllWF(kids, true)
    ensures AllWF(InsertBelow(kids, r), true) <==> Lands(kids, r)
    decreases |r|, 1
  {
    var i := Find(kids, r[0]);
    var k := if i == |kids| then Fresh(r[0]) else kids[i];
    InsertExact(k, r);
    NewHead(r);
    OneKidChanges(kids, i, Visit(k, r));
    hide WF, AllWF, Visit;
  }

  lemma OneKidChanges(kids: seq<Tree>, i: nat, k: Tree)
    requires AllWF(kids, true) && i <= |kids|
    ensures AllWF(if i == |kids| then kids + [k] else kids[i := k], true) <==> WF(k, true)
  {
    hide WF;
    var kids' := if i == |kids| then kids + [k] else kids[i := k];
    assert kids'[i] == k;
    assert forall j :: 0 <= j < |kids| && j != i ==> kids'[j] == kids[j];
  }

  lemma NewHead(r: Path)
    requires r != []
    ensures SegMatches(Meaning(r[0]), r[0]) <==> r[0] != WILD_PATH_DIGIT
    ensures NoDigitWildcard(r) <==> r[0] != WILD_PATH_DIGIT && Lands([], r[1..])
  {
    LandsBelowNothing(r[1..]);
    assert !IsDigit(WILD_PATH_DIGIT[1]);
    if r[0] != WILD_PATH_DIGIT && NoDigitWildcard(r[1..]) {
      forall i | 0 <= i < |r| ensures r[i] != WILD_PATH_DIGIT {
        if i > 0 { assert r[i] == r[1..][i - 1]; }
      }
    }
  }

  // ---------------------------------------------------------------- aggregation and the invariant

  lemma {:induction false} TailsPool(kids: seq<Tree>, strict: bool)
    requires AllWF(kids, strict)
    ensures multiset(Tails(Arrivals(kids))) == multiset(Arrivals(GrandKids(kids)))
    ensures AllWF(GrandKids(kids), strict)
  {
    if kids != [] {
      TailsPool(kids[1..], strict);
      TailsAppend(kids[0].seen, Arrivals(kids[1..]));
      ArrivalsAppend(kids[0].kids, GrandKids(kids[1..]));
      assert WF(kids[0], strict);
    }
  }

  lemma {:induction false} SelectMembers(kids: seq<Tree>, path: string, strict: bool)
    ensures forall k :: k in Select(kids, path) <==> k in kids && k.path == path
    ensures AllWF(kids, strict) ==> AllWF(Select(kids, path), strict)
  {
    if kids != [] {
      SelectMembers(kids[1..], path, strict);
      assert kids == [kids[0]] + kids[1..];
    }
  }

  lemma PooledBalanced(path: string, kids: seq<Tree>, strict: bool)
    requires kids != [] && AllWF(kids, strict) && AllHeadsMatch(path, kids, strict)
    ensures WF(Tree(path, Arrivals(kids), GrandKids(kids)), strict)
  {
    TailsPool(kids, strict);
    HeadsOfPool(path, kids, strict);
    assert WF(kids[0], strict) && kids[0].seen != [];
  }

  lemma GroupWF(kids: seq<Tree>, path: string, strict: bool)
    requires AllWF(kids, strict) && path in PathsOf(kids)
    ensures WF(Group(kids, path), strict)
  {
    SelectMembers(kids, path, strict);
    var k :| k in kids && k.path == path;
    assert k in Select(kids, path);
    assert forall i :: 0 <= i < |Select(kids, path)| ==> WF(Select(kids, path)[i], strict);
    assert forall i :: 0 <= i < |Select(kids, path)| ==> Select(kids, path)[i] in Select(kids, path);
    PooledBalanced(path, Select(kids, path), strict);
  }

  /** The kids that do not have the path, in order. */
  function Without(kids: seq<Tree>, path: string): seq<Tree> {
    if kids == [] then []
    else (if kids[0].path == path then [] else [kids[0]]) + Without(kids[1..], path)
  }

  lemma {:induction false} SplitArrivals(kids: seq<Tree>, path: string)
    ensures multiset(Arrivals(kids)) ==
            multiset(Arrivals(Select(kids, path))) + multiset(Arrivals(Without(kids, path)))
  {
    if kids != [] {
      var rest := kids[1..];
      SplitArrivals(rest, path);
      if kids[0].path == path {
        assert Select(kids, path) == [kids[0]] + Select(rest, path);
        assert Without(kids, path) == Without(rest, path);
        ArrivalsAppend([kids[0]], Select(rest, path));
      } else {
        assert Select(kids, path) == Select(rest, path);
        assert Without(kids, path) == [kids[0]] + Without(rest, path);
        ArrivalsAppend([kids[0]], Without(rest, path));
      }
      assert Arrivals([kids[0]]) == kids[0].seen;
    }
  }

  lemma {:induction false} WithoutMembers(kids: seq<Tree>, path: string)
    ensures forall k :: k in Without(kids, path) <==> k in kids && k.path != path
  {
    if kids != [] {
      WithoutMembers(kids[1..], path);
      assert kids == [kids[0]] + kids[1..];
    }
  }

  lemma {:induction false} SelectWithout(kids: seq<Tree>, path: string, other: string)
    requires other != path
    ensures Select(Without(kids, path), other) == Select(kids, other)
  {
    if kids != [] {
      SelectWithout(kids[1..], path, other);
      if kids[0].path != path {
        assert Without(kids, path)[1..] == Without(kids[1..], path);
      } else {
        assert Without(kids, path) == Without(kids[1..], path);
      }
    }
  }

  lemma {:induction false} GroupsArrivals(kids: seq<Tree>, merged: seq<Tree>)
    requires DistinctPaths(merged) && PathsOf(merged) == PathsOf(kids)
    requires forall i :: 0 <= i < |merged| ==> merged[i] == Group(kids, merged[i].path)
    ensures multiset(Arrivals(merged)) == multiset(Arrivals(kids))
    decreases |merged|
  {
    if merged == [] {
      assert PathsOf(merged) == {} && forall k :: k in kids ==> k.path in PathsOf(kids);
    } else {
      var x, rest, kids' := merged[0].path, merged[1..], Without(kids, merged[0].path);
      SplitArrivals(kids, x);
      WithoutPaths(kids, merged);
      forall i | 0 <= i < |rest| ensures rest[i] == Group(kids', rest[i].path) {
        assert rest[i] == merged[i + 1];
        SelectWithout(kids, x, rest[i].path);
      }
      GroupsArrivals(kids', rest);
    }
  }

  lemma WithoutPaths(kids: seq<Tree>, merged: seq<Tree>)
    requires merged != [] && DistinctPaths(merged) && PathsOf(merged) == PathsOf(kids)
    ensures PathsOf(Without(kids, merged[0].path)) == PathsOf(merged[1..])
  {
    var x := merged[0].path;
    WithoutMembers(kids, x);
    forall y ensures y in PathsOf(Without(kids, x)) <==> y in PathsOf(merged[1..]) {
      if y in PathsOf(Without(kids, x)) {
        var k :| k in Without(kids, x) && k.path == y;
        assert y in PathsOf(kids);
        var m :| m in merged && m.path == y;
        assert m in merged[1..];
      }
      if y in PathsOf(merged[1..]) {
        var m :| m in merged[1..] && m.path == y;
        assert y in PathsOf(merged);
        var k :| k in kids && k.path == y;
        assert k in Without(kids, x);
      }
    }
  }

  lemma MergeKeepsWF(kids: seq<Tree>, merged: seq<Tree>, strict: bool)
    requires AllWF(kids, strict) && MergesSame(kids, merged)
    ensures AllWF(merged, strict)
    ensures multiset(Arrivals(merged)) == multiset(Arrivals(kids))
  {
    if !DistinctPaths(kids) {
      GroupsArrivals(kids, merged);
      forall i | 0 <= i < |merged| ensures WF(merged[i], strict) {
        assert merged[i].path in PathsOf(merged);
        GroupWF(kids, merged[i].path, strict);
      }
    }
  }

  lemma WildTextsAreNotNumbers()
    ensures !AtoiOk(WithoutSlash(WILD_PATH_DIGIT)) && !AtoiOk(WithoutSlash(WILD_PATH_CHAR))
  {
    assert NextSlash(WILD_PATH_DIGIT, 0) == 0 && NextSlash(WILD_PATH_CHAR, 0) == 0;
    assert NextSlash(WILD_PATH_DIGIT, 1) == 7 && NextSlash(WILD_PATH_CHAR, 1) == 3;
    var d, c := WithoutSlash(WILD_PATH_DIGIT), WithoutSlash(WILD_PATH_CHAR);
    assert d[0] == '[' && c[0] == '.';
    assert Unsigned(d) == d && !AllDigits(d);
    assert Unsigned(c) == c && !AllDigits(c);
  }

  ghost predicate AllHeadsMatch(path: string, kids: seq<Tree>, strict: bool) {
    forall i :: 0 <= i < |kids| ==> HeadsMatch(path, kids[i].seen, strict)
  }

  lemma {:induction false} HeadsOfPool(path: string, kids: seq<Tree>, strict: bool)
    ensures HeadsMatch(path, Arrivals(kids), strict) <==> AllHeadsMatch(path, kids, strict)
  {
    if kids != [] {
      HeadsOfPool(path, kids[1..], strict);
      HeadsAppend(path, kids[0].seen, Arrivals(kids[1..]), strict);
    }
  }

  lemma NumberKid(k: Tree)
    requires AtoiOk(WithoutSlash(k.path))
    ensures WF(k, false) ==> HeadsMatch(WILD_PATH_DIGIT, k.seen, false)
    ensures WF(k, true) ==> (HeadsMatch(WILD_PATH_DIGIT, k.seen, true) <==> IsNumber(k.path))
  {
    WildTextsAreNotNumbers();
    assert Meaning(k.path) == Lit(k.path);
    if WF(k, false) || WF(k, true) { assert k.seen[0] in k.seen; }
  }

  /** Replacing children by one wildcard leaves all arrivals matching exactly when the digit wildcard is not
      chosen for a child that is not an unsigned number (strconv.Atoi also accepts a sign). */
  lemma CollapseExact(kids: seq<Tree>)
    requires kids != [] && AllWF(kids, true)
    ensures WF(WildChild(kids), true) <==>
            (DigitsOnly(kids) ==> forall i :: 0 <= i < |kids| ==> IsNumber(kids[i].path))
  {
    var w := WildChild(kids);
    HeadsOfPool(w.path, kids, true);
    if DigitsOnly(kids) {
      forall i | 0 <= i < |kids|
        ensures HeadsMatch(w.path, kids[i].seen, true) <==> IsNumber(kids[i].path)
      {
        NumberKid(kids[i]);
      }
      assert Balanced(w, true) ==> AllHeadsMatch(w.path, kids, true);
    } else {
      forall i | 0 <= i < |kids| ensures HeadsMatch(w.path, kids[i].seen, true) {
        assert WF(kids[i], true);
      }
    }
    if AllHeadsMatch(w.path, kids, true) {
      PooledBalanced(w.path, kids, true);
    }
  }

  /** It always leaves the safe arrivals matching. */
  lemma CollapseKeepsWF(kids: seq<Tree>)
    requires kids != [] && AllWF(kids, false)
    ensures WF(WildChild(kids), false)
  {
    var w := WildChild(kids);
    HeadsOfPool(w.path, kids, false);
    forall i | 0 <= i < |kids| ensures HeadsMatch(w.path, kids[i].seen, false) {
      assert WF(kids[i], false);
      if DigitsOnly(kids) { NumberKid(kids[i]); }
    }
    PooledBalanced(w.path, kids, false);
  }

  /** When all arrivals match, the wildcard stands for every one of them exactly then: when it fails, some
      arrival matches no pattern that the subtree prints. */
  lemma CollapseCompleteExactly(kids: seq<Tree>)
    requires kids != [] && AllWF(kids, true)
    ensures (forall p :: p in WildChild(kids).seen ==> Covered(WildChild(kids), p)) <==>
            (DigitsOnly(kids) ==> forall i :: 0 <= i < |kids| ==> IsNumber(kids[i].path))
  {
    var w := WildChild(kids);
    CollapseExact(kids);
    if WF(w, true) {
      hide WF, IsPattern, Matches, WildChild, DigitsOnly;
      forall p | p in w.seen ensures Covered(w, p) { var q := Complete(w, p, true); }
    } else {
      var i :| 0 <= i < |kids| && !IsNumber(kids[i].path);
      LostArrival(kids, i);
    }
  }

  lemma LostArrival(kids: seq<Tree>, i: nat)
    requires AllWF(kids, true) && DigitsOnly(kids) && i < |kids| && !IsNumber(kids[i].path)
    ensures exists p :: p in WildChild(kids).seen && !Covered(WildChild(kids), p)
  {
    var w := WildChild(kids);
    NumberKid(kids[i]);
    assert WF(kids[i], true);
    var p :| p in kids[i].seen && !(p != [] && SegMatches(Meaning(WILD_PATH_DIGIT), p[0]));
    assert p != [];
    ArrivalsMembers(kids, p);
    forall q | IsPattern(w, q) ensures !Matches(q, p) {
      assert q.segs[0] == Number;
    }
  }

  lemma {:induction false} ArrivalsSame(a: seq<Tree>, b: seq<Tree>)
    requires |a| == |b| && forall i :: 0 <= i < |a| ==> a[i].seen == b[i].seen
    ensures Arrivals(a) == Arrivals(b)
  {
    if a != [] { ArrivalsSame(a[1..], b[1..]); }
  }

  lemma SameArrivalsKeepWF(t: Tree, mids: seq<Tree>)
    requires WF(t, false) && AllWF(mids, false) && |mids| == |t.kids|
    requires forall i :: 0 <= i < |mids| ==> mids[i].seen == t.kids[i].seen
    ensures WF(t.(kids := mids), false)
  {
    ArrivalsSame(t.kids, mids);
  }

  ghost predicate AllSafe(ps: seq<Path>) {
    forall p :: p in ps ==> SafePath(p)
  }

  /** Aggregation keeps the invariant, and leaves the counter of every root as it was. With safe arrivals all
      still match. */
  lemma {:induction false} AggregateKeepsWF(t: Tree, t': Tree, threshold: nat)
    requires WF(t, false) && Aggregates(t, t', threshold)
    ensures WF(t', false) && t'.path == t.path && t'.seen == t.seen
    ensures AllSafe(t.seen) ==> WF(t', true)
    decreases t
  {
    hide CollapseStep, Balanced, AllSafe;
    var mids: seq<Tree> :|
      && |mids| == |t.kids|
      && (forall i :: 0 <= i < |mids| ==> Aggregates(t.kids[i], mids[i], threshold))
      && CollapseStep(t.(kids := mids), t', threshold);
    forall i | 0 <= i < |mids|
      ensures WF(mids[i], false) && mids[i].path == t.kids[i].path && mids[i].seen == t.kids[i].seen
    {
      AggregateKeepsWF(t.kids[i], mids[i], threshold);
    }
    SameArrivalsKeepWF(t, mids);
    CollapseStepKeepsWF(t.(kids := mids), t', threshold);
    if AllSafe(t.seen) { SafeIsStrict(t'); }
  }

  lemma ReplaceKids(t: Tree, kids: seq<Tree>)
    requires Balanced(t, false) && AllWF(kids, false)
    requires multiset(Arrivals(kids)) == multiset(Arrivals(t.kids))
    ensures WF(Tree(t.path, t.seen, kids), false)
  {
  }

  lemma CollapseStepKeepsWF(t: Tree, t': Tree, threshold: nat)
    requires WF(t, false) && CollapseStep(t, t', threshold)
    ensures WF(t', false) && t'.path == t.path && t'.seen == t.seen
  {
    if |t.kids| > threshold && SameLength(t.kids) {
      var w, k := WildChild(t.kids), t'.kids[0];
      CollapseKeepsWF(t.kids);
      MergeKeepsWF(w.kids, k.kids, false);
      ReplaceKids(w, k.kids);
      hide MergesSame;
      assert t'.kids == [k] && k == Tree(w.path, w.seen, k.kids);
      assert Arrivals([k]) == k.seen + Arrivals([]) == Arrivals(t.kids);
      ReplaceKids(t, t'.kids);
    }
  }

  /** When all paths that arrived are safe, nothing is excused. */
  lemma {:induction false} SafeIsStrict(t: Tree)
    requires WF(t, false) && AllSafe(t.seen)
    ensures WF(t, true)
    decreases t
  {
    SafeHeads(t);
    hide HeadsMatch, SafePath, AllSafe;
    forall i | 0 <= i < |t.kids| ensures WF(t.kids[i], true) {
      SafeKid(t, i);
      SafeIsStrict(t.kids[i]);
    }
  }

  lemma SafeHeads(t: Tree)
    requires HeadsMatch(t.path, t.seen, false) && AllSafe(t.seen)
    ensures HeadsMatch(t.path, t.seen, true)
  {
  }

  lemma SafeKid(t: Tree, i: nat)
    requires Balanced(t, false) && i < |t.kids| && AllSafe(t.seen)
    ensures AllSafe(t.kids[i].seen)
  {
    forall r | r in t.kids[i].seen ensures SafePath(r) { KidArrival(t, r, false); }
  }

  // ================================================================ completeness and soundness

  /** Some printed pattern matches the path. */
  ghost predicate Covered(t: Tree, p: Path) {
    exists q :: IsPattern(t, q) && Matches(q, p)
  }

  lemma EndsHereMeans(t: Tree, strict: bool)
    requires Balanced(t, strict) && AllWF(t.kids, strict)
    ensures EndsHere(t) <==> SomeEnds(t.seen)
    ensures |Arrivals(t.kids)| == 0 <==> t.kids == []
    ensures |t.seen| >= |Arrivals(t.kids)|
  {
    SameMultisetMembers(Tails(t.seen), Arrivals(t.kids), []);
    assert forall i :: 0 <= i < |t.seen| ==> t.seen[i] in t.seen;
    TailsCount(t.seen);
    if t.kids != [] {
      assert WF(t.kids[0], strict);
    }
  }

  /** The arrivals at the children are the tails of the arrivals at the node. */
  lemma KidArrival(t: Tree, r: Path, strict: bool)
    requires Balanced(t, strict)
    ensures (exists i :: 0 <= i < |t.kids| && r in t.kids[i].seen)
            <==> exists p :: p in t.seen && |p| > 1 && p[1..] == r
  {
    TailsMembers(t.seen, r);
    SameMultisetMembers(Tails(t.seen), Arrivals(t.kids), r);
    ArrivalsMembers(t.kids, r);
  }

  /** The path matches the text of the node, and nothing below it can go wrong. */
  predicate Apt(path: string, p: Path, strict: bool) {
    p != [] && (strict || (SegMatches(Meaning(path), p[0]) && SafePath(p[1..])))
  }

  /** Every path that arrived at a node leads to a pattern printed for its subtree, which it matches if it is
      apt. */
  lemma {:induction false} Complete(t: Tree, p: Path, strict: bool) returns (q: Pattern)
    requires WF(t, strict) && p in t.seen
    ensures IsPattern(t, q) && |q.segs| == |p| && (Apt(t.path, p, strict) ==> Matches(q, p))
    decreases t
  {
    assert p != [];
    if |p| == 1 {
      q := CompleteHere(t, p, strict);
    } else {
      KidArrival(t, p[1..], strict);
      var i :| 0 <= i < |t.kids| && p[1..] in t.kids[i].seen;
      var r := Complete(t.kids[i], p[1..], strict);
      AptBelow(t, i, p, strict);
      q := CompleteStep(t, i, p, r, strict);
    }
  }

  lemma AptBelow(t: Tree, i: nat, p: Path, strict: bool)
    requires i < |t.kids| && WF(t.kids[i], strict) && |p| > 1 && p[1..] in t.kids[i].seen
    ensures Apt(t.path, p, strict) ==> Apt(t.kids[i].path, p[1..], strict)
  {
    assert Balanced(t.kids[i], strict);
  }

  lemma CompleteHere(t: Tree, p: Path, strict: bool) returns (q: Pattern)
    requires Balanced(t, strict) && AllWF(t.kids, strict) && p in t.seen && |p| == 1
    ensures IsPattern(t, q) && |q.segs| == 1 && (Apt(t.path, p, strict) ==> Matches(q, p))
  {
    EndsHereMeans(t, strict);
    var i :| 0 <= i < |t.seen| && t.seen[i] == p;
    assert SomeEnds(t.seen);
    q := Pattern([Meaning(t.path)], |Arrivals(t.kids)| == 0);
  }

  lemma CompleteStep(t: Tree, i: nat, p: Path, r: Pattern, strict: bool) returns (q: Pattern)
    requires Balanced(t, strict) && i < |t.kids| && IsPattern(t.kids[i], r)
    requires p in t.seen && |p| > 1 && |r.segs| == |p| - 1
    requires Apt(t.path, p, strict) ==> Matches(r, p[1..])
    ensures IsPattern(t, q) && |q.segs| == |p| && (Apt(t.path, p, strict) ==> Matches(q, p))
  {
    q := Prefixed(Meaning(t.path), r);
    assert IsKidPattern(t.kids, r);
    MatchesStep(q, p);
  }

  lemma MatchesStep(q: Pattern, p: Path)
    requires q.segs != [] && p != []
    ensures Matches(q, p) <==> SegMatches(q.segs[0], p[0]) && Matches(Rest(q), p[1..])
  {
    if SegMatches(q.segs[0], p[0]) && Matches(Rest(q), p[1..]) {
      forall i | 0 <= i < |p| ensures SegMatches(q.segs[i], p[i]) {
        if i > 0 { assert SegMatches(Rest(q).segs[i - 1], p[1..][i - 1]); }
      }
    }
    if Matches(q, p) {
      forall i | 0 <= i < |p| - 1 ensures SegMatches(Rest(q).segs[i], p[1..][i]) {
        assert SegMatches(q.segs[i + 1], p[i + 1]);
      }
    }
  }

  /** Every pattern printed for a subtree stems from a path that arrived at its root, which matches it if it
      is apt. */
  lemma {:induction false} Sound(t: Tree, q: Pattern, strict: bool) returns (p: Path)
    requires WF(t, strict) && IsPattern(t, q)
    ensures p in t.seen && |q.segs| == |p| && (Apt(t.path, p, strict) ==> Matches(q, p))
    decreases t
  {
    hide Apt, HeadsMatch, Matches, Tails, Arrivals;
    if |q.segs| == 1 {
      p := SoundHere(t, q, strict);
    } else {
      var i :| 0 <= i < |t.kids| && IsPattern(t.kids[i], Rest(q));
      var r := Sound(t.kids[i], Rest(q), strict);
      p := SoundStep(t, i, q, r, strict);
    }
  }

  lemma SoundHere(t: Tree, q: Pattern, strict: bool) returns (p: Path)
    requires Balanced(t, strict) && AllWF(t.kids, strict) && EndsHere(t) && q.segs == [Meaning(t.path)]
    ensures p in t.seen && |p| == 1 && (Apt(t.path, p, strict) ==> Matches(q, p))
  {
    EndsHereMeans(t, strict);
    var i :| 0 <= i < |t.seen| && |t.seen[i]| == 1;
    p := t.seen[i];
  }

  lemma SoundStep(t: Tree, i: nat, q: Pattern, r: Path, strict: bool) returns (p: Path)
    requires Balanced(t, strict) && i < |t.kids| && WF(t.kids[i], strict) && r in t.kids[i].seen
    requires q.segs != [] && q.segs[0] == Meaning(t.path) && |q.segs| == |r| + 1
    requires Apt(t.kids[i].path, r, strict) ==> Matches(Rest(q), r)
    ensures p in t.seen && |q.segs| == |p| && (Apt(t.path, p, strict) ==> Matches(q, p))
  {
    KidArrival(t, r, strict);
    p :| p in t.seen && |p| > 1 && p[1..] == r;
    AptBelow(t, i, p, strict);
    MatchesStep(q, p);
  }

  // ---------------------------------------------------------------- what single steps cover

  /** A pattern of some child matches the remainder. */
  ghost predicate CoveredBelow(kids: seq<Tree>, r: Path) {
    exists i :: 0 <= i < |kids| && Covered(kids[i], r)
  }

  /** A path of several segments is covered below the node, if it matches it. */
  lemma CoveredStep(t: Tree, p: Path)
    requires |p| > 1
    ensures Covered(t, p) <==> SegMatches(Meaning(t.path), p[0]) && CoveredBelow(t.kids, p[1..])
  {
    if q :| IsPattern(t, q) && Matches(q, p) {
      MatchesStep(q, p);
      assert IsKidPattern(t.kids, Rest(q));
      var i :| 0 <= i < |t.kids| && IsPattern(t.kids[i], Rest(q));
      assert Covered(t.kids[i], p[1..]);
    }
    if SegMatches(Meaning(t.path), p[0]) && CoveredBelow(t.kids, p[1..]) {
      var i :| 0 <= i < |t.kids| && Covered(t.kids[i], p[1..]);
      var r :| IsPattern(t.kids[i], r) && Matches(r, p[1..]);
      var q := Prefixed(Meaning(t.path), r);
      assert IsKidPattern(t.kids, r);
      MatchesStep(q, p);
      assert IsPattern(t, q);
    }
  }

  /** A path that ends at a node is covered there, if it matches it. */
  lemma CoveredHere(t: Tree, p: Path)
    requires |p| == 1 && EndsHere(t)
    ensures Covered(t, p) <==> SegMatches(Meaning(t.path), p[0])
  {
    var q := Pattern([Meaning(t.path)], |Arrivals(t.kids)| == 0);
    assert IsPattern(t, q);
  }

  lemma VisitedEnds(t: Tree, p: Path)
    requires |p| == 1 && (WF(t, false) || t == Fresh(t.path))
    ensures EndsHere(Visit(t, p))
  {
    if t != Fresh(t.path) { EndsHereMeans(t, false); }
  }

  lemma CoveredWith(kids: seq<Tree>, i: nat, k: Tree, r: Path)
    requires i <= |kids|
    ensures CoveredBelow(if i == |kids| then kids + [k] else kids[i := k], r) <==>
            Covered(k, r) || exists j :: 0 <= j < |kids| && j != i && Covered(kids[j], r)
  {
    hide Covered;
    var kids' := if i == |kids| then kids + [k] else kids[i := k];
    assert kids'[i] == k;
    assert forall j :: 0 <= j < |kids| && j != i ==> kids'[j] == kids[j];
  }

  lemma KidCovers(kids: seq<Tree>, i: nat, k: Tree, r: Path, more: bool)
    requires i < |kids| && (Covered(k, r) <==> more || Covered(kids[i], r))
    ensures CoveredBelow(kids[i := k], r) <==> more || CoveredBelow(kids, r)
  {
    hide Covered;
    CoveredWith(kids, i, k, r);
    CoveredWith(kids, i, kids[i], r);
    assert kids[i := kids[i]] == kids;
  }

  /** After an insertion at a node that it matches, a path is covered if and only if it landed or was covered
      before; in trees of any run. */
  lemma {:induction false} InsertCoversExactly(t: Tree, p: Path)
    requires p != [] && SegMatches(Meaning(t.path), p[0])
    requires WF(t, false) || t == Fresh(t.path)
    ensures Covered(Visit(t, p), p) <==> Lands(t.kids, p[1..]) || Covered(t, p)
    decreases |p|, 0
  {
    if |p| == 1 {
      VisitedEnds(t, p);
      CoveredHere(Visit(t, p), p);
    } else {
      InsertBelowCoversExactly(t.kids, p[1..]);
      CoveredStep(t, p);
      CoveredStep(Visit(t, p), p);
    }
  }

  lemma {:induction false} InsertBelowCoversExactly(kids: seq<Tree>, r: Path)
    requires r != [] && AllWF(kids, false)
    ensures CoveredBelow(InsertBelow(kids, r), r) <==> Lands(kids, r) || CoveredBelow(kids, r)
    decreases |r|, 1
  {
    var i := Find(kids, r[0]);
    hide Covered, Visit, WF;
    if i == |kids| {
      NewKidCovers(r);
      CoveredWith(kids, i, Visit(Fresh(r[0]), r), r);
    } else {
      FoundMatches(kids[i].path, r[0]);
      InsertCoversExactly(kids[i], r);
      KidCovers(kids, i, Visit(kids[i], r), r, Lands(kids[i].kids, r[1..]));
    }
  }

  lemma FoundMatches(child: string, s: string)
    requires ChildMatches(child, s)
    ensures SegMatches(Meaning(child), s)
  {
  }

  /** A new child covers the remainder that it was made for, unless a segment is spelled like the digit
      wildcard. */
  lemma {:induction false} NewKidCovers(r: Path)
    requires r != []
    ensures Covered(Visit(Fresh(r[0]), r), r) <==> NoDigitWildcard(r)
    decreases |r|, 1
  {
    var k := Visit(Fresh(r[0]), r);
    NewHead(r);
    LandsBelowNothing(r[1..]);
    if |r| == 1 {
      VisitedEnds(Fresh(r[0]), r);
      CoveredHere(k, r);
    } else {
      CoveredStep(k, r);
      NewKidCovers(r[1..]);
      CoveredWith([], 0, Visit(Fresh(r[1]), r[1..]), r[1..]);
    }
  }

  /** Which children a collapse may not turn into the digit wildcard: those that a path is covered by. */
  ghost predicate CoversSome(k: Tree) {
    exists p :: p in k.seen && Covered(k, p)
  }

  /** Every path that a child covers, the tree covers. */
  ghost predicate CoversAsMuch(w: Tree, kids: seq<Tree>) {
    forall i, p :: 0 <= i < |kids| && p in kids[i].seen && Covered(kids[i], p) ==> Covered(w, p)
  }

  /** Replacing children by one wildcard uncovers no path exactly when the digit wildcard is not chosen for a
      child that covers some path and is not an unsigned number; in trees of any run. */
  lemma CollapseCoversExactly(kids: seq<Tree>)
    requires kids != [] && AllWF(kids, false)
    ensures CoversAsMuch(WildChild(kids), kids) <==>
            (DigitsOnly(kids) ==> forall i :: 0 <= i < |kids| && CoversSome(kids[i]) ==> IsNumber(kids[i].path))
  {
    hide Covered, IsNumber, WildChild, DigitsOnly, WF;
    var w := WildChild(kids);
    forall i, p | 0 <= i < |kids| && p in kids[i].seen && Covered(kids[i], p)
      ensures Covered(w, p) <==> (DigitsOnly(kids) ==> IsNumber(kids[i].path))
    {
      CollapseCovers(kids, i, p);
    }
    if CoversAsMuch(w, kids) && DigitsOnly(kids) {
      forall i | 0 <= i < |kids| && CoversSome(kids[i]) ensures IsNumber(kids[i].path) {
        var p :| p in kids[i].seen && Covered(kids[i], p);
        assert Covered(w, p);
      }
    }
  }

  lemma {:induction false} GrandKidsMembers(kids: seq<Tree>, i: nat, g: Tree)
    requires i < |kids| && g in kids[i].kids
    ensures g in GrandKids(kids)
  {
    if i > 0 { GrandKidsMembers(kids[1..], i - 1, g); }
  }

  lemma WildHead(kids: seq<Tree>, i: nat, s: string)
    requires i < |kids| && SegMatches(Meaning(kids[i].path), s)
    ensures SegMatches(Meaning(WildChild(kids).path), s) <==> (DigitsOnly(kids) ==> IsNumber(kids[i].path))
  {
    WildTextsAreNotNumbers();
  }

  lemma CollapseCovers(kids: seq<Tree>, i: nat, p: Path)
    requires AllWF(kids, false) && i < |kids| && p in kids[i].seen && Covered(kids[i], p)
    ensures Covered(WildChild(kids), p) <==> (DigitsOnly(kids) ==> IsNumber(kids[i].path))
  {
    CoveredHead(kids[i], p);
    WildHead(kids, i, p[0]);
    if |p| == 1 {
      CollapsedEnds(kids, i, p);
      CoveredHere(WildChild(kids), p);
    } else {
      CoveredStep(kids[i], p);
      CoveredStep(WildChild(kids), p);
      CoveredByGrandKid(kids, i, p[1..]);
    }
  }

  lemma CollapsedEnds(kids: seq<Tree>, i: nat, p: Path)
    requires AllWF(kids, false) && i < |kids| && p in kids[i].seen && |p| == 1
    ensures EndsHere(WildChild(kids))
  {
    var w := WildChild(kids);
    CollapseKeepsWF(kids);
    ArrivalsMembers(kids, p);
    EndsHereMeans(w, false);
    var j :| 0 <= j < |w.seen| && w.seen[j] == p;
    assert SomeEnds(w.seen);
  }

  lemma CoveredByGrandKid(kids: seq<Tree>, i: nat, r: Path)
    requires i < |kids| && CoveredBelow(kids[i].kids, r)
    ensures CoveredBelow(WildChild(kids).kids, r)
  {
    hide Covered;
    var g :| 0 <= g < |kids[i].kids| && Covered(kids[i].kids[g], r);
    GrandKidsMembers(kids, i, kids[i].kids[g]);
    var m :| 0 <= m < |GrandKids(kids)| && GrandKids(kids)[m] == kids[i].kids[g];
  }

  lemma CoveredHead(t: Tree, p: Path)
    requires Covered(t, p) && WF(t, false)
    ensures p != [] && SegMatches(Meaning(t.path), p[0])
  {
    var q :| IsPattern(t, q) && Matches(q, p);
    assert q.segs[0] == Meaning(t.path);
  }

  ghost predicate IsRendering(t: Tree, parent: string, x: string) {
    exists q :: IsPattern(t, q) && x == parent + Render(q)
  }

  /** The texts generatePaths adds are the renderings of the patterns. */
  lemma {:induction false} PrintedArePatterns(t: Tree, parent: string, x: string)
    ensures x in Printed(t, parent) <==> IsRendering(t, parent, x)
    decreases t
  {
    PrintedKidsMembers(t.kids, parent + t.path, x);
    forall i | 0 <= i < |t.kids|
      ensures x in Printed(t.kids[i], parent + t.path) <==> IsRendering(t.kids[i], parent + t.path, x)
    {
      PrintedArePatterns(t.kids[i], parent + t.path, x);
    }
    if x in Printed(t, parent) { PrintedIsRendering(t, parent, x); }
    if IsRendering(t, parent, x) { RenderingIsPrinted(t, parent, x); }
  }

  lemma TextOfMeaning(path: string)
    ensures SegText(Meaning(path)) == path
  {
  }

  lemma RenderPrefixed(g: Seg, r: Pattern)
    requires r.segs != []
    ensures Render(Prefixed(g, r)) == SegText(g) + Render(r)
  {
  }

  lemma PrintedIsRendering(t: Tree, parent: string, x: string)
    requires forall i :: 0 <= i < |t.kids| && x in Printed(t.kids[i], parent + t.path)
               ==> IsRendering(t.kids[i], parent + t.path, x)
    requires x in Printed(t, parent)
    ensures IsRendering(t, parent, x)
  {
    TextOfMeaning(t.path);
    if x in PrintedKids(t.kids, parent + t.path) {
      PrintedKidsMembers(t.kids, parent + t.path, x);
      var i :| 0 <= i < |t.kids| && x in Printed(t.kids[i], parent + t.path);
      KidRendering(t, i, parent, x);
    } else {
      var q := Pattern([Meaning(t.path)], |Arrivals(t.kids)| == 0);
      assert IsPattern(t, q) && x == parent + Render(q);
    }
  }

  lemma KidRendering(t: Tree, i: nat, parent: string, x: string)
    requires i < |t.kids| && IsRendering(t.kids[i], parent + t.path, x)
    ensures IsRendering(t, parent, x)
  {
    var r :| IsPattern(t.kids[i], r) && x == parent + t.path + Render(r);
    var q := Prefixed(Meaning(t.path), r);
    RenderPrefixed(Meaning(t.path), r);
    TextOfMeaning(t.path);
    assert IsKidPattern(t.kids, r) && IsPattern(t, q);
    assert parent + t.path + Render(r) == parent + (t.path + Render(r));
    assert x == parent + Render(q);
  }

  lemma RenderingIsPrinted(t: Tree, parent: string, x: string)
    requires forall i :: 0 <= i < |t.kids| && IsRendering(t.kids[i], parent + t.path, x)
               ==> x in Printed(t.kids[i], parent + t.path)
    requires IsRendering(t, parent, x)
    ensures x in Printed(t, parent)
  {
    TextOfMeaning(t.path);
    var q :| IsPattern(t, q) && x == parent + Render(q);
    if |q.segs| > 1 {
      var i := PatternBelow(t, q, parent);
      PrintedKidsMembers(t.kids, parent + t.path, x);
    }
  }

  lemma PatternBelow(t: Tree, q: Pattern, parent: string) returns (i: nat)
    requires IsPattern(t, q) && |q.segs| > 1
    ensures i < |t.kids| && IsRendering(t.kids[i], parent + t.path, parent + Render(q))
  {
    TextOfMeaning(t.path);
    assert IsKidPattern(t.kids, Rest(q));
    i :| 0 <= i < |t.kids| && IsPattern(t.kids[i], Rest(q));
    assert parent + t.path + Render(Rest(q)) == parent + (t.path + Render(Rest(q)));
  }

  lemma PrintedKidsStep(kids: seq<Tree>, i: nat, parent: string)
    requires i < |kids|
    ensures PrintedKids(kids[..i + 1], parent) == PrintedKids(kids[..i], parent) + Printed(kids[i], parent)
  {
    forall x ensures x in PrintedKids(kids[..i + 1], parent) <==>
                     x in PrintedKids(kids[..i], parent) || x in Printed(kids[i], parent)
    {
      PrintedKidsMembers(kids[..i + 1], parent, x);
      PrintedKidsMembers(kids[..i], parent, x);
      var fewer, more := kids[..i], kids[..i + 1];
      if k :| 0 <= k < |fewer| && x in Printed(fewer[k], parent) { assert x in Printed(more[k], parent); }
      if k :| 0 <= k < |more| && x in Printed(more[k], parent) {
        if k < i { assert x in Printed(fewer[k], parent); }
      }
      if x in Printed(kids[i], parent) { assert x in Printed(kids[..i + 1][i], parent); }
    }
  }

  lemma {:induction false} PrintedKidsMembers(kids: seq<Tree>, parent: string, x: string)
    ensures x in PrintedKids(kids, parent) <==> exists i :: 0 <= i < |kids| && x in Printed(kids[i], parent)
  {
    if kids != [] {
      PrintedKidsMembers(kids[1..], parent, x);
      if i :| 0 <= i < |kids| && x in Printed(kids[i], parent) {
        if i > 0 { assert x in Printed(kids[1..][i - 1], parent); }
      }
      if i :| 0 <= i < |kids[1..]| && x in Printed(kids[1..][i], parent) {
        assert x in Printed(kids[i + 1], parent);
      }
    }
  }
}
