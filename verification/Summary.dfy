/** Re-keying of summary counters by aggregated paths: which counters are added up under which key. */
module Summary {
  import opened Paths
  import opened SysTrie
  import opened SysForest

  /** A summary key. The fields the aggregation never looks at are one text. */
  datatype Entry = Entry(operation: string, podName: string, source: string, destination: string, rest: string)

  datatype TimeCount = TimeCount(count: int, updatedTime: int)

  type Counters = map<Entry, TimeCount>

  const FILE_OPERATION: string := "File"

  predicate IsFile(s: Entry) { s.operation == FILE_OPERATION }

  /** The key under which the file paths of a process are aggregated. */
  function GroupKey(s: Entry): string { s.podName + "_" + s.source }

  // ================================================================ totals

  /** All fields but the destination. */
  function Erased(s: Entry): Entry { s.(destination := "") }

  /** The total count of the summaries that agree with g in all fields but the destination. */
  ghost function Total(m: Counters, g: Entry): int
    decreases |m|
  {
    if m == map[] then 0
    else
      var k :| k in m;
      (if Erased(k) == Erased(g) then m[k].count else 0) + Total(m - {k}, g)
  }

  lemma {:induction false} TotalWithout(m: Counters, k: Entry, g: Entry)
    requires k in m
    ensures Total(m, g) == (if Erased(k) == Erased(g) then m[k].count else 0) + Total(m - {k}, g)
    decreases |m|
  {
    var k0 :| k0 in m && Total(m, g) == (if Erased(k0) == Erased(g) then m[k0].count else 0) + Total(m - {k0}, g);
    if k != k0 {
      TotalWithout(m - {k0}, k, g);
      TotalWithout(m - {k}, k0, g);
      assert m - {k} - {k0} == m - {k0} - {k};
    }
  }

  /** Setting one counter changes the total of its group by the difference. */
  lemma TotalWith(m: Counters, k: Entry, v: TimeCount, g: Entry)
    ensures Total(m[k := v], g) ==
      Total(m, g) + if Erased(k) == Erased(g) then v.count - (if k in m then m[k].count else 0) else 0
  {
    TotalWithout(m[k := v], k, g);
    if k in m {
      TotalWithout(m, k, g);
      assert m[k := v] - {k} == m - {k};
    } else {
      assert m[k := v] - {k} == m;
    }
  }

  // ================================================================ re-keying

  function TrimSlash(p: string): string {
    if HasSlash(p) then p[..|p| - 1] else p
  }

  /** The test that decides whether an aggregated path stands for a destination. */
  predicate Matches(dest: string, p: string) {
    p <= dest && (|dest| == |p| || dest[|TrimSlash(p)|] == '/')
  }

  function RekeyIn(files: seq<SysPath>, s: Entry): Entry {
    if files == [] then s
    else if Matches(s.destination, files[0].path) then s.(destination := files[0].path)
    else RekeyIn(files[1..], s)
  }

  /** The key a file summary is counted under. */
  function Rekey(agg: map<string, seq<SysPath>>, s: Entry): Entry {
    if GroupKey(s) in agg then RekeyIn(agg[GroupKey(s)], s) else s
  }

  lemma {:induction false} RekeyInKeeps(files: seq<SysPath>, s: Entry)
    ensures Erased(RekeyIn(files, s)) == Erased(s)
  {
    if files != [] { RekeyInKeeps(files[1..], s); }
  }

  /** Re-keying changes nothing but the destination. */
  lemma RekeyKeeps(agg: map<string, seq<SysPath>>, s: Entry)
    ensures Erased(Rekey(agg, s)) == Erased(s) && (IsFile(Rekey(agg, s)) <==> IsFile(s))
  {
    if GroupKey(s) in agg { RekeyInKeeps(agg[GroupKey(s)], s); }
    assert Erased(Rekey(agg, s)).operation == Rekey(agg, s).operation;
  }

  // ================================================================ the aggregated counters

  ghost function FileEntries(m: Counters): Counters {
    map s | s in m && IsFile(s) :: m[s]
  }

  ghost function OtherEntries(m: Counters): Counters {
    map s | s in m && !IsFile(s) :: m[s]
  }

  /** The counts of the file summaries that are counted under k. */
  ghost function CountAt(files: Counters, agg: map<string, seq<SysPath>>, k: Entry): int
    decreases |files|
  {
    if files == map[] then 0
    else
      var s :| s in files;
      (if Rekey(agg, s) == k then files[s].count else 0) + CountAt(files - {s}, agg, k)
  }

  lemma {:induction false} CountWithout(files: Counters, agg: map<string, seq<SysPath>>, k: Entry, s: Entry)
    requires s in files
    ensures CountAt(files, agg, k) == (if Rekey(agg, s) == k then files[s].count else 0) + CountAt(files - {s}, agg, k)
    decreases |files|
  {
    var s0 :| s0 in files
      && CountAt(files, agg, k) == (if Rekey(agg, s0) == k then files[s0].count else 0) + CountAt(files - {s0}, agg, k);
    if s != s0 {
      CountWithout(files - {s0}, agg, k, s);
      CountWithout(files - {s}, agg, k, s0);
      assert files - {s} - {s0} == files - {s0} - {s};
    }
  }

  lemma {:induction false} CountSame(files: Counters, a: map<string, seq<SysPath>>, b: map<string, seq<SysPath>>,
                                     k: Entry)
    requires forall s :: s in files ==> Rekey(a, s) == Rekey(b, s)
    ensures CountAt(files, a, k) == CountAt(files, b, k)
    decreases |files|
  {
    if files != map[] {
      var s :| s in files;
      CountWithout(files, a, k, s);
      CountWithout(files, b, k, s);
      CountSame(files - {s}, a, b, k);
    }
  }

  ghost predicate CountedUnder(files: Counters, agg: map<string, seq<SysPath>>, k: Entry, s: Entry) {
    s in files && Rekey(agg, s) == k
  }

  ghost predicate SomeCounted(files: Counters, agg: map<string, seq<SysPath>>, k: Entry) {
    exists s :: CountedUnder(files, agg, k, s)
  }

  /** t is the latest time of the file summaries counted under k. */
  ghost predicate LatestAt(files: Counters, agg: map<string, seq<SysPath>>, k: Entry, t: int) {
    && (forall s :: CountedUnder(files, agg, k, s) ==> files[s].updatedTime <= t)
    && exists s :: CountedUnder(files, agg, k, s) && files[s].updatedTime == t
  }

  /** r holds the other counters as they were, and under each key of a file summary the summed count and
      the latest time of the summaries counted there. */
  ghost predicate Folded(other: Counters, files: Counters, agg: map<string, seq<SysPath>>, r: Counters) {
    && (forall k :: k in other ==> k in r && r[k] == other[k])
    && (forall s :: s in files ==> Rekey(agg, s) in r)
    && forall k :: k in r && k !in other ==>
      r[k].count == CountAt(files, agg, k) && LatestAt(files, agg, k, r[k].updatedTime)
  }

  /** The folded counters are determined by the re-keying. */
  lemma FoldedUnique(other: Counters, files: Counters, a: map<string, seq<SysPath>>, b: map<string, seq<SysPath>>,
                     r: Counters, q: Counters)
    requires Folded(other, files, a, r) && Folded(other, files, b, q)
    requires forall s :: s in files ==> Rekey(a, s) == Rekey(b, s)
    ensures r == q
  {
    forall k ensures k in r <==> k in q {
      KeysOfFolded(other, files, a, r, k);
      KeysOfFolded(other, files, b, q, k);
      forall s ensures CountedUnder(files, a, k, s) <==> CountedUnder(files, b, k, s) {}
      assert SomeCounted(files, a, k) <==> SomeCounted(files, b, k);
    }
    forall k | k in r ensures r[k] == q[k] {
      if k !in other {
        CountSame(files, a, b, k);
        LatestUnique(files, a, b, k, r[k].updatedTime, q[k].updatedTime);
      }
    }
  }

  lemma KeysOfFolded(other: Counters, files: Counters, agg: map<string, seq<SysPath>>, r: Counters, k: Entry)
    requires Folded(other, files, agg, r)
    ensures k in r <==> k in other || SomeCounted(files, agg, k)
  {
  }

  lemma LatestUnique(files: Counters, a: map<string, seq<SysPath>>, b: map<string, seq<SysPath>>, k: Entry, t: int,
                     u: int)
    requires LatestAt(files, a, k, t) && LatestAt(files, b, k, u)
    requires forall s :: s in files ==> Rekey(a, s) == Rekey(b, s)
    ensures t == u
  {
    forall s ensures CountedUnder(files, a, k, s) <==> CountedUnder(files, b, k, s) {}
    var s :| CountedUnder(files, a, k, s) && files[s].updatedTime == t;
    var s' :| CountedUnder(files, b, k, s') && files[s'].updatedTime == u;
  }

  // ================================================================ at most one path covers a destination

  /** A token that does not end in a slash: not the one of two slashes. */
  predicate IsSegment(t: string) {
    IsToken(t) && t != "//"
  }

  ghost predicate AllSegments(f: set<Path>) {
    forall p, i :: p in f && 0 <= i < |p| ==> IsSegment(p[i])
  }

  /** A path whose text begins another and ends there at a slash, or with it, begins its tokens. */
  lemma {:induction false} BeginsTokens(a: Path, s: string)
    requires AllTokens(a) && Concat(a) <= s && (|s| == |Concat(a)| || s[|Concat(a)|] == '/')
    ensures a <= Tokenize(s)
  {
    if a != [] {
      var t, rest := a[0], a[1..];
      assert IsToken(t);
      ConcatStartsWithSlash(rest);
      assert s[..|t|] == t by { assert Concat(a)[..|t|] == t; }
      assert forall k :: 0 <= k < |t| ==> s[k] == t[k];
      assert |t| < |s| ==> s[|t|] == '/' by {
        if rest != [] { assert s[|t|] == Concat(a)[|t|] == Concat(rest)[0]; }
      }
      assert NextSlash(s, 2) == |t|;
      BeginsRest(t, rest, s);
      BeginsTokens(rest, s[|t|..]);
      assert a == [t] + rest;
    }
  }

  lemma BeginsRest(t: string, rest: Path, s: string)
    requires t + Concat(rest) <= s && (|s| == |t| + |Concat(rest)| || s[|t| + |Concat(rest)|] == '/')
    ensures Concat(rest) <= s[|t|..]
    ensures |s[|t|..]| == |Concat(rest)| || s[|t|..][|Concat(rest)|] == '/'
  {
  }

  lemma OutputSegments(f: set<Path>, o: Out)
    requires AllSegments(f) && Aggregated(f, o)
    ensures o.path != [] && AllTokens(o.path) && !HasSlash(Concat(o.path))
  {
    var p :| p in f && p != [] && CutOf(f, p, o);
    if p[0] != TMP { CutCovers(f, p, 1, o); }
    forall i | 0 <= i < |o.path| ensures IsSegment(o.path[i]) { assert o.path[i] == p[i]; }
    EndsInSegment(o.path);
  }

  lemma {:induction false} EndsInSegment(p: Path)
    requires p != [] && forall i :: 0 <= i < |p| ==> IsSegment(p[i])
    ensures !HasSlash(Concat(p))
  {
    assert IsSegment(p[0]);
    if |p| > 1 {
      EndsInSegment(p[1..]);
      assert AllTokens(p[1..]) by {
        forall i | 0 <= i < |p[1..]| ensures IsToken(p[1..][i]) { assert IsSegment(p[i + 1]); }
      }
      ConcatStartsWithSlash(p[1..]);
    } else {
      assert p[1..] == [] && Concat(p) == p[0];
      assert |p[0]| > 2 ==> p[0][|p[0]| - 1] != '/';
    }
  }

  /** An output that matches a destination begins its tokens. */
  lemma MatchBegins(f: set<Path>, o: Out, dest: string)
    requires AllSegments(f) && Aggregated(f, o) && Matches(dest, Text(o))
    ensures o.path <= Tokenize(dest) && AllTokens(o.path)
  {
    OutputSegments(f, o);
    var x := Concat(o.path);
    assert TrimSlash(Text(o)) == x by { assert (x + "/")[..|x|] == x; }
    BeginsTokens(o.path, dest);
  }

  /** At most one aggregated path stands for any destination. */
  lemma OneMatch(f: set<Path>, a: Out, b: Out, dest: string)
    requires AllSegments(f) && Aggregated(f, a) && Aggregated(f, b)
    requires Matches(dest, Text(a)) && Matches(dest, Text(b))
    ensures a == b
  {
    MatchBegins(f, a, dest);
    MatchBegins(f, b, dest);
    if |a.path| <= |b.path| {
      assert a.path <= b.path;
      OutputsAreSeparate(f, a, b);
    } else {
      assert b.path <= a.path;
      OutputsAreSeparate(f, b, a);
    }
  }

  lemma ConcatTwo(a: string, b: string)
    ensures Concat([a, b]) == a + b
  {
    assert [a, b][1..] == [b] && [b][1..] == [];
    assert Concat([b]) == b + "" == b;
  }

  /** Below a directory whose last segment is two slashes: the directory and a file beside it both match. */
  lemma TwoMatches(f: set<Path>) returns (a: Out, b: Out)
    requires f == {["/a", "//", "/w"], ["/a", "//", "/x"], ["/a", "//", "/y"], ["/a", "//", "/z"], ["/a", "//b"]}
    ensures Aggregated(f, a) && Aggregated(f, b) && a != b
    ensures Matches("/a//b", Text(a)) && Matches("/a//b", Text(b))
  {
    a, b := Out(["/a", "//"], true), Out(["/a", "//b"], false);
    DoubleSlashCuts(f);
    ConcatTwo("/a", "//");
    ConcatTwo("/a", "//b");
    assert Text(a) == "/a//" && TrimSlash("/a//") == "/a/";
    assert Text(b) == "/a//b" && !HasSlash("/a//b");
  }

  lemma DoubleSlashCuts(f: set<Path>)
    requires f == {["/a", "//", "/w"], ["/a", "//", "/x"], ["/a", "//", "/y"], ["/a", "//", "/z"], ["/a", "//b"]}
    ensures Aggregated(f, Out(["/a", "//"], true)) && Aggregated(f, Out(["/a", "//b"], false))
  {
    var p, q := ["/a", "//", "/w"], ["/a", "//b"];
    assert p in f && q in f;
    ChildrenOfDoubleSlash(f);
    assert p[..2] == ["/a", "//"] && p[..1] == ["/a"] && q[..1] == ["/a"] && q[..2] == q;
    hide ChildSegs;
    assert FirstFull(f, p, 1, 2);
    assert NoneFull(f, q, 1);
    assert CutOf(f, p, Out(["/a", "//"], true)) && CutOf(f, q, Out(q, false));
  }

  lemma ChildrenOfDoubleSlash(f: set<Path>)
    requires f == {["/a", "//", "/w"], ["/a", "//", "/x"], ["/a", "//", "/y"], ["/a", "//", "/z"], ["/a", "//b"]}
    ensures ChildSegs(f, ["/a"]) == {"//", "//b"} && ChildSegs(f, ["/a", "//"]) == {"/w", "/x", "/y", "/z"}
    ensures ChildSegs(f, ["/a", "//b"]) == {}
  {
    var a, d, b := ["/a"], ["/a", "//"], ["/a", "//b"];
    assert forall x :: d < ["/a", "//", x] && ["/a", "//", x][2] == x;
    assert a < b && b[1] == "//b" && a < ["/a", "//", "/w"] && ["/a", "//", "/w"][1] == "//";
    assert d[1] != b[1];
  }

  lemma {:induction false} RekeyInFirst(files: seq<SysPath>, s: Entry) returns (i: nat)
    ensures i <= |files|
    ensures i == |files| ==>
      RekeyIn(files, s) == s && forall j :: 0 <= j < |files| ==> !Matches(s.destination, files[j].path)
    ensures i < |files| ==>
      Matches(s.destination, files[i].path) && RekeyIn(files, s) == s.(destination := files[i].path)
  {
    if files == [] {
      i := 0;
    } else if Matches(s.destination, files[0].path) {
      i := 0;
    } else {
      i := RekeyInFirst(files[1..], s);
      i := i + 1;
    }
  }

  ghost predicate SomeMatch(files: seq<SysPath>, dest: string) {
    exists k :: 0 <= k < |files| && Matches(dest, files[k].path)
  }

  lemma SameMatch(f: set<Path>, a: seq<SysPath>, outsA: seq<Out>, b: seq<SysPath>, outsB: seq<Out>, dest: string)
    requires ListsOutputs(a, outsA, f) && ListsOutputs(b, outsB, f) && SomeMatch(a, dest)
    ensures SomeMatch(b, dest)
  {
    var k :| 0 <= k < |a| && Matches(dest, a[k].path);
    assert outsA[k] in outsA && outsA[k] in outsB;
    var l :| 0 <= l < |outsB| && outsB[l] == outsA[k];
    assert b[l].path == a[k].path;
  }

  /** The key does not depend on the order in which the aggregated paths are listed. */
  lemma RekeyIsOrderFree(f: set<Path>, a: seq<SysPath>, outsA: seq<Out>, b: seq<SysPath>, outsB: seq<Out>, s: Entry)
    requires AllSegments(f) && ListsOutputs(a, outsA, f) && ListsOutputs(b, outsB, f)
    ensures RekeyIn(a, s) == RekeyIn(b, s)
  {
    hide Aggregated, AllSegments, RekeyIn, SysPathOf, Matches;
    var i := RekeyInFirst(a, s);
    var j := RekeyInFirst(b, s);
    if SomeMatch(a, s.destination) {
      SameMatch(f, a, outsA, b, outsB, s.destination);
      assert outsA[i] in outsA && outsB[j] in outsB;
      assert a[i].path == Text(outsA[i]) && b[j].path == Text(outsB[j]);
      OneMatch(f, outsA[i], outsB[j], s.destination);
    } else if SomeMatch(b, s.destination) {
      SameMatch(f, b, outsB, a, outsA, s.destination);
    }
  }

  // ================================================================ all groups

  ghost function FilesOf(m: Counters, key: string): set<string> {
    set s | s in m && IsFile(s) && GroupKey(s) == key :: s.destination
  }

  ghost function TokensOf(m: Counters, key: string): set<Path> {
    set d | d in FilesOf(m, key) && Tokenize(d) != [] :: Tokenize(d)
  }

  /** The destinations of every group have no segment of two slashes, and none but the first literally a wildcard. */
  ghost predicate CleanDestinations(m: Counters) {
    forall s :: s in m && IsFile(s) ==> AllSegments(TokensOf(m, GroupKey(s))) && AllPlainBelow(TokensOf(m, GroupKey(s)))
  }

  ghost predicate AggregatesGroup(m: Counters, agg: map<string, seq<SysPath>>, key: string) {
    key in agg && (AllPlainBelow(TokensOf(m, key)) ==> exists outs :: ListsOutputs(agg[key], outs, TokensOf(m, key)))
  }

  /** agg lists, for each group, what its destinations aggregate to. */
  ghost predicate AggregatesGroups(m: Counters, agg: map<string, seq<SysPath>>) {
    forall s :: s in m && IsFile(s) ==> AggregatesGroup(m, agg, GroupKey(s))
  }

  lemma SameRekey(m: Counters, a: map<string, seq<SysPath>>, b: map<string, seq<SysPath>>, s: Entry)
    requires CleanDestinations(m) && AggregatesGroups(m, a) && AggregatesGroups(m, b) && s in m && IsFile(s)
    ensures Rekey(a, s) == Rekey(b, s)
  {
    hide AllSegments, AllPlainBelow, ListsOutputs;
    var f := TokensOf(m, GroupKey(s));
    assert AggregatesGroup(m, a, GroupKey(s)) && AggregatesGroup(m, b, GroupKey(s));
    var outsA :| ListsOutputs(a[GroupKey(s)], outsA, f);
    var outsB :| ListsOutputs(b[GroupKey(s)], outsB, f);
    RekeyIsOrderFree(f, a[GroupKey(s)], outsA, b[GroupKey(s)], outsB, s);
  }

  /** What aggregating the counters m may give. */
  ghost predicate IsAggregate(m: Counters, r: Counters) {
    exists agg :: AggregatesGroups(m, agg) && Folded(OtherEntries(m), FileEntries(m), agg, r)
  }

  /** The aggregated counters are independent of every map iteration order. */
  lemma AggregateIsOrderFree(m: Counters, r: Counters, q: Counters)
    requires CleanDestinations(m) && IsAggregate(m, r) && IsAggregate(m, q)
    ensures r == q
  {
    hide CleanDestinations, AggregatesGroups, Folded, Rekey;
    var a :| AggregatesGroups(m, a) && Folded(OtherEntries(m), FileEntries(m), a, r);
    var b :| AggregatesGroups(m, b) && Folded(OtherEntries(m), FileEntries(m), b, q);
    forall s | s in FileEntries(m) ensures Rekey(a, s) == Rekey(b, s) { SameRekey(m, a, b, s); }
    FoldedUnique(OtherEntries(m), FileEntries(m), a, b, r, q);
  }
}
