/** The stored file set of one workload process: what one update makes of the stored and the observed
    resources, and what holds after any number of updates. */
module FileSet {
  import opened Paths
  import opened SysTrie
  import opened SysForest
  import opened DirPath

  // ================================================================ clean resources

  /** Segments that are names, none but the first literally a wildcard. */
  ghost predicate PlainNames(ts: Path) {
    AllNames(ts) && (ts != [] ==> PlainPath(ts[1..]))
  }

  /** A clean absolute file path. */
  ghost predicate IsFile(s: string) {
    Tokenize(s) != [] && s == Concat(Tokenize(s)) && PlainNames(Tokenize(s))
  }

  /** The segments of a directory text, which ends in a slash; none for the root. */
  function DirTokens(s: string): Path
    requires HasSlash(s)
  {
    Tokenize(s[..|s| - 1])
  }

  ghost predicate IsDirectory(s: string) {
    HasSlash(s) && s == Concat(DirTokens(s)) + "/" && PlainNames(DirTokens(s))
  }

  /** Clean absolute resources; the empty text is dropped by the update. */
  ghost predicate CleanSet(m: set<string>) {
    forall s :: s in m ==> s == "" || IsFile(s) || IsDirectory(s)
  }

  lemma NamesAreTokens(ts: Path)
    requires AllNames(ts)
    ensures AllTokens(ts)
  {
    forall i | 0 <= i < |ts| ensures IsToken(ts[i]) { assert IsName(ts[i]); }
  }

  lemma NamesFile(ts: Path)
    requires PlainNames(ts) && ts != []
    ensures IsFile(Concat(ts)) && Tokenize(Concat(ts)) == ts
  {
    NamesAreTokens(ts);
    TokenizeConcat(ts);
  }

  lemma NamesDirectory(ts: Path)
    requires PlainNames(ts)
    ensures IsDirectory(Concat(ts) + "/") && DirTokens(Concat(ts) + "/") == ts
  {
    var d := Concat(ts) + "/";
    NamesAreTokens(ts);
    TokenizeConcat(ts);
    assert d[..|d| - 1] == Concat(ts);
  }

  /** A clean file does not end in a slash. */
  lemma FileHasNoSlash(s: string)
    requires IsFile(s)
    ensures !HasSlash(s)
  {
    var ts := Tokenize(s);
    ConcatOfLast(ts);
    var t := ts[|ts| - 1];
    assert IsName(t) && s[|s| - 1] == t[|t| - 1];
    assert |t| == 2 ==> t[|t| - 1] == t[1];
  }

  /** A stored directory covers exactly the files whose segments continue its own. */
  lemma DirectoryCovers(d: string, x: string)
    requires IsDirectory(d) && IsFile(x)
    ensures d < x <==> DirTokens(d) < Tokenize(x)
  {
    NamesAreTokens(DirTokens(d));
    NamesAreTokens(Tokenize(x));
    UnderDirectory(DirTokens(d), Tokenize(x));
    FileHasNoSlash(x);
  }

  // ================================================================ one update

  /** A file stays in the list unless its own directory is listed. */
  predicate KeptFile(m: set<string>, x: string) {
    x in m && x != "" && !HasSlash(x) && Dir(x) + "/" !in m
  }

  ghost function FileTokens(m: set<string>): set<Path> {
    set x | x in m && KeptFile(m, x) && Tokenize(x) != [] :: Tokenize(x)
  }

  /** The merged list: the listed directories, and the aggregated remaining files. */
  ghost predicate InExt(m: set<string>, e: string) {
    (e in m && HasSlash(e)) || exists o :: Aggregated(FileTokens(m), o) && e == Text(o)
  }

  ghost predicate InExtDir(m: set<string>, d: string) {
    InExt(m, d) && HasSlash(d)
  }

  /** What pruning leaves: nothing below a directory of the list. */
  ghost predicate Kept(m: set<string>, e: string) {
    InExt(m, e) && forall d :: InExtDir(m, d) ==> !(d < e)
  }

  /** Shorter first, equal lengths in text order, nothing twice. */
  ghost predicate StrictlySorted(r: seq<string>) {
    forall i, j :: 0 <= i < j < |r| ==> LenLexLess(r[i], r[j])
  }

  /** The new stored list for the stored and observed resources m. */
  ghost predicate IsUpdate(m: set<string>, r: seq<string>) {
    StrictlySorted(r) && forall e :: e in r <==> Kept(m, e)
  }

  ghost function Members(s: seq<string>): set<string> {
    set x | x in s
  }

  lemma LenLexOrder(a: string, b: string)
    ensures !LenLexLess(a, a) && !(LenLexLess(a, b) && LenLexLess(b, a))
    ensures LenLexLess(a, b) || a == b || LenLexLess(b, a)
  {
    LexTotal(a, b);
    LexTotal(a, a);
  }

  lemma {:induction false} SortedSame(a: seq<string>, b: seq<string>)
    requires StrictlySorted(a) && StrictlySorted(b) && forall x :: x in a <==> x in b
    ensures a == b
    decreases |a|
  {
    if a == [] {
      assert forall i :: 0 <= i < |b| ==> b[i] in b;
    } else {
      assert a[0] in a && a[0] in b;
      assert b[0] in b && b[0] in a;
      LenLexOrder(a[0], b[0]);
      assert a[0] == b[0];
      TailMembers(a);
      TailMembers(b);
      SortedSame(a[1..], b[1..]);
    }
  }

  lemma TailMembers(a: seq<string>)
    requires StrictlySorted(a) && a != []
    ensures forall x :: x in a[1..] <==> x in a && x != a[0]
  {
    LenLexOrder(a[0], a[0]);
    forall x | x in a && x != a[0] ensures x in a[1..] {
      var i :| 0 <= i < |a| && a[i] == x;
      assert a[1..][i - 1] == x;
    }
  }

  /** The update is canonical: it depends only on the set of stored and observed resources. */
  lemma UpdateIsCanonical(m: set<string>, a: seq<string>, b: seq<string>)
    requires IsUpdate(m, a) && IsUpdate(m, b)
    ensures a == b
  {
    hide Kept, StrictlySorted;
    SortedSame(a, b);
  }

  // ================================================================ outputs of clean inputs

  lemma KeptFileIsClean(m: set<string>, p: Path)
    requires CleanSet(m) && p in FileTokens(m)
    ensures PlainNames(p) && p != [] && Concat(p) in m && IsFile(Concat(p)) && KeptFile(m, Concat(p))
  {
    var x :| x in m && KeptFile(m, x) && Tokenize(x) != [] && Tokenize(x) == p;
    assert IsFile(x);
  }

  lemma FilesArePlain(m: set<string>)
    requires CleanSet(m)
    ensures AllPlainBelow(FileTokens(m))
  {
    forall p | p in FileTokens(m) && p != [] ensures PlainPath(p[1..]) { KeptFileIsClean(m, p); }
  }

  lemma PrefixNames(a: Path, b: Path)
    requires PlainNames(b) && a <= b
    ensures PlainNames(a)
  {
    assert forall i :: 0 <= i < |a| ==> a[i] == b[i];
  }

  lemma TmpName()
    ensures PlainNames([TMP])
  {
    assert IsName(TMP);
  }

  /** How an output arises from an input. */
  lemma OutputOf(m: set<string>, o: Out) returns (p: Path)
    requires CleanSet(m) && Aggregated(FileTokens(m), o)
    ensures p in FileTokens(m) && p != [] && CutOf(FileTokens(m), p, o)
    ensures o.path <= p && o.path != [] && PlainNames(o.path) && (!o.dir ==> o.path == p && p[0] != TMP)
  {
    var f := FileTokens(m);
    p :| p in f && p != [] && CutOf(f, p, o);
    KeptFileIsClean(m, p);
    if p[0] == TMP { TmpName(); } else { CutCovers(f, p, 1, o); }
    PrefixNames(o.path, p);
  }

  lemma TextOf(o: Out)
    requires PlainNames(o.path) && o.path != []
    ensures o.dir ==> Text(o) == Concat(o.path) + "/" && IsDirectory(Text(o)) && DirTokens(Text(o)) == o.path
    ensures !o.dir ==> Text(o) == Concat(o.path) && IsFile(Text(o)) && Tokenize(Text(o)) == o.path
  {
    NamesFile(o.path);
    FileHasNoSlash(Concat(o.path));
    NamesDirectory(o.path);
  }

  /** The merged list of clean inputs is clean, and each entry has one of three origins. */
  lemma ExtIsClean(m: set<string>, e: string)
    requires CleanSet(m) && InExt(m, e)
    ensures IsFile(e) || IsDirectory(e)
    ensures HasSlash(e) <==> IsDirectory(e)
    ensures IsFile(e) ==> e in m && Tokenize(e) in FileTokens(m)
                          && Aggregated(FileTokens(m), Out(Tokenize(e), false)) && Tokenize(e)[0] != TMP
    ensures IsDirectory(e) ==> e in m || (DirTokens(e) != [] && Aggregated(FileTokens(m), Out(DirTokens(e), true)))
  {
    if e in m && HasSlash(e) {
      if IsFile(e) { FileHasNoSlash(e); }
    } else {
      var o :| Aggregated(FileTokens(m), o) && e == Text(o);
      var p := OutputOf(m, o);
      TextOf(o);
      if !o.dir {
        KeptFileIsClean(m, p);
        FileHasNoSlash(e);
      } else {
        if IsFile(e) { FileHasNoSlash(e); }
      }
    }
  }

  // ================================================================ coverage by one update

  /** In the list, or below a directory of it. */
  ghost predicate Covered(r: seq<string>, x: string) {
    x in r || exists d :: d in r && HasSlash(d) && d < x
  }

  ghost predicate ExtCovers(m: set<string>, x: string) {
    InExt(m, x) || exists d :: InExtDir(m, d) && d < x
  }

  lemma {:induction false} TopDirectory(m: set<string>, d0: string) returns (d: string)
    requires InExtDir(m, d0)
    ensures Kept(m, d) && HasSlash(d) && d <= d0
    decreases |d0|
  {
    if d1 :| InExtDir(m, d1) && d1 < d0 {
      d := TopDirectory(m, d1);
    } else {
      d := d0;
    }
  }

  /** Pruning uncovers nothing: what it removes lies below a directory that stays. */
  lemma PruningKeepsCoverage(m: set<string>, r: seq<string>, x: string)
    requires IsUpdate(m, r)
    ensures Covered(r, x) <==> ExtCovers(m, x)
  {
    hide InExt, StrictlySorted;
    if Covered(r, x) {
      if d :| d in r && HasSlash(d) && d < x { assert InExtDir(m, d); }
    }
    if ExtCovers(m, x) && x !in r {
      var d0 :| InExtDir(m, d0) && d0 < x;
      var d := TopDirectory(m, d0);
      assert d in r;
    }
  }

  /** A stored or observed directory is covered by the update. */
  lemma DirectoriesStayCovered(m: set<string>, r: seq<string>, d: string)
    requires IsUpdate(m, r) && d in m && HasSlash(d)
    ensures Covered(r, d)
  {
    PruningKeepsCoverage(m, r, d);
  }

  lemma CoveredBelow(r: seq<string>, d: string, x: string)
    requires Covered(r, d) && HasSlash(d) && d < x
    ensures Covered(r, x)
  {
  }

  /** When the update covers a file: a listed directory is above it, or it lies below /tmp, or one of
      its ancestors has too many children, or it is not /tmp and no other remaining file continues it. */
  ghost predicate StaysCovered(m: set<string>, x: string) {
    (exists d :: d in m && HasSlash(d) && d < x) || CutAbove(FileTokens(m), Tokenize(x))
  }

  ghost predicate CutAbove(f: set<Path>, p: Path) {
    || (p != [] && p[0] == TMP && |p| > 1)
    || FullAncestor(f, p)
    || (p != [] && p[0] != TMP && ChildSegs(f, p) == {})
  }

  ghost predicate FullAncestor(f: set<Path>, p: Path) {
    exists k :: 1 <= k < |p| && Full(f, p[..k])
  }

  /** Exactly which clean files an update covers. */
  lemma CoverageIsExact(m: set<string>, r: seq<string>, x: string)
    requires CleanSet(m) && IsUpdate(m, r) && x in m && IsFile(x)
    ensures Covered(r, x) <==> StaysCovered(m, x)
  {
    PruningKeepsCoverage(m, r, x);
    hide IsUpdate, Covered, StaysCovered, ExtCovers;
    if StaysCovered(m, x) { StaysImpliesCovers(m, x); }
    if ExtCovers(m, x) { CoversImpliesStays(m, x); }
  }

  lemma OneSegment(ts: Path, s: string)
    requires s == Concat(ts) && PlainNames(ts) && 1 <= |ts| <= 2
    ensures IsFile(s) && Tokenize(s) == ts && !HasSlash(s) && s != ""
    ensures Dir(s) + "/" == if |ts| == 1 then "//" else ts[0] + "/"
  {
    NamesFile(ts);
    FileHasNoSlash(s);
    DirOfNames(ts);
    if |ts| == 2 {
      assert ts[..1] == [ts[0]] && [ts[0]][1..] == [];
      assert Concat([ts[0]]) == ts[0] + "";
    }
  }

  lemma TwoSegments(a: string, b: string)
    requires IsName(a) && IsName(b) && !IsWild(b)
    ensures PlainNames([a]) && PlainNames([a, b]) && Concat([a]) == a && Concat([a, b]) == a + b
    ensures a != a + b && a + "/" != a && a + "/" != a + b
  {
    assert [a][1..] == [] && [a, b][1..] == [b] && [b][1..] == [];
    assert Concat([]) == "" && Concat([b]) == b + "" && a + "" == a;
    assert |a| < |a + "/"| < |a + b|;
  }

  /** A file that another observed file continues is not covered, whatever their names. */
  lemma AncestorIsLost(a: string, b: string, r: seq<string>)
    requires IsName(a) && a != TMP && IsName(b) && !IsWild(b) && IsUpdate({a, a + b}, r)
    ensures CleanSet({a, a + b}) && !Covered(r, a)
  {
    var m, p, q := {a, a + b}, [a], [a, b];
    TwoSegments(a, b);
    OneSegment(p, a);
    OneSegment(q, a + b);
    assert a + "/" !in m;
    hide IsFile, IsUpdate, Covered, StaysCovered, Dir, Tokenize, Full, Concat, IsName, HasSlash, PlainNames;
    assert q in FileTokens(m) by { assert KeptFile(m, a + b); }
    ContinuedIsLost(m, a, p, q);
    CoverageIsExact(m, r, a);
  }

  lemma ContinuedIsLost(m: set<string>, x: string, p: Path, q: Path)
    requires Tokenize(x) == p && |p| == 1 && p[0] != TMP && q in FileTokens(m) && p < q
    requires forall d :: d in m ==> !HasSlash(d)
    ensures !StaysCovered(m, x)
  {
    hide FileTokens, Tokenize, Full, HasSlash;
    assert q[|p|] in ChildSegs(FileTokens(m), p);
  }

  /** For example, of /a and /a/b the first is not covered. */
  lemma ObservedAncestorIsLost(r: seq<string>)
    requires IsUpdate({"/a", "/a/b"}, r)
    ensures !Covered(r, "/a")
  {
    assert "/a" + "/b" == "/a/b";
    AncestorIsLost("/a", "/b", r);
  }

  /** The file /tmp is not covered: its directory is listed instead. */
  lemma TmpFileIsLost(r: seq<string>)
    requires IsUpdate({TMP}, r)
    ensures CleanSet({TMP}) && !Covered(r, TMP)
  {
    TmpName();
    assert [TMP][1..] == [];
    assert Concat([TMP]) == TMP + "";
    OneSegment([TMP], TMP);
    hide IsFile, IsUpdate, Covered, Dir, Tokenize, Full;
    CoverageIsExact({TMP}, r, TMP);
  }

  lemma CoversImpliesStays(m: set<string>, x: string)
    requires CleanSet(m) && x in m && IsFile(x) && ExtCovers(m, x)
    ensures StaysCovered(m, x)
  {
    hide IsFile, IsDirectory, CleanSet;
    var f, p := FileTokens(m), Tokenize(x);
    if InExt(m, x) {
      ExtIsClean(m, x);
      NotCutInside(f, p);
    } else {
      var d :| InExtDir(m, d) && d < x;
      ExtIsClean(m, d);
      if d !in m {
        CoveredByAggregate(m, d, x);
      }
    }
  }

  lemma NotCutInside(f: set<Path>, p: Path)
    requires p != [] && p[0] != TMP && Aggregated(f, Out(p, false))
    ensures ChildSegs(f, p) == {}
  {
    var q :| q in f && q != [] && CutOf(f, q, Out(p, false));
    if q[0] != TMP { CutCovers(f, q, 1, Out(p, false)); }
  }

  lemma CoveredByAggregate(m: set<string>, d: string, x: string)
    requires CleanSet(m) && IsFile(x) && IsDirectory(d) && d < x
    requires DirTokens(d) != [] && Aggregated(FileTokens(m), Out(DirTokens(d), true))
    ensures StaysCovered(m, x)
  {
    DirectoryCovers(d, x);
    AggregateIsAbove(FileTokens(m), DirTokens(d), Tokenize(x));
  }

  lemma AggregateIsAbove(f: set<Path>, q: Path, p: Path)
    requires q != [] && q < p && Aggregated(f, Out(q, true))
    ensures CutAbove(f, p)
  {
    var i :| i in f && i != [] && CutOf(f, i, Out(q, true));
    if i[0] == TMP {
      assert p[0] == TMP;
    } else {
      var k :| FirstFull(f, i, 1, k) && Out(q, true) == Out(i[..k], true);
      assert Full(f, q) && p[..|q|] == q;
    }
  }

  lemma StaysImpliesCovers(m: set<string>, x: string)
    requires CleanSet(m) && x in m && IsFile(x) && StaysCovered(m, x)
    ensures ExtCovers(m, x)
  {
    var p := Tokenize(x);
    if d :| d in m && HasSlash(d) && d < x {
      assert InExtDir(m, d);
    } else {
      NoDirectoryAbove(m, x);
      hide IsFile, IsDirectory, CleanSet, FileTokens, KeptFile;
      OutputCovers(m, x);
    }
  }

  /** Without a listed directory above it a file remains in the list. */
  lemma NoDirectoryAbove(m: set<string>, x: string)
    requires CleanSet(m) && x in m && IsFile(x) && forall d :: d in m && HasSlash(d) ==> !(d < x)
    ensures Tokenize(x) in FileTokens(m)
  {
    FileHasNoSlash(x);
    if Dir(x) + "/" in m { ParentDirectory(m, x); }
  }

  /** The text of the directory a clean file is in. */
  function ParentText(x: string): string
    requires Tokenize(x) != []
  {
    Concat(Tokenize(x)[..|Tokenize(x)| - 1]) + "/"
  }

  lemma ParentIsAbove(x: string)
    requires IsFile(x)
    ensures IsDirectory(ParentText(x)) && ParentText(x) < x
  {
    var ts := Tokenize(x);
    var init := ts[..|ts| - 1];
    PrefixNames(init, ts);
    NamesDirectory(init);
    assert init < ts;
    DirectoryCovers(ParentText(x), x);
  }

  lemma ParentDirectory(m: set<string>, x: string)
    requires CleanSet(m) && IsFile(x) && Dir(x) + "/" in m
    ensures Dir(x) + "/" == ParentText(x)
    ensures ParentText(x) in m && HasSlash(ParentText(x)) && ParentText(x) < x
  {
    DirOfNames(Tokenize(x));
    ParentIsAbove(x);
    hide Dir, IsName, PlainNames, Concat;
    if |Tokenize(x)| == 1 {
      DoubleSlashIsUnclean();
    }
  }

  lemma DoubleSlashIsUnclean()
    ensures !IsFile("//") && !IsDirectory("//")
  {
    if IsFile("//") { FileHasNoSlash("//"); }
    assert "//"[..1] == "/";
    assert Tokenize("/") == [];
  }

  lemma OutputCovers(m: set<string>, x: string)
    requires Tokenize(x) in FileTokens(m) && IsFile(x) && CleanSet(m) && CutAbove(FileTokens(m), Tokenize(x))
    ensures ExtCovers(m, x)
  {
    var f, p := FileTokens(m), Tokenize(x);
    hide CleanSet, FileTokens, KeptFile, IsFile;
    KeptFileIsClean(m, p);
    if p[0] == TMP {
      if FullAncestor(f, p) { var k :| 1 <= k < |p| && Full(f, p[..k]); }
      assert CutOf(f, p, Out([TMP], true));
      DirectoryOutputCovers(m, Out([TMP], true), x, p);
    } else if FullAncestor(f, p) {
      AncestorCovers(m, x, p);
    } else {
      LeafCovers(m, x, p);
    }
  }

  lemma AncestorCovers(m: set<string>, x: string, p: Path)
    requires p == Tokenize(x) && p in FileTokens(m) && p[0] != TMP && IsFile(x) && FullAncestor(FileTokens(m), p)
    ensures ExtCovers(m, x)
  {
    hide FileTokens, KeptFile, ExtCovers, Full;
    var f := FileTokens(m);
    var k :| 1 <= k < |p| && Full(f, p[..k]);
    var least := LeastFull(f, p, k);
    LeastIsBelow(f, p, k, least);
    assert CutOf(f, p, Out(p[..least], true));
    DirectoryOutputCovers(m, Out(p[..least], true), x, p);
  }

  lemma LeafCovers(m: set<string>, x: string, p: Path)
    requires p == Tokenize(x) && p in FileTokens(m) && IsFile(x) && p[0] != TMP
    requires !FullAncestor(FileTokens(m), p) && ChildSegs(FileTokens(m), p) == {}
    ensures ExtCovers(m, x)
  {
    hide FileTokens, KeptFile;
    var f, o := FileTokens(m), Out(p, false);
    assert !Full(f, p[..|p|]) by { assert p[..|p|] == p; }
    assert CutOf(f, p, o);
    TextOf(o);
    assert InExt(m, x);
  }

  lemma LeastIsBelow(f: set<Path>, p: Path, k: nat, least: nat)
    requires FirstFull(f, p, 1, least) && 1 <= k <= |p| && Full(f, p[..k])
    ensures least <= k
  {
  }

  lemma DirectoryOutputCovers(m: set<string>, o: Out, x: string, p: Path)
    requires p == Tokenize(x) && p in FileTokens(m) && CutOf(FileTokens(m), p, o)
    requires o.dir && IsFile(x) && o.path < p && o.path != []
    ensures ExtCovers(m, x)
  {
    PrefixNames(o.path, p);
    TextOf(o);
    DirectoryCovers(Text(o), x);
    assert InExtDir(m, Text(o));
  }

  // ================================================================ any number of updates

  /** The stored list over time: one update for each batch of observed resources. */
  ghost predicate Run(states: seq<seq<string>>, batches: seq<seq<string>>) {
    && |states| == |batches| + 1 && states[0] == []
    && (forall k :: 0 <= k < |batches| ==> CleanSet(Members(batches[k])))
    && forall k :: 0 <= k < |batches| ==> IsUpdate(Members(states[k]) + Members(batches[k]), states[k + 1])
  }

  ghost predicate Observed(batches: seq<seq<string>>, n: nat, x: string) {
    exists k :: 0 <= k < n && k < |batches| && x in batches[k]
  }

  ghost predicate ObservedFile(batches: seq<seq<string>>, n: nat, p: Path) {
    exists x :: Observed(batches, n, x) && IsFile(x) && Tokenize(x) == p
  }

  lemma UpdateIsClean(m: set<string>, r: seq<string>)
    requires CleanSet(m) && IsUpdate(m, r)
    ensures CleanSet(Members(r)) && "" !in r
  {
    forall e | e in r ensures IsFile(e) || IsDirectory(e) { ExtIsClean(m, e); }
  }

  lemma {:induction false} RunIsClean(states: seq<seq<string>>, batches: seq<seq<string>>, n: nat)
    requires Run(states, batches) && n <= |batches|
    ensures CleanSet(Members(states[n]))
  {
    if n > 0 {
      RunIsClean(states, batches, n - 1);
      CleanUnion(Members(states[n - 1]), Members(batches[n - 1]));
      UpdateIsClean(Members(states[n - 1]) + Members(batches[n - 1]), states[n]);
    }
  }

  lemma CleanUnion(a: set<string>, b: set<string>)
    requires CleanSet(a) && CleanSet(b)
    ensures CleanSet(a + b)
  {
  }

  /** Every stored file was observed as it is. */
  lemma {:induction false} StoredFilesWereObserved(states: seq<seq<string>>, batches: seq<seq<string>>, n: nat,
                                                   x: string)
    requires Run(states, batches) && n <= |batches| && x in states[n] && IsFile(x)
    ensures Observed(batches, n, x)
  {
    var m := Members(states[n - 1]) + Members(batches[n - 1]);
    RunIsClean(states, batches, n - 1);
    CleanUnion(Members(states[n - 1]), Members(batches[n - 1]));
    assert IsUpdate(m, states[n]);
    ExtIsClean(m, x);
    if x !in batches[n - 1] {
      StoredFilesWereObserved(states, batches, n - 1, x);
    }
  }

  /** The inputs of an update are files observed so far. */
  lemma InputsWereObserved(states: seq<seq<string>>, batches: seq<seq<string>>, n: nat, p: Path)
    requires Run(states, batches) && n < |batches|
    requires p in FileTokens(Members(states[n]) + Members(batches[n]))
    ensures ObservedFile(batches, n + 1, p)
  {
    var m := Members(states[n]) + Members(batches[n]);
    RunIsClean(states, batches, n);
    CleanUnion(Members(states[n]), Members(batches[n]));
    var x :| x in m && KeptFile(m, x) && Tokenize(x) != [] && Tokenize(x) == p;
    KeptFileIsClean(m, p);
    if x !in batches[n] { StoredFilesWereObserved(states, batches, n, x); }
    assert Observed(batches, n + 1, x);
  }

  /** The file is neither /tmp nor an ancestor of a file observed in the first n batches. */
  ghost predicate IsLeafOf(batches: seq<seq<string>>, n: nat, x: string) {
    Tokenize(x) != [TMP] && forall p :: ObservedFile(batches, n, p) ==> !(Tokenize(x) < p)
  }

  lemma UpdateCoversFile(states: seq<seq<string>>, batches: seq<seq<string>>, n: nat, x: string)
    requires Run(states, batches) && n < |batches| && IsFile(x) && IsLeafOf(batches, n + 1, x)
    requires x in Members(states[n]) + Members(batches[n])
    ensures Covered(states[n + 1], x)
  {
    var m := Members(states[n]) + Members(batches[n]);
    RunIsClean(states, batches, n);
    CleanUnion(Members(states[n]), Members(batches[n]));
    var f, p := FileTokens(m), Tokenize(x);
    forall q | q in f ensures !(p < q) { InputsWereObserved(states, batches, n, q); }
    assert ChildSegs(f, p) == {};
    assert p[0] == TMP ==> |p| > 1 by { assert |p| == 1 ==> p == [p[0]]; }
    CoverageIsExact(m, states[n + 1], x);
  }

  lemma CoverageStep(states: seq<seq<string>>, batches: seq<seq<string>>, n: nat, x: string)
    requires Run(states, batches) && n < |batches| && Covered(states[n], x)
    requires HasSlash(x) || (IsFile(x) && IsLeafOf(batches, n + 1, x))
    ensures Covered(states[n + 1], x)
  {
    var m := Members(states[n]) + Members(batches[n]);
    if x in states[n] {
      if HasSlash(x) {
        DirectoriesStayCovered(m, states[n + 1], x);
      } else {
        UpdateCoversFile(states, batches, n, x);
      }
    } else {
      var d :| d in states[n] && HasSlash(d) && d < x;
      DirectoriesStayCovered(m, states[n + 1], d);
      CoveredBelow(states[n + 1], d, x);
    }
  }

  lemma LeafOfFewer(batches: seq<seq<string>>, n: nat, x: string)
    requires IsLeafOf(batches, n + 1, x)
    ensures IsLeafOf(batches, n, x)
  {
    forall p | ObservedFile(batches, n, p) ensures !(Tokenize(x) < p) {
      var y :| Observed(batches, n, y) && IsFile(y) && Tokenize(y) == p;
      assert Observed(batches, n + 1, y);
      assert ObservedFile(batches, n + 1, p);
    }
  }

  /** Coverage over all runs: every resource ever observed is in the stored list or below a stored
      directory, unless it is the file /tmp or an ancestor of another observed file. */
  lemma {:induction false} ObservedStaysCovered(states: seq<seq<string>>, batches: seq<seq<string>>, n: nat, x: string)
    requires Run(states, batches) && n <= |batches| && Observed(batches, n, x) && x != ""
    requires IsFile(x) ==> IsLeafOf(batches, n, x)
    ensures Covered(states[n], x)
  {
    hide IsUpdate, IsFile, IsDirectory, Covered;
    if IsFile(x) { LeafOfFewer(batches, n - 1, x); }
    ObservedIsClean(states, batches, n, x);
    if Observed(batches, n - 1, x) {
      ObservedStaysCovered(states, batches, n - 1, x);
      CoverageStep(states, batches, n - 1, x);
    } else if HasSlash(x) {
      DirectoriesStayCovered(Members(states[n - 1]) + Members(batches[n - 1]), states[n], x);
    } else {
      UpdateCoversFile(states, batches, n - 1, x);
    }
  }

  lemma ObservedIsClean(states: seq<seq<string>>, batches: seq<seq<string>>, n: nat, x: string)
    requires Run(states, batches) && n <= |batches| && Observed(batches, n, x) && x != ""
    ensures n > 0 && (HasSlash(x) || IsFile(x))
    ensures Observed(batches, n - 1, x) || x in batches[n - 1]
  {
    var k :| 0 <= k < n && k < |batches| && x in batches[k];
    assert CleanSet(Members(batches[k]));
    assert x in Members(batches[k]);
  }

  /** A directory once stored stays covered for ever. */
  lemma {:induction false} StoredDirectoriesStayCovered(states: seq<seq<string>>, batches: seq<seq<string>>, i: nat,
                                                        n: nat, d: string)
    requires Run(states, batches) && i <= n <= |batches| && d in states[i] && HasSlash(d)
    ensures Covered(states[n], d)
    decreases n
  {
    if i < n {
      StoredDirectoriesStayCovered(states, batches, i, n - 1, d);
      CoverageStep(states, batches, n - 1, d);
    }
  }

  /** Why a directory may be stored: it was observed, or it stands for /tmp, or the files observed
      below it have more than three different next segments. */
  ghost predicate Justified(batches: seq<seq<string>>, n: nat, d: string) {
    || Observed(batches, n, d)
    || (d == TMP + "/" && exists p :: ObservedFile(batches, n, p) && p[..1] == [TMP])
    || exists f: set<Path> :: AllObserved(batches, n, f) && IsDirectory(d) && Full(f, DirTokens(d))
  }

  ghost predicate AllObserved(batches: seq<seq<string>>, n: nat, f: set<Path>) {
    forall p :: p in f ==> ObservedFile(batches, n, p)
  }

  lemma JustifiedLater(batches: seq<seq<string>>, n: nat, d: string)
    requires Justified(batches, n, d)
    ensures Justified(batches, n + 1, d)
  {
    forall x | Observed(batches, n, x) ensures Observed(batches, n + 1, x) {}
    forall p | ObservedFile(batches, n, p) ensures ObservedFile(batches, n + 1, p) {}
    hide ObservedFile, Observed, IsDirectory, Full;
  }

  /** Nothing broader than the observations calls for is ever stored. */
  lemma {:induction false} StoredDirectoriesAreJustified(states: seq<seq<string>>, batches: seq<seq<string>>, n: nat,
                                                         d: string)
    requires Run(states, batches) && n <= |batches| && d in states[n] && HasSlash(d)
    ensures Justified(batches, n, d)
  {
    hide IsFile, IsDirectory, Justified, Full;
    var m := Members(states[n - 1]) + Members(batches[n - 1]);
    RunIsClean(states, batches, n - 1);
    CleanUnion(Members(states[n - 1]), Members(batches[n - 1]));
    assert Kept(m, d);
    ExtIsClean(m, d);
    if d in batches[n - 1] {
      ObservedIsJustified(batches, n, d);
    } else if d in states[n - 1] {
      StoredDirectoriesAreJustified(states, batches, n - 1, d);
      JustifiedLater(batches, n - 1, d);
    } else {
      AggregateIsJustified(states, batches, n - 1, d);
    }
  }

  lemma ObservedIsJustified(batches: seq<seq<string>>, n: nat, d: string)
    requires 0 < n <= |batches| && d in batches[n - 1]
    ensures Justified(batches, n, d)
  {
    assert Observed(batches, n, d);
  }

  lemma AggregateIsJustified(states: seq<seq<string>>, batches: seq<seq<string>>, n: nat, d: string)
    requires Run(states, batches) && n < |batches| && IsDirectory(d)
    requires Aggregated(FileTokens(Members(states[n]) + Members(batches[n])), Out(DirTokens(d), true))
    ensures Justified(batches, n + 1, d)
  {
    var f, q := FileTokens(Members(states[n]) + Members(batches[n])), DirTokens(d);
    forall p | p in f ensures ObservedFile(batches, n + 1, p) { InputsWereObserved(states, batches, n, p); }
    hide IsFile, ObservedFile, FileTokens, Run;
    var p :| p in f && p != [] && CutOf(f, p, Out(q, true));
    if p[0] == TMP {
      assert p[..1] == [TMP];
      ConcatOne(TMP);
    } else {
      var k :| FirstFull(f, p, 1, k) && Out(q, true) == Out(p[..k], true);
      assert Full(f, q);
    }
  }

  // ================================================================ the update settles

  ghost function StoredTokens(s: seq<string>): set<Path> {
    set x | x in s && IsFile(x) :: Tokenize(x)
  }

  ghost predicate NoneNested(s: seq<string>) {
    forall d, e :: d in s && e in s && HasSlash(d) ==> !(d < e)
  }

  /** A stored list that an update has left: clean, sorted, nothing below a stored directory, and no
      stored file that the other files would cut. */
  ghost predicate Settled(s: seq<string>) {
    && StrictlySorted(s) && NoneNested(s)
    && (forall e :: e in s ==> IsFile(e) || IsDirectory(e))
    && forall p :: p in StoredTokens(s) ==> Uncut(StoredTokens(s), p)
  }

  ghost predicate Uncut(f: set<Path>, p: Path) {
    p != [] && p[0] != TMP && IsCut(f, p, Out(p, false))
  }

  /** Fewer files cut no more. */
  lemma UncutInFewer(f: set<Path>, g: set<Path>, p: Path)
    requires g <= f && Uncut(f, p)
    ensures Uncut(g, p)
  {
    forall q ensures ChildSegs(g, q) <= ChildSegs(f, q) && (Full(g, q) ==> Full(f, q)) {
      forall x | x in ChildSegs(g, q) ensures x in ChildSegs(f, q) {
        var y :| y in g && q < y && y[|q|] == x;
      }
      SubsetSize(ChildSegs(g, q), ChildSegs(f, q));
    }
    assert NoneFull(g, p, 1);
    assert ChildSegs(g, p) == {};
  }

  lemma OutputIsUncut(f: set<Path>, p: Path)
    requires p != [] && p[0] != TMP && Aggregated(f, Out(p, false))
    ensures p in f && Uncut(f, p)
  {
    var q :| q in f && q != [] && CutOf(f, q, Out(p, false));
    if q[0] != TMP { CutCovers(f, q, 1, Out(p, false)); }
  }

  /** Every update leaves a settled list. */
  lemma UpdateSettles(m: set<string>, r: seq<string>)
    requires CleanSet(m) && IsUpdate(m, r)
    ensures Settled(r)
  {
    hide IsFile, IsDirectory, InExt, StrictlySorted, CleanSet, FileTokens, Uncut;
    var f, g := FileTokens(m), StoredTokens(r);
    forall e | e in r ensures IsFile(e) || IsDirectory(e) { ExtIsClean(m, e); }
    forall p | p in g ensures p in f && Uncut(f, p) {
      var x :| x in r && IsFile(x) && Tokenize(x) == p;
      FileTokensNotEmpty(x);
      ExtIsClean(m, x);
      OutputIsUncut(f, p);
    }
    forall p | p in g ensures Uncut(g, p) { UncutInFewer(f, g, p); }
    forall d, e | d in r && e in r && HasSlash(d) ensures !(d < e) { assert InExtDir(m, d); }
  }

  lemma FileTokensNotEmpty(x: string)
    requires IsFile(x)
    ensures Tokenize(x) != [] && x == Concat(Tokenize(x)) && !HasSlash(x) && AllTokens(Tokenize(x))
  {
    FileHasNoSlash(x);
    NamesAreTokens(Tokenize(x));
  }

  /** Only stored elements, or files whose own directory is stored. */
  ghost predicate NothingNew(s: seq<string>, batch: set<string>) {
    forall x :: x in batch ==> x == "" || x in s || (IsFile(x) && Tokenize(x) != [] && ParentText(x) in s)
  }

  /** Observing nothing new leaves a settled list exactly as it is. */
  lemma SettledIsFixpoint(s: seq<string>, batch: set<string>)
    requires Settled(s) && NothingNew(s, batch)
    ensures IsUpdate(Members(s) + batch, s)
  {
    var m := Members(s) + batch;
    NothingNewIsClean(s, batch);
    hide Settled, IsFile, IsDirectory, InExt, StrictlySorted, CleanSet, NothingNew;
    SettledParts(s);
    if "/" in s {
      RootStaysAlone(s, batch);
    } else {
      SameTokens(s, batch);
      forall e ensures InExt(m, e) <==> e in s { SameExt(s, batch, e); }
      forall e ensures e in s <==> Kept(m, e) {
        if e in s {
          forall d | InExtDir(m, d) ensures !(d < e) { assert d in s; }
        }
      }
    }
  }

  lemma SettledParts(s: seq<string>)
    requires Settled(s)
    ensures StrictlySorted(s) && NoneNested(s)
  {
  }

  lemma NothingNewIsClean(s: seq<string>, batch: set<string>)
    requires Settled(s) && NothingNew(s, batch)
    ensures CleanSet(Members(s) + batch)
    ensures forall x :: x in batch && HasSlash(x) ==> x in s
  {
    forall x | x in batch && HasSlash(x) ensures x in s {
      if IsFile(x) { FileHasNoSlash(x); }
    }
  }

  lemma CleanStartsWithSlash(e: string)
    requires IsFile(e) || IsDirectory(e)
    ensures "/" <= e
  {
    if IsFile(e) {
      NamesAreTokens(Tokenize(e));
      ConcatStartsWithSlash(Tokenize(e));
    } else {
      NamesAreTokens(DirTokens(e));
      ConcatStartsWithSlash(DirTokens(e));
    }
  }

  /** With the root stored, nothing else is ever stored. */
  lemma RootStaysAlone(s: seq<string>, batch: set<string>)
    requires Settled(s) && "/" in s && CleanSet(Members(s) + batch)
    ensures IsUpdate(Members(s) + batch, s)
  {
    var m := Members(s) + batch;
    assert InExtDir(m, "/");
    forall e | e in s ensures e == "/" { CleanStartsWithSlash(e); }
    forall e | Kept(m, e) ensures e == "/" {
      ExtIsClean(m, e);
      CleanStartsWithSlash(e);
    }
    assert Kept(m, "/");
  }

  lemma SameTokens(s: seq<string>, batch: set<string>)
    requires Settled(s) && NothingNew(s, batch) && CleanSet(Members(s) + batch) && "/" !in s
    requires forall x :: x in batch && HasSlash(x) ==> x in s
    ensures FileTokens(Members(s) + batch) == StoredTokens(s)
  {
    var m := Members(s) + batch;
    forall x | x in m && KeptFile(m, x) && Tokenize(x) != [] ensures x in s && IsFile(x) {
      assert IsDirectory(x) ==> HasSlash(x);
      if x !in s { NewFileIsDropped(s, batch, x); }
    }
    forall x | x in s && IsFile(x) ensures KeptFile(m, x) && Tokenize(x) != [] { StoredFileIsKept(s, batch, x); }
  }

  lemma NewFileIsDropped(s: seq<string>, batch: set<string>, x: string)
    requires IsFile(x) && ParentText(x) in s && "/" !in s
    ensures !KeptFile(Members(s) + batch, x)
  {
    DirOfNames(Tokenize(x));
    var parent := Tokenize(x)[..|Tokenize(x)| - 1];
    assert parent == [] ==> Concat(parent) + "/" == "/";
  }

  lemma StoredFileIsKept(s: seq<string>, batch: set<string>, x: string)
    requires Settled(s) && CleanSet(Members(s) + batch) && x in s && IsFile(x)
    requires forall x :: x in batch && HasSlash(x) ==> x in s
    ensures KeptFile(Members(s) + batch, x)
  {
    FileTokensNotEmpty(x);
    if Dir(x) + "/" in Members(s) + batch {
      ParentDirectory(Members(s) + batch, x);
    }
  }

  lemma SameExt(s: seq<string>, batch: set<string>, e: string)
    requires Settled(s) && CleanSet(Members(s) + batch)
    requires forall x :: x in batch && HasSlash(x) ==> x in s
    requires FileTokens(Members(s) + batch) == StoredTokens(s)
    ensures InExt(Members(s) + batch, e) <==> e in s
  {
    var m, f := Members(s) + batch, StoredTokens(s);
    if InExt(m, e) {
      ExtIsClean(m, e);
      if IsFile(e) {
        var x :| x in s && IsFile(x) && Tokenize(x) == Tokenize(e);
      } else if e !in m {
        NoDirectoryOutput(f, DirTokens(e));
      }
    }
    if e in s && IsFile(e) {
      assert Tokenize(e) in f;
      FileTokensNotEmpty(e);
      var o := Out(Tokenize(e), false);
      assert CutOf(f, Tokenize(e), o);
      assert Text(o) == e;
    }
  }

  lemma NoDirectoryOutput(f: set<Path>, q: Path)
    requires forall p :: p in f ==> Uncut(f, p)
    ensures !Aggregated(f, Out(q, true))
  {
    if p :| p in f && p != [] && CutOf(f, p, Out(q, true)) {
      CutUnique(f, p, Out(p, false), Out(q, true));
    }
  }

  /** After any run, observing only stored elements, or files whose own directory is stored, gives
      exactly the same list again: the comparison with the stored list reports no change. */
  lemma ReobservingChangesNothing(states: seq<seq<string>>, batches: seq<seq<string>>, n: nat, batch: set<string>,
                                  r: seq<string>)
    requires Run(states, batches) && 0 < n <= |batches|
    requires NothingNew(states[n], batch) && IsUpdate(Members(states[n]) + batch, r)
    ensures r == states[n]
  {
    hide IsUpdate, Settled, NothingNew;
    RunIsClean(states, batches, n - 1);
    CleanUnion(Members(states[n - 1]), Members(batches[n - 1]));
    UpdateSettles(Members(states[n - 1]) + Members(batches[n - 1]), states[n]);
    SettledIsFixpoint(states[n], batch);
    UpdateIsCanonical(Members(states[n]) + batch, r, states[n]);
  }
}
