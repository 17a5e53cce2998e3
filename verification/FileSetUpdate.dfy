/** The loops of one file set update: dropping duplicates, merging files into listed directories,
    aggregating, sorting by length and pruning in place. */
module FileSetUpdate {
  import opened Paths
  import opened SysTrie
  import opened SysForest
  import opened SysNode
  import opened DirPath
  import opened FileSet

  // ================================================================ duplicates

  ghost predicate StrictlyLex(s: seq<string>) {
    forall i, j :: 0 <= i < j < |s| ==> LexLess(s[i], s[j])
  }

  /** Sorted, nothing twice, and without the empty text. */
  method RemoveDuplicates(arr: seq<string>) returns (res: seq<string>)
    ensures StrictlyLex(res)
    ensures forall x :: x in res <==> x in arr && x != ""
  {
    var sorted := LexSort(arr);
    LexSortSorts(arr);
    LexSortMembers(arr);
    res := [];
    var prev := "";
    for i := 0 to |sorted|
      invariant prev == if i == 0 then "" else sorted[i - 1]
      invariant StrictlyLex(res)
      invariant forall x :: x in res <==> x in sorted[..i] && x != ""
    {
      var v := sorted[i];
      assert sorted[..i + 1] == sorted[..i] + [v];
      if prev == v {
        continue;
      }
      LargerThanAll(sorted, i);
      prev := v;
      res := res + [v];
    }
    assert sorted[..|sorted|] == sorted;
  }

  lemma LargerThanAll(sorted: seq<string>, i: nat)
    requires LexOrdered(sorted) && i < |sorted|
    requires if i == 0 then sorted[0] != "" else sorted[i - 1] != sorted[i]
    ensures sorted[i] != "" && forall x :: x in sorted[..i] ==> LexLess(x, sorted[i])
  {
    if i > 0 { LexTotal(sorted[i - 1], sorted[i]); }
    forall x | x in sorted[..i] ensures LexLess(x, sorted[i]) {
      var k :| 0 <= k < i && sorted[k] == x;
      LexTotal(x, sorted[i]);
      if k < i - 1 { LexTotal(x, sorted[i - 1]); }
    }
  }

  // ================================================================ directories and files

  function Directories(paths: seq<string>): set<string> {
    set x | x in paths && HasSlash(x)
  }

  function Files(paths: seq<string>): seq<string> {
    if paths == [] then []
    else Files(paths[..|paths| - 1]) + if HasSlash(paths[|paths| - 1]) then [] else [paths[|paths| - 1]]
  }

  /** The files whose own directory is not listed, in order. */
  function Unlisted(files: seq<string>, dirlist: set<string>): seq<string> {
    if files == [] then []
    else
      var p := files[|files| - 1];
      Unlisted(files[..|files| - 1], dirlist) + if Dir(p) + "/" in dirlist then [] else [p]
  }

  lemma {:induction false} FilesMembers(paths: seq<string>, x: string)
    ensures x in Files(paths) <==> x in paths && !HasSlash(x)
  {
    if paths != [] {
      FilesMembers(paths[..|paths| - 1], x);
      assert paths == paths[..|paths| - 1] + [paths[|paths| - 1]];
    }
  }

  lemma {:induction false} UnlistedMembers(files: seq<string>, dirlist: set<string>, x: string)
    ensures x in Unlisted(files, dirlist) <==> x in files && Dir(x) + "/" !in dirlist
    ensures dirlist == {} ==> Unlisted(files, dirlist) == files
  {
    if files != [] {
      UnlistedMembers(files[..|files| - 1], dirlist, x);
      assert files == files[..|files| - 1] + [files[|files| - 1]];
    }
  }

  /** Splits the directories off and drops the files that lie directly in one of them. */
  method MergeFileInDir(paths: seq<string>) returns (dirlist: set<string>, finalFileList: seq<string>)
    ensures dirlist == Directories(paths)
    ensures finalFileList == Unlisted(Files(paths), dirlist)
  {
    var filelist;
    dirlist, filelist := SplitDirectories(paths);
    UnlistedMembers(filelist, dirlist, "");
    if |dirlist| <= 0 {
      return dirlist, filelist;
    }
    finalFileList := DropListed(filelist, dirlist);
  }

  method SplitDirectories(paths: seq<string>) returns (dirlist: set<string>, filelist: seq<string>)
    ensures dirlist == Directories(paths) && filelist == Files(paths)
  {
    dirlist, filelist := {}, [];
    for i := 0 to |paths|
      invariant dirlist == Directories(paths[..i]) && filelist == Files(paths[..i])
    {
      assert paths[..i + 1] == paths[..i] + [paths[i]];
      if HasSlash(paths[i]) {
        dirlist := dirlist + {paths[i]};
      } else {
        filelist := filelist + [paths[i]];
      }
    }
    assert paths[..|paths|] == paths;
  }

  method DropListed(filelist: seq<string>, dirlist: set<string>) returns (kept: seq<string>)
    ensures kept == Unlisted(filelist, dirlist)
  {
    kept := [];
    for i := 0 to |filelist|
      invariant kept == Unlisted(filelist[..i], dirlist)
    {
      assert filelist[..i + 1][..i] == filelist[..i];
      var dir := Dir(filelist[i]);
      if dir + "/" !in dirlist {
        kept := kept + [filelist[i]];
      }
    }
    assert filelist[..|filelist|] == filelist;
  }

  // ================================================================ aggregation

  /** The texts of the results that are not listed directories already, then the directories. */
  method CollectTexts(results: seq<SysPath>, dirlist: set<string>)
      returns (flist: seq<string>, ghost order: seq<string>)
    requires forall r :: r in results && r.isDir ==> HasSlash(r.path)
    ensures flist == NewTexts(results, dirlist) + order
    ensures NoDuplicates(order) && forall d :: d in order <==> d in dirlist
  {
    flist, order := [], [];
    for i := 0 to |results|
      invariant flist == NewTexts(results[..i], dirlist)
    {
      assert results[..i + 1][..i] == results[..i];
      var rec := results[i].path;
      if results[i].isDir {
        if !HasSlash(rec) {
          rec := rec + "/";
        }
        if rec in dirlist {
          continue;
        }
      }
      flist := flist + [rec];
    }
    assert results[..|results|] == results;
    var todo := dirlist;
    while todo != {}
      invariant todo <= dirlist && flist == NewTexts(results, dirlist) + order
      invariant NoDuplicates(order) && forall d :: d in order <==> d in dirlist && d !in todo
      decreases |todo|
    {
      var k :| k in todo;
      flist, order, todo := flist + [k], order + [k], todo - {k};
    }
  }

  function NewTexts(results: seq<SysPath>, dirlist: set<string>): seq<string> {
    if results == [] then []
    else
      var r := results[|results| - 1];
      NewTexts(results[..|results| - 1], dirlist) + if r.isDir && r.path in dirlist then [] else [r.path]
  }

  lemma {:induction false} NewTextsMembers(results: seq<SysPath>, dirlist: set<string>, e: string)
    ensures e in NewTexts(results, dirlist) <==>
      exists i :: 0 <= i < |results| && results[i].path == e && !(results[i].isDir && e in dirlist)
    decreases |results|
  {
    if results != [] {
      var last := |results| - 1;
      NewTextsMembers(results[..last], dirlist, e);
      forall i | 0 <= i < last ensures results[..last][i] == results[i] {}
    }
  }

  ghost predicate DistinctTexts(results: seq<SysPath>) {
    forall i, j :: 0 <= i < j < |results| ==> results[i].path != results[j].path
  }

  lemma {:induction false} NewTextsDistinct(results: seq<SysPath>, dirlist: set<string>)
    requires DistinctTexts(results)
    ensures NoDuplicates(NewTexts(results, dirlist))
    decreases |results|
  {
    if results != [] {
      var last := |results| - 1;
      var init := results[..last];
      NewTextsDistinct(init, dirlist);
      NewTextsMembers(init, dirlist, results[last].path);
      assert forall i :: 0 <= i < last ==> init[i] == results[i];
    }
  }

  lemma RemainingTokens(paths: seq<string>)
    requires "" !in paths
    ensures TokenSet(Unlisted(Files(paths), Directories(paths))) == FileTokens(Members(paths))
  {
    var m, kept := Members(paths), Unlisted(Files(paths), Directories(paths));
    forall x ensures x in kept <==> x in m && KeptFile(m, x) {
      FilesMembers(paths, x);
      UnlistedMembers(Files(paths), Directories(paths), x);
    }
    assert forall p :: p in TokenSet(kept) <==> p in FileTokens(m);
  }

  lemma OutputText(m: set<string>, o: Out)
    requires CleanSet(m) && Aggregated(FileTokens(m), o)
    ensures HasSlash(Text(o)) <==> o.dir
    ensures (if o.dir then DirTokens(Text(o)) else Tokenize(Text(o))) == o.path
  {
    var p := OutputOf(m, o);
    TextOf(o);
    if !o.dir { FileHasNoSlash(Text(o)); }
  }

  lemma OutputTextsDiffer(m: set<string>, a: Out, b: Out)
    requires CleanSet(m) && Aggregated(FileTokens(m), a) && Aggregated(FileTokens(m), b) && a != b
    ensures Text(a) != Text(b)
  {
    OutputText(m, a);
    OutputText(m, b);
  }

  /** For clean paths the collected texts are exactly the merged list, nothing twice. */
  lemma CollectedIsExt(paths: seq<string>, results: seq<SysPath>, outs: seq<Out>, order: seq<string>)
    requires CleanSet(Members(paths)) && ListsOutputs(results, outs, FileTokens(Members(paths)))
    requires NoDuplicates(order) && forall d :: d in order <==> d in Directories(paths)
    ensures NoDuplicates(NewTexts(results, Directories(paths)) + order)
    ensures forall e :: e in NewTexts(results, Directories(paths)) + order <==> InExt(Members(paths), e)
  {
    var m, dirs := Members(paths), Directories(paths);
    var texts := NewTexts(results, dirs);
    hide CleanSet, FileTokens, Aggregated, NewTexts, Directories, Text;
    assert forall d :: d in dirs <==> d in m && HasSlash(d) by { DirectoriesMembers(paths); }
    ResultTexts(m, results, outs);
    NewTextsDistinct(results, dirs);
    forall e ensures e in texts ==> e !in order && InExt(m, e) {
      NewTextsMembers(results, dirs, e);
      if e in texts {
        var i :| 0 <= i < |results| && results[i].path == e && !(results[i].isDir && e in dirs);
        assert e == Text(outs[i]);
      }
    }
    DistinctConcat(texts, order);
    forall e | InExt(m, e) && e !in order ensures e in texts {
      var o :| Aggregated(FileTokens(m), o) && e == Text(o);
      var i :| 0 <= i < |outs| && outs[i] == o;
      NewTextsMembers(results, dirs, e);
      assert results[i].path == e;
    }
  }

  lemma DistinctConcat(a: seq<string>, b: seq<string>)
    requires NoDuplicates(a) && NoDuplicates(b) && forall e :: e in a ==> e !in b
    ensures NoDuplicates(a + b)
  {
    forall i, j | 0 <= i < j < |a + b| ensures (a + b)[i] != (a + b)[j] {
      if i < |a| <= j { assert a[i] in a && b[j - |a|] in b; }
    }
  }

  lemma DirectoriesMembers(paths: seq<string>)
    ensures forall d :: d in Directories(paths) <==> d in paths && HasSlash(d)
    ensures forall d :: d in Directories(paths) <==> d in Members(paths) && HasSlash(d)
  {
  }

  lemma ResultTexts(m: set<string>, results: seq<SysPath>, outs: seq<Out>)
    requires CleanSet(m) && ListsOutputs(results, outs, FileTokens(m))
    ensures DistinctTexts(results)
    ensures forall i :: 0 <= i < |results| ==>
      results[i].path == Text(outs[i]) && (results[i].isDir <==> HasSlash(results[i].path))
  {
    hide CleanSet, FileTokens, Aggregated;
    forall i | 0 <= i < |results|
      ensures results[i].path == Text(outs[i]) && (results[i].isDir <==> HasSlash(results[i].path))
    {
      assert outs[i] in outs;
      OutputText(m, outs[i]);
    }
    forall i, j | 0 <= i < j < |results| ensures results[i].path != results[j].path {
      assert outs[i] in outs && outs[j] in outs;
      OutputTextsDiffer(m, outs[i], outs[j]);
    }
  }

  lemma SortedDistinct(s: seq<string>)
    requires NoDuplicates(s)
    ensures StrictlyLex(LexSort(s))
  {
    LexSortSorts(s);
    SameMultisetDistinct(s, LexSort(s));
    var r := LexSort(s);
    forall i, j | 0 <= i < j < |r| ensures LexLess(r[i], r[j]) { LexTotal(r[i], r[j]); }
  }

  /** Merges, aggregates and sorts. For clean paths the result is exactly the merged list. */
  method AggregatePathsExt(paths: seq<string>) returns (flist: seq<string>)
    ensures LexOrdered(flist) && forall d :: d in paths && HasSlash(d) ==> d in flist
    ensures CleanSet(Members(paths)) && "" !in paths ==>
      StrictlyLex(flist) && forall e :: e in flist <==> InExt(Members(paths), e)
  {
    hide *;
    var dirlist, filelist := MergeFileInDir(paths);
    DirectoriesMembers(paths);
    ghost var printed, outs, order;
    var results;
    results, printed, outs := AggregatePaths(filelist);
    DirectoriesHaveSlash(printed, results);
    flist, order := CollectTexts(results, dirlist);
    ghost var texts := flist;
    if CleanSet(Members(paths)) && "" !in paths {
      RemainingTokens(paths);
      FilesArePlain(Members(paths));
      CollectedIsExt(paths, results, outs, order);
      SortedDistinct(texts);
    }
    LexSortSorts(texts);
    LexSortMembers(texts);
    flist := LexSort(flist);
  }

  lemma DirectoriesHaveSlash(printed: map<string, bool>, results: seq<SysPath>)
    requires forall r :: r in results <==> exists x :: x in printed && r == SysPathOf(x, printed[x])
    ensures forall r :: r in results && r.isDir ==> HasSlash(r.path)
  {
  }

  // ================================================================ sorting by length

  function LenInsert(x: string, s: seq<string>): seq<string> {
    if s == [] || |x| <= |s[0]| then [x] + s else [s[0]] + LenInsert(x, s[1..])
  }

  /** A stable sort by length. */
  function LenSort(s: seq<string>): seq<string> {
    if s == [] then [] else LenInsert(s[0], LenSort(s[1..]))
  }

  ghost predicate LenOrdered(s: seq<string>) {
    forall i, j :: 0 <= i < j < |s| ==> |s[i]| <= |s[j]|
  }

  lemma {:induction false} LenInsertMembers(x: string, s: seq<string>)
    ensures multiset(LenInsert(x, s)) == multiset(s) + multiset{x}
    ensures forall y :: y in LenInsert(x, s) <==> y == x || y in s
  {
    if s != [] {
      assert s == [s[0]] + s[1..];
      LenInsertMembers(x, s[1..]);
    }
  }

  lemma {:induction false} LenInsertOrders(x: string, s: seq<string>)
    requires LenOrdered(s)
    ensures LenOrdered(LenInsert(x, s))
  {
    if s != [] && |x| > |s[0]| {
      LenInsertOrders(x, s[1..]);
      LenInsertMembers(x, s[1..]);
      LenOrderedCons(s[0], LenInsert(x, s[1..]));
    } else {
      LenOrderedCons(x, s);
    }
  }

  lemma LenOrderedCons(y: string, q: seq<string>)
    requires LenOrdered(q) && forall e :: e in q ==> |y| <= |e|
    ensures LenOrdered([y] + q)
  {
  }

  lemma {:induction false} LenSortOrders(s: seq<string>)
    ensures LenOrdered(LenSort(s)) && multiset(LenSort(s)) == multiset(s)
  {
    if s != [] {
      assert s == [s[0]] + s[1..];
      LenSortOrders(s[1..]);
      LenInsertOrders(s[0], LenSort(s[1..]));
      LenInsertMembers(s[0], LenSort(s[1..]));
    }
  }

  lemma {:induction false} LenInsertStable(x: string, s: seq<string>)
    requires StrictlySorted(s) && LenOrdered(s) && forall y :: y in s ==> LexLess(x, y)
    ensures StrictlySorted(LenInsert(x, s))
  {
    if s != [] && |x| > |s[0]| {
      LenInsertStable(x, s[1..]);
      LenInsertMembers(x, s[1..]);
      var q := LenInsert(x, s[1..]);
      forall j | 0 <= j < |q| ensures LenLexLess(s[0], q[j]) {
        assert q[j] in q;
        if q[j] != x {
          var k :| 0 <= k < |s[1..]| && s[1..][k] == q[j];
          assert s[k + 1] == q[j];
        }
      }
    }
  }

  /** A text-ordered list comes out shorter first, equal lengths in text order. */
  lemma {:induction false} LenSortStable(s: seq<string>)
    requires StrictlyLex(s)
    ensures StrictlySorted(LenSort(s)) && forall x :: x in LenSort(s) <==> x in s
  {
    LenSortOrders(s);
    assert forall x :: x in LenSort(s) <==> x in multiset(LenSort(s));
    if s != [] {
      LenSortStable(s[1..]);
      LenSortOrders(s[1..]);
      forall y | y in LenSort(s[1..]) ensures LexLess(s[0], y) {
        var k :| 0 <= k < |s[1..]| && s[1..][k] == y;
        assert s[k + 1] == y;
      }
      LenInsertStable(s[0], LenSort(s[1..]));
    }
  }

  // ================================================================ pruning in place

  ghost predicate BelowAny(e: string, dirs: set<string>) {
    exists d :: d in dirs && d < e
  }

  /** The elements below none of the directories, in order. */
  ghost function Survivors(s: seq<string>, dirs: set<string>): seq<string> {
    if s == [] then []
    else Survivors(s[..|s| - 1], dirs) + if BelowAny(s[|s| - 1], dirs) then [] else [s[|s| - 1]]
  }

  lemma {:induction false} SurvivorsMembers(s: seq<string>, dirs: set<string>, e: string)
    ensures e in Survivors(s, dirs) <==> e in s && !BelowAny(e, dirs)
  {
    if s != [] {
      SurvivorsMembers(s[..|s| - 1], dirs, e);
      assert s == s[..|s| - 1] + [s[|s| - 1]];
    }
  }

  lemma {:induction false} SurvivorsOfNone(s: seq<string>)
    ensures Survivors(s, {}) == s
  {
    if s != [] {
      SurvivorsOfNone(s[..|s| - 1]);
      assert !BelowAny(s[|s| - 1], {});
    }
  }

  lemma {:induction false} SurvivorsTwice(s: seq<string>, dirs: set<string>, d: string)
    ensures Survivors(Survivors(s, dirs), {d}) == Survivors(s, dirs + {d})
  {
    if s != [] {
      var last, init := s[|s| - 1], Survivors(s[..|s| - 1], dirs);
      SurvivorsTwice(s[..|s| - 1], dirs, d);
      BelowOne(last, dirs, d);
      if BelowAny(last, dirs) {
        assert Survivors(s, dirs) == init;
      } else {
        assert Survivors(s, dirs) == init + [last] && (init + [last])[..|init|] == init;
      }
    }
  }

  lemma BelowOne(e: string, dirs: set<string>, d: string)
    ensures BelowAny(e, {d}) <==> d < e
    ensures BelowAny(e, dirs + {d}) <==> BelowAny(e, dirs) || d < e
  {
    assert d in dirs + {d} && d in {d};
    forall x | x in dirs ensures x in dirs + {d} {}
  }

  lemma BelowMember(e: string, dirs: set<string>, d: string)
    requires d in dirs && d < e
    ensures BelowAny(e, dirs)
  {
  }

  lemma BelowBelow(e: string, d: string, dirs: set<string>)
    requires BelowAny(d, dirs) && d < e
    ensures BelowAny(e, dirs)
  {
    var c :| c in dirs && c < d;
    assert c < e;
  }

  lemma {:induction false} SameSurvivors(s: seq<string>, a: set<string>, b: set<string>)
    requires forall e :: e in s ==> (BelowAny(e, a) <==> BelowAny(e, b))
    ensures Survivors(s, a) == Survivors(s, b)
  {
    if s != [] { SameSurvivors(s[..|s| - 1], a, b); }
  }

  lemma {:induction false} SurvivorsStayOrdered(s: seq<string>, dirs: set<string>)
    ensures LenOrdered(s) ==> LenOrdered(Survivors(s, dirs))
    ensures StrictlySorted(s) ==> StrictlySorted(Survivors(s, dirs))
  {
    if s != [] {
      var init, r := s[..|s| - 1], Survivors(s[..|s| - 1], dirs);
      SurvivorsStayOrdered(init, dirs);
      forall i | 0 <= i < |r| ensures r[i] in init {
        assert r[i] in r;
        SurvivorsMembers(init, dirs, r[i]);
      }
    }
  }

  /** A list ordered by length keeps everything up to a directory when that directory prunes it. */
  lemma {:induction false} StartSurvives(s: seq<string>, i: nat, k: nat)
    requires LenOrdered(s) && i < |s| && k <= i + 1
    ensures Survivors(s[..k], {s[i]}) == s[..k]
  {
    if k > 0 {
      StartSurvives(s, i, k - 1);
      SurvivorsStep(s, k - 1, {s[i]});
      BelowOne(s[k - 1], {}, s[i]);
      NotBelowLater(s, k - 1, i);
      hide Survivors, BelowAny, LenOrdered;
      assert s[..k] == s[..k - 1] + [s[k - 1]];
    } else {
      assert s[..k] == [];
    }
  }

  lemma NotBelowLater(s: seq<string>, k: nat, i: nat)
    requires LenOrdered(s) && k <= i < |s|
    ensures !(s[i] < s[k])
  {
  }

  lemma SurvivorsStep(s: seq<string>, k: nat, dirs: set<string>)
    requires k < |s|
    ensures Survivors(s[..k + 1], dirs) == Survivors(s[..k], dirs) + if BelowAny(s[k], dirs) then [] else [s[k]]
  {
    assert s[..k + 1][..k] == s[..k];
  }

  /** The inner loop has dealt with the first m elements; the next one is at position j. */
  ghost predicate Removing(start: seq<string>, i: nat, m: nat, cur: seq<string>, j: nat) {
    && i < m <= |start| && i < j <= |cur| <= |start|
    && cur == Survivors(start[..m], {start[i]}) + start[m..] && j == |Survivors(start[..m], {start[i]})|
    && cur[..i + 1] == start[..i + 1]
  }

  lemma RemoveStart(start: seq<string>, i: nat)
    requires LenOrdered(start) && i < |start|
    ensures Removing(start, i, i + 1, start, i + 1)
  {
    StartSurvives(start, i, i + 1);
  }

  /** What one turn of the inner loop does to the list. */
  lemma RemoveStep(start: seq<string>, i: nat, m: nat, cur: seq<string>, j: nat)
    requires Removing(start, i, m, cur, j) && j < |cur|
    ensures if |cur[i]| < |cur[j]| && cur[i] <= cur[j]
      then Removing(start, i, m + 1, cur[..j] + cur[j + 1..], j)
      else Removing(start, i, m + 1, cur, j + 1)
  {
    var kept := Survivors(start[..m], {start[i]});
    assert cur[i] == cur[..i + 1][i] == start[i] && cur[j] == start[m];
    SurvivorsStep(start, m, {start[i]});
    BelowOne(start[m], {}, start[i]);
    hide Survivors, BelowAny;
    assert start[m..] == [start[m]] + start[m + 1..];
    assert cur == kept + [start[m]] + start[m + 1..];
    var cut := cur[..j] + cur[j + 1..];
    assert cut == kept + start[m + 1..];
    assert cut[..i + 1] == cur[..i + 1];
  }

  lemma RemoveEnd(start: seq<string>, i: nat, m: nat, cur: seq<string>, j: nat)
    requires Removing(start, i, m, cur, j) && j == |cur|
    ensures cur == Survivors(start, {start[i]}) && i < |cur| <= |start| && cur[..i + 1] == start[..i + 1]
  {
    assert start[..m] == start;
  }

  /** The inner loop: deletes, in place, everything after position i that lies below it. */
  method RemoveBelow(start: seq<string>, i: nat) returns (mergedfs: seq<string>)
    requires LenOrdered(start) && i < |start|
    ensures mergedfs == Survivors(start, {start[i]})
    ensures i < |mergedfs| <= |start| && mergedfs[..i + 1] == start[..i + 1]
  {
    hide *;
    RemoveStart(start, i);
    mergedfs := start;
    var j, lenMergedFs := i + 1, |mergedfs|;
    ghost var m: nat := i + 1;
    while j < lenMergedFs
      invariant i < j <= |mergedfs| == lenMergedFs && Removing(start, i, m, mergedfs, j)
      decreases lenMergedFs - j
    {
      RemoveStep(start, i, m, mergedfs, j);
      m := m + 1;
      if |mergedfs[i]| < |mergedfs[j]| && mergedfs[i] <= mergedfs[j] {
        lenMergedFs := lenMergedFs - 1;
        mergedfs := mergedfs[..j] + mergedfs[j + 1..];
        continue;
      }
      j := j + 1;
    }
    RemoveEnd(start, i, m, mergedfs, j);
  }

  /** The outer loop: every directory, from the front, deletes what lies below it. On a list ordered by
      length exactly the elements below no directory of the list remain. */
  method PruneBelowDirectories(start: seq<string>) returns (mergedfs: seq<string>)
    requires LenOrdered(start)
    ensures mergedfs == Survivors(start, Directories(start))
  {
    mergedfs := start;
    var i, lenMergedFs := 0, |mergedfs|;
    SurvivorsOfNone(start);
    assert Directories(mergedfs[..0]) == {};
    hide *;
    while i < lenMergedFs
      invariant i <= |mergedfs| == lenMergedFs
      invariant mergedfs == Survivors(start, Directories(mergedfs[..i]))
      decreases lenMergedFs - i
    {
      ghost var before, dirs := mergedfs, Directories(mergedfs[..i]);
      SurvivorsStayOrdered(start, dirs);
      if HasSlash(mergedfs[i]) {
        mergedfs := RemoveBelow(mergedfs, i);
        lenMergedFs := |mergedfs|;
        SurvivorsTwice(start, dirs, before[i]);
      }
      DirectoriesStep(before, mergedfs, i);
      assert dirs + {} == dirs;
      i := i + 1;
    }
    assert mergedfs[..i] == mergedfs;
    FinalSurvivors(start, mergedfs);
  }

  lemma DirectoriesStep(before: seq<string>, after: seq<string>, i: nat)
    requires i < |before| && i < |after| && after[..i + 1] == before[..i + 1]
    ensures Directories(after[..i + 1]) == Directories(before[..i]) + if HasSlash(before[i]) then {before[i]} else {}
  {
    assert before[..i + 1] == before[..i] + [before[i]];
  }

  /** A removed directory lies below one that remains, so the remaining ones decide alone. */
  lemma FinalSurvivors(start: seq<string>, r: seq<string>)
    requires r == Survivors(start, Directories(r))
    ensures r == Survivors(start, Directories(start))
  {
    forall e | e in start ensures BelowAny(e, Directories(r)) <==> BelowAny(e, Directories(start)) {
      if BelowAny(e, Directories(r)) {
        var d :| d in Directories(r) && d < e;
        SurvivorsMembers(start, Directories(r), d);
        BelowMember(e, Directories(start), d);
      }
      if BelowAny(e, Directories(start)) {
        var d :| d in Directories(start) && d < e;
        SurvivorsMembers(start, Directories(r), d);
        if d in r { BelowMember(e, Directories(r), d); } else { BelowBelow(e, d, Directories(r)); }
      }
    }
    SameSurvivors(start, Directories(r), Directories(start));
  }

  /** After pruning nothing lies below a remaining directory, and everything removed does. */
  lemma PrunedList(start: seq<string>, e: string)
    ensures var r := Survivors(start, Directories(start));
      && (e in r ==> !BelowAny(e, Directories(r)))
      && (e in start && e !in r ==> BelowAny(e, Directories(r)))
  {
    var dirs := Directories(start);
    var r := Survivors(start, dirs);
    SurvivorsMembers(start, dirs, e);
    if e in r && BelowAny(e, Directories(r)) {
      var d :| d in Directories(r) && d < e;
      SurvivorsMembers(start, dirs, d);
      BelowMember(e, dirs, d);
    }
    if BelowAny(e, dirs) {
      var d0 :| d0 in dirs && d0 < e;
      var d := ShortestAbove(start, d0);
      SurvivorsMembers(start, dirs, d);
      BelowMember(e, Directories(r), d);
    }
  }

  lemma {:induction false} ShortestAbove(start: seq<string>, d0: string) returns (d: string)
    requires d0 in Directories(start)
    ensures d in Directories(start) && d <= d0 && !BelowAny(d, Directories(start))
    decreases |d0|
  {
    if d1 :| d1 in Directories(start) && d1 < d0 {
      d := ShortestAbove(start, d1);
    } else {
      d := d0;
    }
  }

  // ================================================================ one update

  /** What an update of a network set keeps: everything but the empty text that lies below no directory. */
  ghost predicate KeptPlain(m: set<string>, e: string) {
    e in m && e != "" && forall d :: d in m && HasSlash(d) ==> !(d < e)
  }

  lemma WithoutEmpty(m: set<string>, m': set<string>)
    requires forall x :: x in m' <==> x in m && x != ""
    ensures forall e :: InExt(m', e) <==> InExt(m, e)
    ensures CleanSet(m) ==> CleanSet(m')
  {
    forall x ensures KeptFile(m', x) <==> KeptFile(m, x) {
      assert Dir(x) + "/" != "";
    }
    assert FileTokens(m') == FileTokens(m);
  }

  lemma KeptAreSurvivors(m: set<string>, start: seq<string>)
    requires StrictlySorted(start) && forall e :: e in start <==> InExt(m, e)
    ensures IsUpdate(m, Survivors(start, Directories(start)))
  {
    hide InExt, StrictlySorted;
    var r := Survivors(start, Directories(start));
    SurvivorsStayOrdered(start, Directories(start));
    forall e ensures e in r <==> Kept(m, e) {
      SurvivorsMembers(start, Directories(start), e);
      forall d ensures d in Directories(start) <==> InExtDir(m, d) {}
    }
  }

  lemma PlainSurvivors(m: set<string>, start: seq<string>, e: string)
    requires forall x :: x in start <==> x in m && x != ""
    ensures e in Survivors(start, Directories(start)) <==> KeptPlain(m, e)
  {
    SurvivorsMembers(start, Directories(start), e);
    assert forall d :: d in Directories(start) <==> d in m && HasSlash(d);
    if BelowAny(e, Directories(start)) {
      var d :| d in Directories(start) && d < e;
    } else if d :| d in m && HasSlash(d) && d < e {
      BelowMember(e, Directories(start), d);
    }
  }

  /** One update of a stored list by the resources of one batch. */
  method UpdateList(fs: seq<string>, stored: seq<string>, isNetworkOp: bool) returns (mergedfs: seq<string>)
    ensures LenOrdered(mergedfs) && NoneNested(mergedfs)
    ensures !isNetworkOp && CleanSet(Members(stored) + Members(fs)) ==>
      IsUpdate(Members(stored) + Members(fs), mergedfs)
    ensures isNetworkOp ==>
      StrictlySorted(mergedfs) && forall e :: e in mergedfs <==> KeptPlain(Members(stored) + Members(fs), e)
  {
    hide *;
    ghost var m := Members(stored) + Members(fs);
    mergedfs := RemoveDuplicates(fs + stored);
    ghost var distinct := mergedfs;
    MembersOfBoth(fs, stored, distinct);
    StrictIsOrdered(distinct);
    if !isNetworkOp {
      mergedfs := AggregatePathsExt(mergedfs);
      WithoutEmpty(m, Members(distinct));
    }
    LenSortOrders(mergedfs);
    if StrictlyLex(mergedfs) { LenSortStable(mergedfs); }
    mergedfs := LenSort(mergedfs);
    ghost var sorted := mergedfs;
    mergedfs := PruneBelowDirectories(mergedfs);
    SurvivorsStayOrdered(sorted, Directories(sorted));
    PrunedIsNotNested(sorted);
    if !isNetworkOp && CleanSet(m) { KeptAreSurvivors(m, sorted); }
    if isNetworkOp {
      forall e ensures e in mergedfs <==> KeptPlain(m, e) { PlainSurvivors(m, sorted, e); }
    }
  }

  lemma MembersOfBoth(fs: seq<string>, stored: seq<string>, r: seq<string>)
    requires forall x :: x in r <==> x in fs + stored && x != ""
    ensures "" !in r && forall x :: x in Members(r) <==> x in Members(stored) + Members(fs) && x != ""
    ensures forall x :: x in r <==> x in Members(stored) + Members(fs) && x != ""
  {
  }

  lemma StrictIsOrdered(s: seq<string>)
    requires StrictlyLex(s)
    ensures LexOrdered(s)
  {
    forall i, j | 0 <= i < j < |s| ensures !LexLess(s[j], s[i]) { LexTotal(s[i], s[j]); }
  }

  lemma PrunedIsNotNested(start: seq<string>)
    ensures NoneNested(Survivors(start, Directories(start)))
  {
    var r := Survivors(start, Directories(start));
    forall d, e | d in r && e in r && HasSlash(d) ensures !(d < e) {
      PrunedList(start, e);
      if d < e { BelowMember(e, Directories(r), d); }
    }
  }
}
