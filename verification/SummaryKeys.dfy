/** Which summary an alert is counted in, said of the alerts themselves. */
module SummaryKeys {
  import opened Paths
  import opened SysTrie
  import opened SysForest
  import opened Summary

  // ================================================================ which path a destination is listed under

  /** The cut of one path is the cut of every path of the set at or below it. */
  lemma CutBelowOutput(f: set<Path>, p: Path, o: Out)
    requires p in f && p != [] && Aggregated(f, o) && o.path <= p
    ensures CutOf(f, p, o)
  {
    var q :| q in f && q != [] && CutOf(f, q, o);
    if q[0] != TMP {
      CutCovers(f, q, 1, o);
      var n := |o.path|;
      assert p[0] == o.path[0] == q[0] && p[..n] == o.path == q[..n];
      if o.dir {
        assert Full(f, p[..n]);
        forall j | 1 <= j < n ensures !Full(f, p[..j]) { assert p[..j] == q[..j]; }
        assert FirstFull(f, p, 1, n);
      } else {
        if q < p { Continues(f, q, p); }
        assert p == q;
      }
    } else {
      assert p[0] == o.path[0] == TMP;
    }
  }

  /** An aggregated path stands for a destination exactly when the destination is cut to it, and is not
      itself the directory: the text of a directory ends in a slash, the destination does not. */
  lemma MatchesExactly(f: set<Path>, p: Path, o: Out)
    requires AllSegments(f) && p in f && p != [] && Aggregated(f, o)
    ensures Matches(Concat(p), Text(o)) <==> CutOf(f, p, o) && (o.dir ==> o.path != p)
  {
    OutputSegments(f, o);
    assert Text(o) == if o.dir then Concat(o.path) + "/" else Concat(o.path);
    TokensOfMember(f, p);
    if Matches(Concat(p), Text(o)) {
      MatchBegins(f, o, Concat(p));
      CutBelowOutput(f, p, o);
      assert |Text(o)| <= |Concat(p)|;
    }
    if CutOf(f, p, o) && (o.dir ==> o.path != p) {
      if p[0] != TMP { CutCovers(f, p, 1, o); }
      if o.dir { UnderDirectory(o.path, p); }
      TrimmedText(o);
    }
  }

  lemma TrimmedText(o: Out)
    requires !HasSlash(Concat(o.path))
    ensures TrimSlash(Text(o)) == Concat(o.path)
    ensures Text(o) == if o.dir then Concat(o.path) + "/" else Concat(o.path)
  {
    var x := Concat(o.path);
    assert (x + "/")[..|x|] == x;
  }

  lemma TokensOfMember(f: set<Path>, p: Path)
    requires AllSegments(f) && p in f
    ensures AllTokens(p) && Tokenize(Concat(p)) == p
  {
    forall i | 0 <= i < |p| ensures IsToken(p[i]) { assert IsSegment(p[i]); }
    TokenizeConcat(p);
  }

  // ================================================================ which summary an alert is counted in

  /** The file paths seen in the same pod from the same process. */
  ghost function SeenBeside(m: Counters, s: Entry): set<Path> {
    set x | x in m && x.operation == "File" && x.podName == s.podName && x.source == s.source
      && Tokenize(x.destination) != [] :: Tokenize(x.destination)
  }

  /** The summary of a file alert whose path is p, among the paths f: under the directory the path is cut
      to, and under its own path when it is not cut to a directory above it. */
  ghost predicate CountedAs(f: set<Path>, p: Path, s: Entry, k: Entry)
    requires p != []
  {
    if o :| CutOf(f, p, o) && o.dir && o.path != p then k == s.(destination := Concat(o.path) + "/")
    else k == s
  }

  /** The text is that of its tokens: nothing comes before them or between them. */
  predicate IsPathText(d: string) {
    Tokenize(d) != [] && Concat(Tokenize(d)) == d
  }

  ghost predicate PodNamesPlain(m: Counters) {
    forall s :: s in m ==> '_' !in s.podName
  }

  /** A text has one way to be read as a pod name and a process, if no pod name has an underscore. */
  lemma {:induction false} KeyReads(a: Entry, b: Entry)
    requires '_' !in a.podName && '_' !in b.podName
    ensures GroupKey(a) == GroupKey(b) <==> a.podName == b.podName && a.source == b.source
  {
    if GroupKey(a) == GroupKey(b) {
      var i, j := |a.podName|, |b.podName|;
      assert GroupKey(a)[i] == '_' && GroupKey(b)[j] == '_';
      assert forall k :: 0 <= k < i ==> GroupKey(a)[k] == a.podName[k];
      assert forall k :: 0 <= k < j ==> GroupKey(b)[k] == b.podName[k];
      assert i == j;
      assert a.podName == GroupKey(a)[..i] == GroupKey(b)[..j] == b.podName;
      assert a.source == GroupKey(a)[i + 1..] == GroupKey(b)[j + 1..] == b.source;
    }
  }

  /** Otherwise two processes may share a key, and the paths of one are aggregated with those of the other. */
  lemma KeysCollide(a: Entry, b: Entry)
    requires a.podName == "a" && a.source == "b_/c" && b.podName == "a_b" && b.source == "/c"
    ensures GroupKey(a) == GroupKey(b)
  {
    assert "a" + "_" + "b_/c" == "a_b_/c" == "a_b" + "_" + "/c";
  }

  /** The pod name of a continues that of b with an underscore and a text with which the process of b begins. */
  ghost predicate Straddles(a: Entry, b: Entry) {
    exists x: string :: Shares(a, b, x)
  }

  ghost predicate Shares(a: Entry, b: Entry, x: string) {
    a.podName == b.podName + "_" + x && b.source == x + "_" + a.source
  }

  lemma LongerShares(a: Entry, b: Entry)
    requires GroupKey(a) == GroupKey(b) && |a.podName| > |b.podName|
    ensures Straddles(a, b)
  {
    var i, j, k := |a.podName|, |b.podName|, GroupKey(a);
    assert k[..i] == a.podName && k[i] == '_' && k[i + 1..] == a.source;
    assert k[..j] == b.podName && k[j] == '_' && k[j + 1..] == b.source;
    var x := k[j + 1..i];
    assert a.podName == k[..j] + [k[j]] + x && b.source == x + [k[i]] + k[i + 1..];
    assert Shares(a, b, x);
  }

  /** Exactly when two summaries are aggregated together: they are of one pod and process, or a pod name
      continues the other with an underscore and the beginning of the other's process. */
  lemma KeysMeetExactly(a: Entry, b: Entry)
    ensures GroupKey(a) == GroupKey(b) <==>
      (a.podName == b.podName && a.source == b.source) || Straddles(a, b) || Straddles(b, a)
  {
    if x :| Shares(a, b, x) {
      assert b.podName + "_" + x + "_" + a.source == b.podName + "_" + (x + "_" + a.source);
    }
    if x :| Shares(b, a, x) {
      assert a.podName + "_" + x + "_" + b.source == a.podName + "_" + (x + "_" + b.source);
    }
    if GroupKey(a) == GroupKey(b) {
      if |a.podName| > |b.podName| {
        LongerShares(a, b);
      } else if |b.podName| > |a.podName| {
        LongerShares(b, a);
      } else {
        var i, k := |a.podName|, GroupKey(a);
        assert k[..i] == a.podName && k[i + 1..] == a.source;
        assert k[..i] == b.podName && k[i + 1..] == b.source;
      }
    }
  }

  lemma GroupIsSeenBeside(m: Counters, s: Entry)
    requires PodNamesPlain(m) && s in m
    ensures TokensOf(m, GroupKey(s)) == SeenBeside(m, s)
  {
    forall x | x in m ensures GroupKey(x) == GroupKey(s) <==> x.podName == s.podName && x.source == s.source {
      KeyReads(x, s);
    }
    var key := GroupKey(s);
    forall p ensures p in TokensOf(m, key) <==> p in SeenBeside(m, s) {
      if p in TokensOf(m, key) {
        var d :| d in FilesOf(m, key) && Tokenize(d) != [] && p == Tokenize(d);
        var x :| x in m && IsFile(x) && GroupKey(x) == key && x.destination == d;
      }
      if p in SeenBeside(m, s) {
        var x :| x in m && x.operation == "File" && x.podName == s.podName && x.source == s.source
          && Tokenize(x.destination) != [] && p == Tokenize(x.destination);
        assert x.destination in FilesOf(m, key);
      }
    }
  }

  /** A destination is replaced by the directory it is cut to. */
  lemma RekeyedAs(files: seq<SysPath>, outs: seq<Out>, f: set<Path>, p: Path, s: Entry)
    requires AllSegments(f) && ListsOutputs(files, outs, f) && p in f && p != [] && s.destination == Concat(p)
    ensures CountedAs(f, p, s, RekeyIn(files, s))
  {
    var i := RekeyInFirst(files, s);
    forall o | o in outs ensures Matches(s.destination, Text(o)) <==> CutOf(f, p, o) && (o.dir ==> o.path != p) {
      MatchesExactly(f, p, o);
    }
    if i < |files| {
      var o := outs[i];
      assert o in outs && files[i].path == Text(o);
      OutputSegments(f, o);
      TrimmedText(o);
      OwnPathIsUnchanged(f, p, o, s);
    } else {
      forall o | o in outs ensures !Matches(s.destination, Text(o)) {
        var j :| 0 <= j < |outs| && outs[j] == o;
        assert files[j].path == Text(o);
      }
      forall o | CutOf(f, p, o) ensures o in outs { assert Aggregated(f, o); }
    }
  }

  lemma OneCut(f: set<Path>, p: Path, a: Out, b: Out)
    requires p != [] && CutOf(f, p, a) && CutOf(f, p, b)
    ensures a == b
  {
    if p[0] != TMP { CutUnique(f, p, a, b); }
  }

  lemma OwnPathIsUnchanged(f: set<Path>, p: Path, o: Out, s: Entry)
    requires p != [] && s.destination == Concat(p) && CutOf(f, p, o) && (o.dir ==> o.path != p)
    ensures CountedAs(f, p, s, s.(destination := if o.dir then Concat(o.path) + "/" else Concat(o.path)))
  {
    forall c | CutOf(f, p, c) ensures c == o { OneCut(f, p, c, o); }
    if !o.dir && p[0] != TMP { CutCovers(f, p, 1, o); }
  }

  /** Aggregating the counters leaves every summary of another operation, and counts every file alert
      under the directory its path is cut to among the paths of its own pod and process. */
  lemma CountedUnderItsDirectory(m: Counters, r: Counters, s: Entry) returns (k: Entry)
    requires CleanDestinations(m) && PodNamesPlain(m) && IsAggregate(m, r) && s in m
    ensures k in r && k == s.(destination := k.destination)
    ensures s.operation != "File" ==> k == s && r[k] == m[s]
    ensures s.operation == "File" && IsPathText(s.destination) ==>
      CountedAs(SeenBeside(m, s), Tokenize(s.destination), s, k)
    ensures s.operation == "File" ==> r[k].updatedTime >= m[s].updatedTime
  {
    hide CleanDestinations, CountedAs, AggregatesGroups, Folded, LatestAt;
    var agg :| AggregatesGroups(m, agg) && Folded(OtherEntries(m), FileEntries(m), agg, r);
    if s.operation == "File" {
      k := Rekey(agg, s);
      RekeyKeeps(agg, s);
      SameButDestination(s, k);
      CountedInFold(m, agg, r, s);
      if IsPathText(s.destination) {
        RekeyedInGroup(m, agg, s);
      }
    } else {
      k := s;
      KeptInFold(m, agg, r, s);
    }
  }

  lemma CountedInFold(m: Counters, agg: map<string, seq<SysPath>>, r: Counters, s: Entry)
    requires Folded(OtherEntries(m), FileEntries(m), agg, r) && s in m && IsFile(s) && IsFile(Rekey(agg, s))
    ensures Rekey(agg, s) in r && r[Rekey(agg, s)].updatedTime >= m[s].updatedTime
  {
    hide Rekey;
    assert s in FileEntries(m) && Rekey(agg, s) !in OtherEntries(m);
    assert CountedUnder(FileEntries(m), agg, Rekey(agg, s), s);
  }

  lemma KeptInFold(m: Counters, agg: map<string, seq<SysPath>>, r: Counters, s: Entry)
    requires Folded(OtherEntries(m), FileEntries(m), agg, r) && s in m && !IsFile(s)
    ensures s in r && r[s] == m[s]
  {
    hide Rekey, LatestAt;
    assert s in OtherEntries(m);
  }

  lemma SameButDestination(s: Entry, k: Entry)
    requires Erased(s) == Erased(k)
    ensures k == s.(destination := k.destination)
  {
    assert Erased(s).(destination := k.destination) == Erased(k).(destination := k.destination);
  }

  lemma RekeyedInGroup(m: Counters, agg: map<string, seq<SysPath>>, s: Entry)
    requires CleanDestinations(m) && PodNamesPlain(m) && AggregatesGroups(m, agg) && s in m && IsFile(s)
    requires IsPathText(s.destination)
    ensures CountedAs(SeenBeside(m, s), Tokenize(s.destination), s, Rekey(agg, s))
  {
    var key := GroupKey(s);
    var f := TokensOf(m, key);
    assert AggregatesGroup(m, agg, key);
    var outs :| ListsOutputs(agg[key], outs, f);
    assert s.destination in FilesOf(m, key);
    assert Tokenize(s.destination) in f;
    GroupIsSeenBeside(m, s);
    RekeyedAs(agg[key], outs, f, Tokenize(s.destination), s);
  }

  lemma LatestInFold(m: Counters, agg: map<string, seq<SysPath>>, r: Counters, k: Entry) returns (s: Entry)
    requires Folded(OtherEntries(m), FileEntries(m), agg, r) && k in r && k !in OtherEntries(m)
    ensures CountedUnder(FileEntries(m), agg, k, s) && s in m && m[s].updatedTime == r[k].updatedTime
  {
    hide Rekey;
    var t := r[k].updatedTime;
    assert LatestAt(FileEntries(m), agg, k, t);
    s :| CountedUnder(FileEntries(m), agg, k, s) && FileEntries(m)[s].updatedTime == t;
  }

  /** Nothing else appears among the aggregated counters, and every time is that of an alert counted there. */
  lemma NothingElseIsCounted(m: Counters, r: Counters, k: Entry) returns (s: Entry)
    requires IsAggregate(m, r) && k in r
    ensures s in m && r[k].updatedTime == m[s].updatedTime
    ensures s.operation == k.operation && s.podName == k.podName && s.source == k.source && s.rest == k.rest
    ensures s.operation != "File" ==> k == s
  {
    hide AggregatesGroups, Folded;
    var agg :| AggregatesGroups(m, agg) && Folded(OtherEntries(m), FileEntries(m), agg, r);
    KeysOfFolded(OtherEntries(m), FileEntries(m), agg, r, k);
    if k in OtherEntries(m) {
      s := k;
      KeptInFold(m, agg, r, s);
    } else {
      hide Rekey;
      s := LatestInFold(m, agg, r, k);
      RekeyKeeps(agg, s);
      SameButDestination(s, k);
    }
  }
}
