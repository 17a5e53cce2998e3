/** What the stored file sets mean for the logs themselves: whatever a log names stays covered, and nothing is
    stored that no log named. */
module FileSetLogs {
  import opened Wrappers
  import opened Paths
  import opened SysTrie
  import opened SysForest
  import opened DirPath
  import opened FileSet
  import opened FileSetUpdate
  import opened FileSetStore
  import LabelText

  // ================================================================ which workload a log concerns

  /** The first pod of the name and namespace. */
  ghost predicate FirstPod(pods: seq<Pod>, slog: SysLog, i: nat) {
    && i < |pods| && pods[i].podName == slog.podName && pods[i].namespace == slog.namespace
    && forall k :: 0 <= k < i ==> pods[k].podName != slog.podName || pods[k].namespace != slog.namespace
  }

  lemma {:induction false} PodFound(pods: seq<Pod>, slog: SysLog) returns (i: nat)
    requires PodLabels(slog.podName, slog.namespace, pods).Some?
    ensures FirstPod(pods, slog, i) && PodLabels(slog.podName, slog.namespace, pods) == Some(pods[i].labels)
    decreases |pods|
  {
    if pods[0].namespace == slog.namespace && pods[0].podName == slog.podName {
      i := 0;
    } else {
      i := PodFound(pods[1..], slog);
      i := i + 1;
      forall k | 0 <= k < i ensures pods[k].podName != slog.podName || pods[k].namespace != slog.namespace {
        if k > 0 { assert pods[k] == pods[1..][k - 1]; }
      }
    }
  }

  lemma {:induction false} NoPodFound(pods: seq<Pod>, slog: SysLog)
    ensures PodLabels(slog.podName, slog.namespace, pods) == None ==> forall i :: !FirstPod(pods, slog, i)
    decreases |pods|
  {
    if pods != [] {
      NoPodFound(pods[1..], slog);
      forall i: nat | FirstPod(pods, slog, i) ensures PodLabels(slog.podName, slog.namespace, pods).Some? {
        if i > 0 {
          assert pods[1..][i - 1] == pods[i];
          assert forall k :: 0 <= k < i - 1 ==> pods[1..][k] == pods[k + 1];
          assert FirstPod(pods[1..], slog, i - 1);
        }
      }
    }
  }

  /** A log concerns one workload process: that of its own cluster, container, namespace and source, with
      the labels of its pod, and in the container namespace one label more. It concerns none only if its pod
      is not known. */
  lemma WorkloadOfLog(settype: string, pods: seq<Pod>, slog: SysLog, i: nat)
    ensures WorkloadOf(settype, pods, slog) == None <==> forall k :: !FirstPod(pods, slog, k)
    ensures FirstPod(pods, slog, i) ==>
      var own := ["kubearmor.io/container.name=" + slog.containerName];
      var labels := pods[i].labels + if slog.namespace == "container_namespace" then own else [];
      WorkloadOf(settype, pods, slog) == Some(Workload(slog.clusterName, slog.containerName, slog.namespace,
                                                       LabelText.Join(labels), slog.source, settype))
  {
    NoPodFound(pods, slog);
    if PodLabels(slog.podName, slog.namespace, pods).Some? {
      var j := PodFound(pods, slog);
      assert FirstPod(pods, slog, i) ==> i == j;
      assert pods[j].labels + [] == pods[j].labels;
    }
  }

  lemma {:induction false} NamedMembers(settype: string, pods: seq<Pod>, slogs: seq<SysLog>, w: Workload, x: string)
    ensures x in NamedBy(settype, pods, slogs, w) <==>
      exists i :: 0 <= i < |slogs| && WorkloadOf(settype, pods, slogs[i]) == Some(w) && slogs[i].resource == x
  {
    if slogs != [] {
      var last := |slogs| - 1;
      NamedMembers(settype, pods, slogs[..last], w, x);
      hide WorkloadOf;
      if i :| 0 <= i < last && WorkloadOf(settype, pods, slogs[..last][i]) == Some(w)
              && slogs[..last][i].resource == x {
        assert WorkloadOf(settype, pods, slogs[i]) == Some(w);
      }
      if i :| 0 <= i < |slogs| && WorkloadOf(settype, pods, slogs[i]) == Some(w) && slogs[i].resource == x {
        if i < last { assert WorkloadOf(settype, pods, slogs[..last][i]) == Some(w); }
      }
    }
  }

  // ================================================================ coverage of logs

  ghost predicate CleanText(x: string) {
    x == "" || IsFile(x) || IsDirectory(x)
  }

  ghost predicate AllCleanTexts(named: seq<string>) {
    forall x :: x in named ==> CleanText(x)
  }

  /** Not the file /tmp, and no other log names a file below it. */
  ghost predicate IsLeaf(named: seq<string>, x: string) {
    x != "/tmp" && forall y :: y in named && IsFile(y) ==> !(x + "/" <= y)
  }

  /** Texts that begin like /proc or /sys without lying in the directory. */
  predicate OnlyBeginsLike(x: string) {
    ("/proc" <= x && !("/proc/" <= x)) || ("/sys" <= x && !("/sys/" <= x))
  }

  /** The log names something at or below the directory, or a text that stands for it. */
  predicate Calls(x: string, d: string) {
    d <= x || (d == "/proc/" && "/proc" <= x) || (d == "/sys/" && "/sys" <= x) || (d == "/tmp/" && x == "/tmp")
  }

  lemma DirectoriesHaveSlashes()
    ensures HasSlash("/proc/") && HasSlash("/sys/") && !IsFile("/proc/") && !IsFile("/sys/")
  {
    if IsFile("/proc/") { FileHasNoSlash("/proc/"); }
    if IsFile("/sys/") { FileHasNoSlash("/sys/"); }
  }

  /** What is observed for a resource: itself, or a directory that it calls for and, unless it only begins
      like it, lies in. */
  lemma StandsInfo(e: string, x: string)
    requires StandsFor(e, x)
    ensures e == x || (HasSlash(e) && IsDirectory(e) && !IsFile(e) && Calls(x, e))
    ensures e != x && !OnlyBeginsLike(x) ==> e < x
  {
    SystemDirectories();
    DirectoriesHaveSlashes();
  }

  lemma CleanBatches(batches: seq<seq<string>>, named: seq<string>)
    requires Reflects(batches, named) && AllCleanTexts(named)
    ensures AllClean(batches)
  {
    hide IsFile, IsDirectory, StandsFor, HasSlash, Calls, OnlyBeginsLike;
    forall k | 0 <= k < |batches| ensures CleanSet(Members(batches[k])) {
      forall e | e in Members(batches[k]) ensures e == "" || IsFile(e) || IsDirectory(e) {
        assert Observed(batches, |batches|, e);
        var x :| x in named && StandsFor(e, x);
        assert CleanText(x);
        StandsInfo(e, x);
      }
    }
  }

  lemma FileBelow(x: string, y: string)
    requires IsFile(x) && IsFile(y)
    ensures x + "/" <= y <==> Tokenize(x) < Tokenize(y)
  {
    NamesAreTokens(Tokenize(x));
    NamesAreTokens(Tokenize(y));
    UnderDirectory(Tokenize(x), Tokenize(y));
  }

  lemma LeafFile(batches: seq<seq<string>>, named: seq<string>, x: string)
    requires Reflects(batches, named) && IsFile(x) && IsLeaf(named, x)
    ensures IsLeafOf(batches, |batches|, x)
  {
    var n := |batches|;
    NotTmp(x);
    hide IsFile, IsDirectory, StandsFor, HasSlash, Calls, OnlyBeginsLike, Tokenize;
    forall p | ObservedFile(batches, n, p) ensures !(Tokenize(x) < p) {
      var e :| Observed(batches, n, e) && IsFile(e) && Tokenize(e) == p;
      var y :| y in named && StandsFor(e, y);
      StandsInfo(e, y);
      FileBelow(x, e);
    }
  }

  lemma NotTmp(x: string)
    requires IsFile(x) && x != "/tmp"
    ensures Tokenize(x) != [TMP]
  {
    ConcatOne(TMP);
    hide Tokenize;
  }

  /** The state of one workload process. */
  ghost predicate Reflecting(s: Store, w: Workload)
    reads s
  {
    && s.Valid() && s.FromLogs() && w in s.stored && w.setType != "Network"
    && AllCleanTexts(Get(s.named, w))
  }

  lemma RunOf(s: Store, w: Workload) returns (h: History)
    requires Reflecting(s, w)
    ensures Run(h.states, h.batches) && |h.states| == |h.batches| + 1 && h.states[|h.batches|] == Get(s.stored, w)
    ensures Reflects(h.batches, Get(s.named, w))
  {
    h := s.past[w];
    assert Reflects(HistoryOf(s.past, w).batches, Get(s.named, w));
    CleanBatches(h.batches, Get(s.named, w));
    assert LeadsTo(h, w.setType, s.stored[w]);
  }

  /** What was observed for a resource that a log named. */
  lemma ObservedFor(batches: seq<seq<string>>, named: seq<string>, x: string) returns (e: string)
    requires Reflects(batches, named) && x in named
    ensures Observed(batches, |batches|, e) && (e == x || (HasSlash(e) && !IsFile(e)))
    ensures e != x && !OnlyBeginsLike(x) ==> e < x
  {
    e :| Observed(batches, |batches|, e) && StandsFor(e, x);
    hide StandsFor, HasSlash, IsFile, OnlyBeginsLike;
    StandsInfo(e, x);
  }

  lemma NamedCovered(h: History, named: seq<string>, x: string)
    requires Run(h.states, h.batches) && Reflects(h.batches, named)
    requires x in named && x != "" && !OnlyBeginsLike(x) && (IsFile(x) ==> IsLeaf(named, x))
    ensures |h.states| == |h.batches| + 1 && Covered(h.states[|h.batches|], x)
  {
    var n := |h.batches|;
    assert |h.states| == n + 1;
    var list := h.states[n];
    var e := ObservedFor(h.batches, named, x);
    if IsFile(x) { LeafFile(h.batches, named, x); }
    hide *;
    if e == x {
      ObservedStaysCovered(h.states, h.batches, n, x);
    } else {
      SlashIsNotEmpty(e);
      ObservedStaysCovered(h.states, h.batches, n, e);
      CoveredBelow(list, e, x);
    }
  }

  lemma SlashIsNotEmpty(e: string)
    requires HasSlash(e)
    ensures e != ""
  {
  }

  /** After any number of calls the stored list covers every resource that a log of the workload process ever
      named, if it is a directory or a leaf, and does not only begin like /proc or /sys. */
  lemma NamedStaysCovered(s: Store, w: Workload, x: string)
    requires Reflecting(s, w) && x in Get(s.named, w) && x != "" && !OnlyBeginsLike(x)
    requires IsFile(x) ==> IsLeaf(Get(s.named, w), x)
    ensures Covered(Get(s.stored, w), x)
  {
    hide *;
    var h := RunOf(s, w);
    NamedCovered(h, Get(s.named, w), x);
  }

  /** Nothing is stored without a log: a stored file is a resource that a log of the workload process named,
      and for a stored directory a log named something at or below it, or a text that stands for it. */
  lemma StoredIsNamed(s: Store, w: Workload, e: string)
    requires Reflecting(s, w) && e in Get(s.stored, w)
    ensures IsFile(e) || HasSlash(e)
    ensures IsFile(e) ==> e in Get(s.named, w)
    ensures HasSlash(e) ==> exists x :: x in Get(s.named, w) && Calls(x, e)
  {
    hide *;
    var h := RunOf(s, w);
    StoredHasShape(h, e);
    if IsFile(e) { StoredFileIsNamed(h, Get(s.named, w), e); }
    if HasSlash(e) {
      StoredDirectoriesAreJustified(h.states, h.batches, |h.batches|, e);
      JustifiedByName(h, Get(s.named, w), e);
    }
  }

  lemma StoredFileIsNamed(h: History, named: seq<string>, e: string)
    requires Run(h.states, h.batches) && Reflects(h.batches, named) && e in h.states[|h.batches|] && IsFile(e)
    ensures e in named
  {
    hide IsFile, HasSlash, Calls, StandsFor, IsUpdate, CleanSet, IsDirectory;
    StoredFilesWereObserved(h.states, h.batches, |h.batches|, e);
    var x :| x in named && StandsFor(e, x);
    StandsInfo(e, x);
  }

  lemma StoredHasShape(h: History, e: string)
    requires Run(h.states, h.batches) && e in h.states[|h.batches|]
    ensures IsFile(e) || HasSlash(e)
  {
    var n := |h.batches|;
    if n > 0 {
      var m := Members(h.states[n - 1]) + Members(h.batches[n - 1]);
      RunIsClean(h.states, h.batches, n - 1);
      CleanUnion(Members(h.states[n - 1]), Members(h.batches[n - 1]));
      assert IsUpdate(m, h.states[n]);
      ExtIsClean(m, e);
    }
  }

  lemma FileIsNamed(h: History, named: seq<string>, p: Path) returns (x: string)
    requires Reflects(h.batches, named) && ObservedFile(h.batches, |h.batches|, p)
    ensures x in named && IsFile(x) && Tokenize(x) == p
  {
    hide IsFile, IsDirectory, StandsFor, HasSlash, Calls, Tokenize;
    var e :| Observed(h.batches, |h.batches|, e) && IsFile(e) && Tokenize(e) == p;
    x :| x in named && StandsFor(e, x);
    StandsInfo(e, x);
  }

  lemma JustifiedByName(h: History, named: seq<string>, d: string)
    requires Reflects(h.batches, named) && Justified(h.batches, |h.batches|, d)
    ensures exists x :: x in named && Calls(x, d)
  {
    var n := |h.batches|;
    if Observed(h.batches, n, d) {
      DirectoryIsNamed(h, named, d);
    } else if p :| d == TMP + "/" && ObservedFile(h.batches, n, p) && p[..1] == [TMP] {
      hide *;
      var x := FileIsNamed(h, named, p);
      TmpIsCalled(x, d);
    } else {
      var f :| AllObserved(h.batches, n, f) && IsDirectory(d) && Full(f, DirTokens(d));
      var p := SomeBelow(f, DirTokens(d));
      assert ObservedFile(h.batches, n, p);
      assert HasSlash(d);
      hide *;
      var x := FileIsNamed(h, named, p);
      DirectoryCovers(d, x);
      BelowIsCalled(x, d);
    }
  }

  lemma DirectoryIsNamed(h: History, named: seq<string>, d: string)
    requires Reflects(h.batches, named) && Observed(h.batches, |h.batches|, d)
    ensures exists x :: x in named && Calls(x, d)
  {
    hide StandsFor, Calls, HasSlash, IsFile, IsDirectory, OnlyBeginsLike;
    var x :| x in named && StandsFor(d, x);
    StandsInfo(d, x);
    CallsItself(d);
  }

  lemma TmpIsCalled(x: string, d: string)
    requires IsFile(x) && Tokenize(x)[..1] == [TMP] && d == TMP + "/"
    ensures Calls(x, d)
  {
    hide IsFile, Tokenize;
    BelowTmp(x);
  }

  lemma BelowIsCalled(x: string, d: string)
    requires d < x
    ensures Calls(x, d)
  {
  }

  lemma CallsItself(d: string)
    ensures Calls(d, d)
  {
  }

  lemma BelowTmp(x: string)
    requires IsFile(x) && Tokenize(x)[..1] == [TMP]
    ensures x == "/tmp" || "/tmp/" <= x
  {
    var p := Tokenize(x);
    ConcatOne(TMP);
    if |p| > 1 {
      TmpName();
      NamesAreTokens([TMP]);
      NamesAreTokens(p);
      UnderDirectory([TMP], p);
      assert Concat([TMP]) + "/" == "/tmp/";
    } else {
      assert p == p[..1];
    }
  }

  lemma SomeBelow(f: set<Path>, q: Path) returns (p: Path)
    requires Full(f, q)
    ensures p in f && q < p
  {
    assert ChildSegs(f, q) != {};
    var x :| x in ChildSegs(f, q);
    p :| p in f && q < p && p[|q|] == x;
  }

  // ================================================================ the texts that only begin alike

  /** A single file that only begins like /proc or /sys: the directory is stored for it, and it is not covered.
      Otherwise a single file, not /tmp, is covered. */
  lemma OneFileCoveredExactly(x: string, e: string, r: seq<string>)
    requires IsFile(x) && StandsFor(e, x) && IsUpdate({e}, r)
    ensures Covered(r, x) <==> x != "/tmp" && !OnlyBeginsLike(x)
  {
    SystemDirectories();
    DirectoriesHaveSlashes();
    if e == x {
      assert CleanSet({e});
      CoverageIsExact({x}, r, x);
      FileHasNoSlash(x);
      OneFileStays(x);
      NotOnlyBeginsLike(x);
    } else {
      assert CleanSet({e});
      OneDirectoryStays(e, r);
      FileHasNoSlash(x);
    }
  }

  lemma NotOnlyBeginsLike(x: string)
    requires StandsFor(x, x) && !HasSlash(x)
    ensures !OnlyBeginsLike(x)
  {
  }

  lemma OneFileStays(x: string)
    requires IsFile(x) && !HasSlash(x)
    ensures StaysCovered({x}, x) <==> x != "/tmp"
  {
    var f, p := FileTokens({x}), Tokenize(x);
    forall q | q in f ensures q == p {}
    assert ChildSegs(f, p) == {};
    ConcatOne(TMP);
    forall k | 1 <= k < |p| ensures !Full(f, p[..k]) { OneBranch(f, p, k); }
    if p == [TMP] { assert x == "/tmp"; }
    if x == "/tmp" { TmpName(); NamesFile([TMP]); }
    assert |p| == 1 && p[0] == TMP ==> p == [TMP];
  }

  lemma OneBranch(f: set<Path>, p: Path, k: nat)
    requires (forall q :: q in f ==> q == p) && k < |p|
    ensures !Full(f, p[..k])
  {
    SubsetSize(ChildSegs(f, p[..k]), {p[k]});
  }

  lemma OneDirectoryStays(d: string, r: seq<string>)
    requires IsDirectory(d) && IsUpdate({d}, r)
    ensures forall e :: e in r <==> e == d
  {
    forall e ensures Kept({d}, e) <==> e == d {
      assert FileTokens({d}) == {};
      assert forall o :: !Aggregated({}, o);
    }
  }

  // ================================================================ the protocols of network logs

  /** Of network logs the recognised protocols count, and nothing else. */
  lemma {:induction false} ProtocolMembers(pods: seq<Pod>, slogs: seq<SysLog>, w: Workload, x: string)
    ensures x in ResourcesOf("Network", pods, slogs, w) <==>
      exists i :: 0 <= i < |slogs| && WorkloadOf("Network", pods, slogs[i]) == Some(w) && slogs[i].protocol == x != ""
  {
    if slogs != [] {
      var last := |slogs| - 1;
      ProtocolMembers(pods, slogs[..last], w, x);
      hide WorkloadOf;
      if i :| 0 <= i < last && WorkloadOf("Network", pods, slogs[..last][i]) == Some(w)
              && slogs[..last][i].protocol == x != "" {
        assert WorkloadOf("Network", pods, slogs[i]) == Some(w);
      }
      if i :| 0 <= i < |slogs| && WorkloadOf("Network", pods, slogs[i]) == Some(w) && slogs[i].protocol == x != "" {
        if i < last { assert WorkloadOf("Network", pods, slogs[..last][i]) == Some(w); }
      }
    }
  }

  /** One call leaves the protocols stored before and those of its logs, each once, shorter ones first. */
  lemma ProtocolsAccumulate(prev: seq<string>, pods: seq<Pod>, slogs: seq<SysLog>, w: Workload, next: seq<string>)
    requires IsNext(prev, ResourcesOf("Network", pods, slogs, w), true, next)
    requires forall e :: e in prev + ResourcesOf("Network", pods, slogs, w) ==> e != "" && !HasSlash(e)
    ensures forall i, j :: 0 <= i < j < |next| ==> |next[i]| <= |next[j]| && next[i] != next[j]
    ensures forall x :: x in next <==> x in prev || exists i ::
      0 <= i < |slogs| && WorkloadOf("Network", pods, slogs[i]) == Some(w) && slogs[i].protocol == x != ""
  {
    var fs := ResourcesOf("Network", pods, slogs, w);
    forall i, j | 0 <= i < j < |next| ensures |next[i]| <= |next[j]| && next[i] != next[j] {
      LexTotal(next[i], next[i]);
      assert LenLexLess(next[i], next[j]);
    }
    forall e ensures e in next <==> e in prev || e in fs {
      assert KeptPlain(Members(prev) + Members(fs), e) <==> e in Members(prev) + Members(fs) by {
        assert forall d :: d in prev || d in fs ==> d in prev + fs;
      }
      assert e in next <==> KeptPlain(Members(prev) + Members(fs), e);
    }
    hide WorkloadOf, ResourcesOf, IsNext, KeptPlain;
    forall x ensures x in fs <==> exists i ::
      0 <= i < |slogs| && WorkloadOf("Network", pods, slogs[i]) == Some(w) && slogs[i].protocol == x != ""
    {
      ProtocolMembers(pods, slogs, w, x);
    }
  }
}
