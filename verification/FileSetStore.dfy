/** The stored file sets of all workload processes, updated from batches of system logs. */
module FileSetStore {
  import opened Wrappers
  import opened Paths
  import opened DirPath
  import opened FileSet
  import opened FileSetUpdate
  import LabelText

  const SYS_OP_NETWORK: string := "Network"
  const CONTAINER_NAMESPACE: string := "container_namespace"

  datatype Pod = Pod(namespace: string, podName: string, labels: seq<string>)

  /** A log; protocol is the type recognised in the origin of a network log, or empty. */
  datatype SysLog = SysLog(clusterName: string, podName: string, namespace: string, containerName: string,
                           source: string, resource: string, protocol: string)

  datatype Workload = Workload(clusterName: string, containerName: string, namespace: string,
                               labels: string, fromSource: string, setType: string)

  /** The labels of the first pod with the name and namespace. */
  function PodLabels(podName: string, namespace: string, pods: seq<Pod>): Option<seq<string>> {
    if pods == [] then None
    else if pods[0].namespace == namespace && pods[0].podName == podName then Some(pods[0].labels)
    else PodLabels(podName, namespace, pods[1..])
  }

  /** The workload process a log belongs to, if its pod is known. */
  function WorkloadOf(settype: string, pods: seq<Pod>, slog: SysLog): Option<Workload> {
    match PodLabels(slog.podName, slog.namespace, pods)
    case None => None
    case Some(labels) =>
      var all := if slog.namespace == CONTAINER_NAMESPACE
        then labels + ["kubearmor.io/container.name=" + slog.containerName] else labels;
      Some(Workload(slog.clusterName, slog.containerName, slog.namespace, LabelText.Join(all), slog.source, settype))
  }

  /** What a log contributes: for files, everything that starts like /proc or /sys stands for that directory. */
  function CleanResource(op: string, slog: SysLog): seq<string> {
    if op == SYS_OP_NETWORK then if slog.protocol == "" then [] else [slog.protocol]
    else if "/proc" <= slog.resource then ["/proc/"]
    else if "/sys" <= slog.resource then ["/sys/"]
    else [slog.resource]
  }

  /** The resources the logs give for one workload process, in order. */
  function ResourcesOf(settype: string, pods: seq<Pod>, slogs: seq<SysLog>, w: Workload): seq<string> {
    if slogs == [] then []
    else
      var slog := slogs[|slogs| - 1];
      ResourcesOf(settype, pods, slogs[..|slogs| - 1], w)
      + if WorkloadOf(settype, pods, slog) == Some(w) then CleanResource(settype, slog) else []
  }

  lemma ResourcesStep(settype: string, pods: seq<Pod>, slogs: seq<SysLog>, i: nat, w: Workload)
    requires i < |slogs|
    ensures ResourcesOf(settype, pods, slogs[..i + 1], w) == ResourcesOf(settype, pods, slogs[..i], w)
      + if WorkloadOf(settype, pods, slogs[i]) == Some(w) then CleanResource(settype, slogs[i]) else []
  {
    assert slogs[..i + 1][..i] == slogs[..i];
  }

  lemma {:induction false} ResourcesOfOtherType(settype: string, pods: seq<Pod>, slogs: seq<SysLog>, w: Workload)
    ensures ResourcesOf(settype, pods, slogs, w) != [] ==> w.setType == settype
  {
    if slogs != [] { ResourcesOfOtherType(settype, pods, slogs[..|slogs| - 1], w); }
  }

  /** Clean logs give clean resources. */
  lemma {:induction false} ResourcesAreClean(settype: string, pods: seq<Pod>, slogs: seq<SysLog>, w: Workload)
    requires settype != SYS_OP_NETWORK
    requires forall i :: 0 <= i < |slogs| ==>
      slogs[i].resource == "" || IsFile(slogs[i].resource) || IsDirectory(slogs[i].resource)
    ensures CleanSet(Members(ResourcesOf(settype, pods, slogs, w)))
  {
    if slogs != [] {
      ResourcesAreClean(settype, pods, slogs[..|slogs| - 1], w);
      SystemDirectories();
    }
  }

  lemma SystemDirectories()
    ensures IsDirectory("/proc/") && IsDirectory("/sys/")
  {
    NamesDirectory(["/proc"]);
    NamesDirectory(["/sys"]);
    ConcatOne("/proc");
    ConcatOne("/sys");
    assert "/proc" + "/" == "/proc/" && "/sys" + "/" == "/sys/";
  }

  // ================================================================ what the logs name

  /** The resources that the logs of one workload process name, as they are, in order. */
  ghost function NamedBy(settype: string, pods: seq<Pod>, slogs: seq<SysLog>, w: Workload): seq<string> {
    if slogs == [] then []
    else
      var slog := slogs[|slogs| - 1];
      NamedBy(settype, pods, slogs[..|slogs| - 1], w)
      + if WorkloadOf(settype, pods, slog) == Some(w) then [slog.resource] else []
  }

  /** What is observed for a resource that a log names: the directory /proc/ or /sys/ for every text that
      begins like it, the resource itself otherwise. */
  ghost predicate StandsFor(e: string, x: string) {
    if "/proc" <= x then e == "/proc/" else if "/sys" <= x then e == "/sys/" else e == x
  }

  ghost predicate StandFor(es: seq<string>, xs: seq<string>) {
    |es| == |xs| && forall i :: 0 <= i < |es| ==> StandsFor(es[i], xs[i])
  }

  lemma {:induction false} ResourcesStandForNamed(settype: string, pods: seq<Pod>, slogs: seq<SysLog>, w: Workload)
    requires settype != "Network"
    ensures StandFor(ResourcesOf(settype, pods, slogs, w), NamedBy(settype, pods, slogs, w))
  {
    if slogs != [] { ResourcesStandForNamed(settype, pods, slogs[..|slogs| - 1], w); }
  }

  /** Everything observed stands for something named, and everything named is stood for. */
  ghost predicate Reflects(batches: seq<seq<string>>, named: seq<string>) {
    && (forall x :: x in named ==> exists e :: Observed(batches, |batches|, e) && StandsFor(e, x))
    && forall e :: Observed(batches, |batches|, e) ==> exists x :: x in named && StandsFor(e, x)
  }

  lemma ReflectsMore(batches: seq<seq<string>>, named: seq<string>, es: seq<string>, xs: seq<string>)
    requires Reflects(batches, named) && StandFor(es, xs)
    ensures Reflects(batches + [es], named + xs)
  {
    hide StandsFor;
    var bs := batches + [es];
    forall e ensures Observed(bs, |bs|, e) <==> Observed(batches, |batches|, e) || e in es {
      if Observed(batches, |batches|, e) {
        var k :| 0 <= k < |batches| && e in batches[k];
        assert e in bs[k];
      }
      if e in es { assert e in bs[|batches|]; }
    }
    forall x | x in named + xs ensures exists e :: Observed(bs, |bs|, e) && StandsFor(e, x) {
      if x in named {
        var e :| Observed(batches, |batches|, e) && StandsFor(e, x);
        assert Observed(bs, |bs|, e);
      } else {
        var i :| 0 <= i < |xs| && xs[i] == x;
        assert Observed(bs, |bs|, es[i]);
      }
    }
    forall e | Observed(bs, |bs|, e) ensures exists x :: x in named + xs && StandsFor(e, x) {
      if Observed(batches, |batches|, e) {
        var x :| x in named && StandsFor(e, x);
        assert x in named + xs;
      } else {
        var i :| 0 <= i < |es| && es[i] == e;
        assert xs[i] in named + xs;
      }
    }
  }

  // ================================================================ the store

  /** What one update may make of a stored list. */
  ghost predicate IsNext(prev: seq<string>, fs: seq<string>, isNetworkOp: bool, next: seq<string>) {
    && LenOrdered(next) && NoneNested(next)
    && (!isNetworkOp && CleanSet(Members(prev) + Members(fs)) ==> IsUpdate(Members(prev) + Members(fs), next))
    && (isNetworkOp ==>
          StrictlySorted(next) && forall e :: e in next <==> KeptPlain(Members(prev) + Members(fs), e))
  }

  /** The batches a stored list was updated with, and the list before the first and after each. */
  datatype History = History(batches: seq<seq<string>>, states: seq<seq<string>>)

  const NO_HISTORY := History([], [[]])

  ghost predicate AllClean(batches: seq<seq<string>>) {
    forall k :: 0 <= k < |batches| ==> CleanSet(Members(batches[k]))
  }

  /** The history leads from the empty list to this one. */
  ghost predicate LeadsTo(h: History, setType: string, list: seq<string>) {
    && |h.states| == |h.batches| + 1 && h.states[|h.batches|] == list
    && (setType != SYS_OP_NETWORK && AllClean(h.batches) ==> Run(h.states, h.batches))
  }

  function Extended(h: History, fs: seq<string>, next: seq<string>): History {
    History(h.batches + [fs], h.states + [next])
  }

  lemma HistoryExtends(h: History, setType: string, prev: seq<string>, fs: seq<string>, next: seq<string>)
    requires LeadsTo(h, setType, prev) && IsNext(prev, fs, setType == SYS_OP_NETWORK, next)
    ensures LeadsTo(Extended(h, fs, next), setType, next)
  {
    var h' := Extended(h, fs, next);
    hide IsNext, CleanSet, IsUpdate;
    if setType != SYS_OP_NETWORK && AllClean(h'.batches) {
      var n := |h.batches|;
      forall k | 0 <= k < n ensures CleanSet(Members(h.batches[k])) { assert h'.batches[k] == h.batches[k]; }
      assert Run(h.states, h.batches);
      RunIsClean(h.states, h.batches, n);
      assert h'.batches[n] == fs;
      CleanUnion(Members(prev), Members(fs));
      NextIsUpdate(prev, fs, next);
      forall k | 0 <= k < |h'.batches|
        ensures IsUpdate(Members(h'.states[k]) + Members(h'.batches[k]), h'.states[k + 1])
      {
        if k < n { assert IsUpdate(Members(h.states[k]) + Members(h.batches[k]), h.states[k + 1]); }
      }
    }
  }

  lemma EmptyHistory(setType: string)
    ensures LeadsTo(NO_HISTORY, setType, [])
  {
  }

  lemma NextIsUpdate(prev: seq<string>, fs: seq<string>, next: seq<string>)
    requires IsNext(prev, fs, false, next) && CleanSet(Members(prev) + Members(fs))
    ensures IsUpdate(Members(prev) + Members(fs), next)
  {
  }

  function Get(stored: map<Workload, seq<string>>, w: Workload): seq<string> {
    if w in stored then stored[w] else []
  }

  ghost function HistoryOf(past: map<Workload, History>, w: Workload): History {
    if w in past then past[w] else NO_HISTORY
  }

  ghost predicate SameAt(start: map<Workload, seq<string>>, startPast: map<Workload, History>,
                         now: map<Workload, seq<string>>, past: map<Workload, History>, w: Workload) {
    Get(now, w) == Get(start, w) && HistoryOf(past, w) == HistoryOf(startPast, w)
  }

  /** The list of w is the next one for the resources, and its history says so. */
  ghost predicate DoneAt(start: map<Workload, seq<string>>, startPast: map<Workload, History>,
                         now: map<Workload, seq<string>>, past: map<Workload, History>,
                         fs: seq<string>, isNetworkOp: bool, w: Workload) {
    && w in now && IsNext(Get(start, w), fs, isNetworkOp, now[w])
    && HistoryOf(past, w) == Extended(HistoryOf(startPast, w), fs, now[w])
  }

  /** The lists of the keys not in todo are updated from those at the start, the others are untouched. */
  ghost predicate Updated(start: map<Workload, seq<string>>, startPast: map<Workload, History>,
                          now: map<Workload, seq<string>>, past: map<Workload, History>,
                          res: map<Workload, seq<string>>, todo: set<Workload>, isNetworkOp: bool) {
    forall w :: if w in res && w !in todo then DoneAt(start, startPast, now, past, res[w], isNetworkOp, w)
                else SameAt(start, startPast, now, past, w)
  }

  ghost predicate Changed(start: map<Workload, seq<string>>, now: map<Workload, seq<string>>, w: Workload) {
    Get(start, w) == [] || Get(now, w) != Get(start, w)
  }

  ghost predicate SomeChanged(start: map<Workload, seq<string>>, now: map<Workload, seq<string>>,
                              res: map<Workload, seq<string>>, todo: set<Workload>) {
    exists w :: w in res && w !in todo && Changed(start, now, w)
  }

  lemma NoneUpdated(start: map<Workload, seq<string>>, startPast: map<Workload, History>,
                    res: map<Workload, seq<string>>, isNetworkOp: bool)
    ensures Updated(start, startPast, start, startPast, res, res.Keys, isNetworkOp)
    ensures !SomeChanged(start, start, res, res.Keys)
  {
  }

  lemma UntilNow(start: map<Workload, seq<string>>, startPast: map<Workload, History>,
                 now: map<Workload, seq<string>>, past: map<Workload, History>,
                 res: map<Workload, seq<string>>, todo: set<Workload>, isNetworkOp: bool, w: Workload)
    requires Updated(start, startPast, now, past, res, todo, isNetworkOp) && w in todo
    ensures Get(now, w) == Get(start, w) && HistoryOf(past, w) == HistoryOf(startPast, w)
  {
    assert SameAt(start, startPast, now, past, w);
  }

  lemma OtherKey(start: map<Workload, seq<string>>, startPast: map<Workload, History>,
                 before: map<Workload, seq<string>>, beforePast: map<Workload, History>,
                 now: map<Workload, seq<string>>, past: map<Workload, History>, fs: seq<string>, isNetworkOp: bool,
                 w: Workload, list: seq<string>, h: History, v: Workload)
    requires now == before[w := list] && past == beforePast[w := h] && v != w
    ensures SameAt(start, startPast, before, beforePast, v) ==> SameAt(start, startPast, now, past, v)
    ensures DoneAt(start, startPast, before, beforePast, fs, isNetworkOp, v) ==>
      DoneAt(start, startPast, now, past, fs, isNetworkOp, v)
  {
    hide IsNext;
  }

  lemma OneUpdated(start: map<Workload, seq<string>>, startPast: map<Workload, History>,
                   before: map<Workload, seq<string>>, beforePast: map<Workload, History>,
                   now: map<Workload, seq<string>>, past: map<Workload, History>,
                   res: map<Workload, seq<string>>, todo: set<Workload>, isNetworkOp: bool, w: Workload)
    requires Updated(start, startPast, before, beforePast, res, todo, isNetworkOp) && w in todo && todo <= res.Keys
    requires w in now && now == before[w := now[w]] && IsNext(Get(start, w), res[w], isNetworkOp, now[w])
    requires past == beforePast[w := Extended(HistoryOf(startPast, w), res[w], now[w])]
    ensures Updated(start, startPast, now, past, res, todo - {w}, isNetworkOp)
  {
    var h := Extended(HistoryOf(startPast, w), res[w], now[w]);
    assert DoneAt(start, startPast, now, past, res[w], isNetworkOp, w);
    hide DoneAt, SameAt, IsNext;
    forall v
      ensures if v in res && v !in todo - {w} then DoneAt(start, startPast, now, past, res[v], isNetworkOp, v)
              else SameAt(start, startPast, now, past, v)
    {
      if v != w {
        var observed := if v in res then res[v] else [];
        OtherKey(start, startPast, before, beforePast, now, past, observed, isNetworkOp, w, now[w], h, v);
      }
    }
  }

  lemma OneChanged(start: map<Workload, seq<string>>, before: map<Workload, seq<string>>,
                   now: map<Workload, seq<string>>,
                   res: map<Workload, seq<string>>, todo: set<Workload>, w: Workload)
    requires w in todo && todo <= res.Keys && w in now && now == before[w := now[w]]
    ensures SomeChanged(start, now, res, todo - {w}) <==>
      SomeChanged(start, before, res, todo) || Get(start, w) == [] || now[w] != Get(start, w)
  {
    forall v | v != w ensures Changed(start, now, v) <==> Changed(start, before, v) {}
    assert Changed(start, now, w) <==> Get(start, w) == [] || now[w] != Get(start, w);
    hide Changed;
    if Changed(start, now, w) { assert w in res && w !in todo - {w}; }
  }

  /** The resources named for each workload process so far, with those of more logs. */
  ghost function NamedMore(named: map<Workload, seq<string>>, settype: string, pods: seq<Pod>, slogs: seq<SysLog>,
                           res: map<Workload, seq<string>>): map<Workload, seq<string>>
  {
    map w | w in named.Keys + res.Keys :: Get(named, w) + NamedBy(settype, pods, slogs, w)
  }

  ghost predicate Reflected(past: map<Workload, History>, named: map<Workload, seq<string>>) {
    forall w: Workload :: w.setType != "Network" ==> Reflects(HistoryOf(past, w).batches, Get(named, w))
  }

  lemma NothingNamed(settype: string, pods: seq<Pod>, slogs: seq<SysLog>, w: Workload)
    requires settype != "Network" && ResourcesOf(settype, pods, slogs, w) == []
    ensures NamedBy(settype, pods, slogs, w) == []
  {
    ResourcesStandForNamed(settype, pods, slogs, w);
  }

  lemma {:induction false} NamedOfType(settype: string, pods: seq<Pod>, slogs: seq<SysLog>, w: Workload)
    ensures NamedBy(settype, pods, slogs, w) != [] ==> w.setType == settype
  {
    if slogs != [] { NamedOfType(settype, pods, slogs[..|slogs| - 1], w); }
  }

  lemma StaysReflected(start: map<Workload, seq<string>>, startPast: map<Workload, History>,
                       now: map<Workload, seq<string>>, past: map<Workload, History>, named: map<Workload, seq<string>>,
                       settype: string, pods: seq<Pod>, slogs: seq<SysLog>, res: map<Workload, seq<string>>)
    requires Reflected(startPast, named)
    requires forall w :: w in res <==> ResourcesOf(settype, pods, slogs, w) != []
    requires forall w :: w in res ==> res[w] == ResourcesOf(settype, pods, slogs, w)
    requires Updated(start, startPast, now, past, res, {}, settype == SYS_OP_NETWORK)
    ensures Reflected(past, NamedMore(named, settype, pods, slogs, res))
  {
    hide Reflects, IsNext, ResourcesOf, NamedBy;
    var more := NamedMore(named, settype, pods, slogs, res);
    forall w: Workload | w.setType != "Network" ensures Reflects(HistoryOf(past, w).batches, Get(more, w)) {
      KeyStaysReflected(start, startPast, now, past, named, settype, pods, slogs, res, w);
    }
  }

  lemma KeyStaysReflected(start: map<Workload, seq<string>>, startPast: map<Workload, History>,
                          now: map<Workload, seq<string>>, past: map<Workload, History>,
                          named: map<Workload, seq<string>>, settype: string, pods: seq<Pod>, slogs: seq<SysLog>,
                          res: map<Workload, seq<string>>, w: Workload)
    requires Reflected(startPast, named) && w.setType != "Network"
    requires forall w :: w in res <==> ResourcesOf(settype, pods, slogs, w) != []
    requires forall w :: w in res ==> res[w] == ResourcesOf(settype, pods, slogs, w)
    requires Updated(start, startPast, now, past, res, {}, settype == SYS_OP_NETWORK)
    ensures Reflects(HistoryOf(past, w).batches, Get(NamedMore(named, settype, pods, slogs, res), w))
  {
    hide IsNext;
    assert Reflects(HistoryOf(startPast, w).batches, Get(named, w));
    NamedOfType(settype, pods, slogs, w);
    ResourcesOfOtherType(settype, pods, slogs, w);
    hide Reflects, ResourcesOf, NamedBy;
    if w in res {
      assert DoneAt(start, startPast, now, past, res[w], settype == SYS_OP_NETWORK, w);
      ResourcesStandForNamed(settype, pods, slogs, w);
      ReflectsMore(HistoryOf(startPast, w).batches, Get(named, w), res[w], NamedBy(settype, pods, slogs, w));
    } else {
      assert SameAt(start, startPast, now, past, w);
      if settype != "Network" { NothingNamed(settype, pods, slogs, w); }
      assert Get(named, w) + [] == Get(named, w);
    }
  }

  lemma AllAreNamed(named: map<Workload, seq<string>>, settype: string, pods: seq<Pod>, slogs: seq<SysLog>,
                    res: map<Workload, seq<string>>)
    requires settype != "Network" && forall w :: w in res <==> ResourcesOf(settype, pods, slogs, w) != []
    ensures forall w ::
      Get(NamedMore(named, settype, pods, slogs, res), w) == Get(named, w) + NamedBy(settype, pods, slogs, w)
  {
    hide ResourcesOf, NamedBy;
    forall w ensures
      Get(NamedMore(named, settype, pods, slogs, res), w) == Get(named, w) + NamedBy(settype, pods, slogs, w)
    {
      if w !in res { NothingNamed(settype, pods, slogs, w); }
    }
  }

  lemma NothingObserved()
    ensures Reflects([], [])
  {
  }

  class Store {
    var stored: map<Workload, seq<string>>
    ghost var past: map<Workload, History>
    ghost var named: map<Workload, seq<string>>

    ghost predicate Valid()
      reads this
    {
      past.Keys == stored.Keys && forall w :: w in stored.Keys ==> LeadsTo(past[w], w.setType, stored[w])
    }

    /** The histories are those of the resources that the logs named. */
    ghost predicate FromLogs()
      reads this
    {
      Reflected(past, named)
    }

    constructor ()
      ensures Valid() && FromLogs() && stored == map[] && named == map[]
    {
      NothingObserved();
      stored, past, named := map[], map[], map[];
    }

    /** Updates every stored list the logs concern; the status says whether any list is new or changed. */
    method GenFileSet(settype: string, pods: seq<Pod>, slogs: seq<SysLog>) returns (status: bool)
      requires Valid() && FromLogs()
      modifies this
      ensures Valid() && FromLogs()
      ensures settype != "Network" ==>
        forall w :: Get(named, w) == Get(old(named), w) + NamedBy(settype, pods, slogs, w)
      ensures forall w :: ResourcesOf(settype, pods, slogs, w) == [] ==> SameAt(old(stored), old(past), stored, past, w)
      ensures forall w :: ResourcesOf(settype, pods, slogs, w) != [] ==>
        DoneAt(old(stored), old(past), stored, past, ResourcesOf(settype, pods, slogs, w), settype == SYS_OP_NETWORK, w)
      ensures status <==> exists w :: ResourcesOf(settype, pods, slogs, w) != [] && Changed(old(stored), stored, w)
    {
      hide SameAt, DoneAt, Changed;
      var res := GroupResources(settype, pods, slogs);
      ghost var start, startPast := stored, past;
      status := UpdateAll(settype, res);
      StaysReflected(start, startPast, stored, past, named, settype, pods, slogs, res);
      if settype != "Network" { AllAreNamed(named, settype, pods, slogs, res); }
      named := NamedMore(named, settype, pods, slogs, res);
    }

    method UpdateAll(settype: string, res: map<Workload, seq<string>>) returns (status: bool)
      requires Valid() && forall w :: w in res ==> w.setType == settype
      modifies this`stored, this`past
      ensures Valid()
      ensures Updated(old(stored), old(past), stored, past, res, {}, settype == SYS_OP_NETWORK)
      ensures status <==> SomeChanged(old(stored), stored, res, {})
    {
      hide *;
      ghost var start, startPast := stored, past;
      status := false;
      var todo := res.Keys;
      NoneUpdated(start, startPast, res, settype == SYS_OP_NETWORK);
      while todo != {}
        invariant Valid() && todo <= res.Keys
        invariant Updated(start, startPast, stored, past, res, todo, settype == SYS_OP_NETWORK)
        invariant status <==> SomeChanged(start, stored, res, todo)
        decreases |todo|
      {
        var w :| w in todo;
        ghost var before, beforePast := stored, past;
        UntilNow(start, startPast, before, beforePast, res, todo, settype == SYS_OP_NETWORK, w);
        var changed := UpdateOne(w, res[w]);
        OneUpdated(start, startPast, before, beforePast, stored, past, res, todo, settype == SYS_OP_NETWORK, w);
        OneChanged(start, before, stored, res, todo, w);
        status := status || changed;
        todo := todo - {w};
      }
    }

    /** Merges the resources into the list of one workload process. */
    method UpdateOne(w: Workload, fs: seq<string>) returns (changed: bool)
      requires Valid()
      modifies this`stored, this`past
      ensures Valid() && w in stored && stored == old(stored)[w := stored[w]]
      ensures IsNext(old(Get(stored, w)), fs, w.setType == SYS_OP_NETWORK, stored[w])
      ensures past == old(past)[w := Extended(old(HistoryOf(past, w)), fs, stored[w])]
      ensures changed <==> old(Get(stored, w)) == [] || stored[w] != old(Get(stored, w))
    {
      hide IsNext, LeadsTo, Extended;
      var out := Get(stored, w);
      EmptyHistory(w.setType);
      var dbEntry := |out| != 0;
      var mergedfs := UpdateList(fs, out, w.setType == SYS_OP_NETWORK);
      ListIsNext(fs, out, w.setType == SYS_OP_NETWORK, mergedfs);
      HistoryExtends(HistoryOf(past, w), w.setType, out, fs, mergedfs);
      past := past[w := Extended(HistoryOf(past, w), fs, mergedfs)];
      if !dbEntry {
        stored := stored[w := mergedfs];
        changed := true;
      } else if mergedfs != out {
        stored := stored[w := mergedfs];
        changed := true;
      } else {
        changed := false;
      }
    }
  }

  lemma ListIsNext(fs: seq<string>, prev: seq<string>, isNetworkOp: bool, next: seq<string>)
    requires LenOrdered(next) && NoneNested(next)
    requires !isNetworkOp && CleanSet(Members(prev) + Members(fs)) ==> IsUpdate(Members(prev) + Members(fs), next)
    requires isNetworkOp ==>
      StrictlySorted(next) && forall e :: e in next <==> KeptPlain(Members(prev) + Members(fs), e)
    ensures IsNext(prev, fs, isNetworkOp, next)
  {
  }

  /** Collects the resources of each workload process. */
  method GroupResources(settype: string, pods: seq<Pod>, slogs: seq<SysLog>) returns (res: map<Workload, seq<string>>)
    ensures forall w :: w in res <==> ResourcesOf(settype, pods, slogs, w) != []
    ensures forall w :: w in res ==> res[w] == ResourcesOf(settype, pods, slogs, w) && w.setType == settype
  {
    res := map[];
    for i := 0 to |slogs|
      invariant forall w :: w in res <==> ResourcesOf(settype, pods, slogs[..i], w) != []
      invariant forall w :: w in res ==> res[w] == ResourcesOf(settype, pods, slogs[..i], w)
    {
      forall w
        ensures ResourcesOf(settype, pods, slogs[..i + 1], w) == ResourcesOf(settype, pods, slogs[..i], w)
          + if WorkloadOf(settype, pods, slogs[i]) == Some(w) then CleanResource(settype, slogs[i]) else []
      {
        ResourcesStep(settype, pods, slogs, i, w);
      }
      var wpfs := WorkloadOf(settype, pods, slogs[i]);
      if wpfs == None {
        continue;
      }
      var resource := CleanResource(settype, slogs[i]);
      if |resource| == 0 {
        continue;
      }
      var w := wpfs.value;
      res := res[w := (if w in res then res[w] else []) + resource];
    }
    assert slogs[..|slogs|] == slogs;
    forall w | w in res ensures w.setType == settype { ResourcesOfOtherType(settype, pods, slogs, w); }
  }

  /** Whatever the calls were, with clean resources the stored list covers every resource ever observed
      that is neither the file /tmp nor an ancestor of another observed file. */
  lemma StoreCoversObserved(s: Store, w: Workload, x: string)
    requires s.Valid() && w in s.stored && w.setType != SYS_OP_NETWORK && AllClean(s.past[w].batches)
    requires var b := s.past[w].batches;
      Observed(b, |b|, x) && x != "" && (IsFile(x) ==> IsLeafOf(b, |b|, x))
    ensures Covered(s.stored[w], x)
  {
    var h := s.past[w];
    assert LeadsTo(h, w.setType, s.stored[w]);
    ObservedStaysCovered(h.states, h.batches, |h.batches|, x);
  }

  /** Observing only stored elements, or files whose own directory is stored, leaves the stored list as
      it is, so the call reports no change for it. */
  lemma NothingNewNoChange(h: History, setType: string, prev: seq<string>, fs: seq<string>, next: seq<string>)
    requires LeadsTo(h, setType, prev) && setType != SYS_OP_NETWORK && AllClean(h.batches) && h.batches != []
    requires NothingNew(prev, Members(fs)) && IsNext(prev, fs, false, next)
    ensures next == prev
  {
    var n := |h.batches|;
    assert Run(h.states, h.batches);
    hide IsNext, NothingNew, Settled;
    RunIsClean(h.states, h.batches, n - 1);
    assert CleanSet(Members(h.batches[n - 1]));
    CleanUnion(Members(h.states[n - 1]), Members(h.batches[n - 1]));
    UpdateSettles(Members(h.states[n - 1]) + Members(h.batches[n - 1]), prev);
    NothingNewIsClean(prev, Members(fs));
    NextIsUpdate(prev, fs, next);
    ReobservingChangesNothing(h.states, h.batches, n, Members(fs), next);
  }
}
