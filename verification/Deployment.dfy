/** The deployment protocol of one discovered policy as interleaved steps: discovery writes the record,
    the user flips its status, the reconciler deploys or deletes on what it read earlier, and the
    delete watcher forces the status back. Every step is one access to the API server. */
module Deployment {
  import opened Wrappers
  import opened JsonPatch

  /** The texts of spec.status. */
  datatype Status = Inactive | inactive | Active | active | PendingUpdates

  predicate IsActive(s: Status) { s == Active || s == active }
  predicate IsInactive(s: Status) { s == Inactive || s == inactive }

  type Spec = Document

  /** The manifest stored in a record: its kind, whether it decodes as that kind, whether its name and
      namespace are those of the record, and its spec. */
  datatype Policy = Policy(kind: string, parses: bool, matches: bool, spec: Spec)

  /** The status part of a record, which only the reconciler writes. */
  datatype Condition = Condition(phase: string, kind: string, message: string, reason: string)

  datatype Record = Record(policy: Policy, status: Status, condition: Condition)

  const NO_CONDITION := Condition("", "", "", "")

  const SUPPORTED: set<string> := {"KubeArmorPolicy", "CiliumNetworkPolicy", "NetworkPolicy"}

  predicate Deployable(p: Policy) {
    p.kind in SUPPORTED && p.parses && p.matches
  }

  // ================================================================ decisions

  datatype Comparison = Same | Different | Panics

  /** The discovery side's comparison. The tag of Kubernetes network policies is not among the tags it
      compares, so those are always different; for the tag it compares instead nothing is decoded, and
      the comparison of the two missing policies panics. */
  function AreRulesSame(existing: Policy, found: Policy, policyType: string): Comparison {
    match policyType
    case "KubeArmorPolicy" => if existing.spec == found.spec then Same else Different
    case "CiliumNetworkPolicy" => if existing.spec == found.spec then Same else Different
    case "NetworkPolicy" => Panics
    case _ => Different
  }

  /** The status written with new rules, from the status read before. */
  function StatusAfterUpdate(s: Status): Status {
    if IsActive(s) then PendingUpdates else s
  }

  /** The spec stored after a whole spec was sent as a merge patch: fields that it lacks stay. */
  function SentSpec(now: Spec, sent: Spec): (r: Spec)
    ensures now == sent ==> r == sent
  {
    SentWholeExactly(now, sent);
    GoalAgrees(EMPTY_DOCUMENT, sent);
    Patched(now, sent)
  }

  /** The manifest stored after discovery sent another. */
  function SentPolicy(now: Policy, sent: Policy): Policy {
    sent.(spec := SentSpec(now.spec, sent.spec))
  }

  /** A patch carries the difference between the deployed spec that was read and the one to deploy. */
  datatype Write = NoWrite | Create(spec: Spec) | Patch(read: Spec, goal: Spec) | Delete

  /** What a reconcile writes for the record and the deployed object it read. */
  function Decide(r: Record, found: Option<Spec>): Write {
    if r.status == PendingUpdates || !Deployable(r.policy) then NoWrite
    else if IsInactive(r.status) then if found == None then NoWrite else Delete
    else if found == None then Create(r.policy.spec)
    else if found.value != r.policy.spec then Patch(found.value, r.policy.spec)
    else NoWrite
  }

  /** The condition a reconcile without errors reports for a record that is not pending. */
  function Reported(p: Policy, s: Status): Condition {
    if p.kind !in SUPPORTED then Condition("Failed", p.kind, "Provided Policy Kind is not supported", "")
    else if !p.parses then Condition("Failed", "Unknown", "Unable to parse the specified policy", "")
    else if !p.matches then
      Condition("Failed", p.kind, "Policy Validation Failed",
                "Policy NamespacedName should match with dsp NamespacedName")
    else if IsInactive(s) then
      Condition("Success", p.kind, "Discovered Policy Has Been Created", "Policy status is Currently Inactive")
    else Condition("Success", p.kind, "Policy has been deployed and Active", "")
  }

  /** The condition a reconcile reports when its write fails, or the read before it. */
  function FailedReport(p: Policy, w: Write, error: string): Condition {
    match w
    case NoWrite => Condition("Unknown", p.kind, "Policy Resource Status is Unknown", error)
    case Create(_) => Condition("Failed", p.kind, "Policy Activation Failed", error)
    case Patch(_, _) => Condition("Failed", p.kind, "Policy Rules Updation Failed", error)
    case Delete => Condition("Failed", p.kind, "Unable to Inactivate the Policy", error)
  }

  /** A merge patch of the condition: only the fields that differ from those read are written. */
  function Merged(now: Condition, read: Condition, to: Condition): Condition {
    Condition(if to.phase == read.phase then now.phase else to.phase,
              if to.kind == read.kind then now.kind else to.kind,
              if to.message == read.message then now.message else to.message,
              if to.reason == read.reason then now.reason else to.reason)
  }

  // ================================================================ the machine

  /** The reconciler: idle, or with the record it read, or with the deployed object it then read, or
      about to report. */
  datatype Job = Idle | Fetched(r: Record) | Looked(r: Record, found: Option<Spec>) | Acted(r: Record, to: Condition)

  /** The stored record, the deployed spec, the delete events not yet handled, and the reconciler. */
  datatype Cluster = Cluster(record: Option<Record>, deployed: Option<Spec>, events: nat, job: Job)

  const EMPTY := Cluster(None, None, 0, Idle)

  datatype Event =
    | DiscoveryCreates(p: Policy)
    | DiscoveryUpdates(p: Policy, policyType: string, read: Record)
    | UserSetsStatus(s: Status)
    | UserApplies(p: Policy, s: Status)
    | UserDeletesRecord
    | UserDeletesDeployed
    | ReconcilerFetches(read: Record)
    | ReconcilerLooks(found: Option<Spec>)
    | ReconcilerWrites(failed: bool, error: string)
    | ReconcilerReports
    | WatcherReverts
    | WatcherFindsNoRecord

  ghost predicate WasStored(past: seq<Cluster>, r: Record) {
    exists k :: 0 <= k < |past| && past[k].record == Some(r)
  }

  ghost predicate WasMissing(past: seq<Cluster>) {
    exists k :: 0 <= k < |past| && past[k].record == None
  }

  ghost predicate WasDeployed(past: seq<Cluster>, d: Option<Spec>) {
    exists k :: 0 <= k < |past| && past[k].deployed == d
  }

  /** The deployed spec after the patch from one spec to another. */
  function PatchedSpec(now: Spec, read: Spec, goal: Spec): (r: Spec)
    ensures now == read ==> r == goal
  {
    PatchedIsClean(now, read, goal);
    PatchRoundTrip(read, goal);
    FieldAfter(now, read, goal, "");
    Patched(now, Diff(read, goal))
  }

  /** One write to the deployed object, on whatever is there now: a create of an existing object and a
      patch or delete of a missing one change nothing. */
  function Applied(d: Option<Spec>, w: Write): Option<Spec> {
    match w
    case NoWrite => d
    case Create(s) => if d == None then Some(s) else d
    case Patch(read, goal) => if d == None then None else Some(PatchedSpec(d.value, read, goal))
    case Delete => None
  }

  predicate Deletes(d: Option<Spec>, w: Write) {
    w == Delete && d != None
  }

  /** The write reached an object it expected. */
  predicate Succeeds(d: Option<Spec>, w: Write) {
    match w
    case NoWrite => true
    case Create(_) => d == None
    case Patch(_, _) => d != None
    case Delete => d != None
  }

  /** One step. Reads may be as old as the run: discovery patches with the status it once read, and the
      reconciler works from cached objects. */
  ghost predicate Next(past: seq<Cluster>, c: Cluster, e: Event, c': Cluster) {
    match e
    case DiscoveryCreates(p) =>
      c.record == None && c' == c.(record := Some(Record(p, Inactive, NO_CONDITION)))
    case DiscoveryUpdates(p, policyType, read) =>
      && WasStored(past, read) && AreRulesSame(read.policy, p, policyType) == Different && c.record.Some?
      && c' == c.(record := Some(Record(SentPolicy(c.record.value.policy, p), StatusAfterUpdate(read.status),
                                        c.record.value.condition)))
    case UserSetsStatus(s) =>
      c.record.Some? && c' == c.(record := Some(c.record.value.(status := s)))
    case UserApplies(p, s) =>
      c' == c.(record := Some(Record(p, s, if c.record.Some? then c.record.value.condition else NO_CONDITION)))
    case UserDeletesRecord =>
      c.record.Some? && c' == c.(record := None)
    case UserDeletesDeployed =>
      c.deployed.Some? && c' == c.(deployed := None, events := c.events + 1)
    case ReconcilerFetches(read) =>
      c.job == Idle && WasStored(past, read)
        && c' == c.(job := if read.status == PendingUpdates then Idle else Fetched(read))
    case ReconcilerLooks(found) =>
      && c.job.Fetched? && WasDeployed(past, found)
      && c' == c.(job := if Deployable(c.job.r.policy) then Looked(c.job.r, found)
                         else Acted(c.job.r, Reported(c.job.r.policy, c.job.r.status)))
    case ReconcilerWrites(failed, error) =>
      && c.job.Looked?
      && (var w := Decide(c.job.r, c.job.found);
        if failed then c' == c.(job := Acted(c.job.r, FailedReport(c.job.r.policy, w, error)))
        else
          && Succeeds(c.deployed, w)
          && c' == Cluster(c.record, Applied(c.deployed, w), c.events + (if Deletes(c.deployed, w) then 1 else 0),
                           Acted(c.job.r, Reported(c.job.r.policy, c.job.r.status))))
    case ReconcilerReports =>
      && c.job.Acted?
      && c' == c.(job := Idle, record := if c.record == None then None
                    else
                      var now := c.record.value.condition;
                      Some(c.record.value.(condition := Merged(now, c.job.r.condition, c.job.to))))
    case WatcherReverts =>
      && c.events > 0 && c.record.Some?
      && c' == c.(record := Some(c.record.value.(status := Inactive)), events := c.events - 1)
    case WatcherFindsNoRecord =>
      c.events > 0 && WasMissing(past) && c' == c.(events := c.events - 1)
  }

  ghost predicate Run(run: seq<Cluster>, es: seq<Event>) {
    && |run| == |es| + 1 && run[0] == EMPTY
    && forall i :: 0 <= i < |es| ==> Next(run[..i + 1], run[i], es[i], run[i + 1])
  }

  // ================================================================ safety in every interleaving

  /** The user writes an active status, alone or with a policy. */
  predicate UserActivates(e: Event) {
    (e.UserSetsStatus? || e.UserApplies?) && IsActive(e.s)
  }

  ghost predicate HoldsActive(c: Cluster, p: Policy) {
    c.record.Some? && IsActive(c.record.value.status) && c.record.value.policy == p
  }

  /** At step k the user set the status to Active with policy p stored, and both stayed so until state j. */
  ghost predicate ApprovedFrom(run: seq<Cluster>, es: seq<Event>, k: nat, j: nat, p: Policy) {
    && k < j < |run| && k < |es| && UserActivates(es[k])
    && forall m :: k < m <= j ==> HoldsActive(run[m], p)
  }

  /** Whenever the status is Active, the user set it so for the very policy that is stored: no write
      that changes the policy ever leaves the status Active. */
  lemma {:induction false} ActiveMeansApproved(run: seq<Cluster>, es: seq<Event>, j: nat, p: Policy) returns (k: nat)
    requires Run(run, es) && j < |run| && HoldsActive(run[j], p)
    ensures ApprovedFrom(run, es, k, j, p)
  {
    assert j > 0;
    assert Next(run[..j], run[j - 1], es[j - 1], run[j]) by { assert run[..j - 1 + 1] == run[..j]; }
    if UserActivates(es[j - 1]) {
      k := j - 1;
    } else {
      StaysActive(run[..j], run[j - 1], es[j - 1], run[j], p);
      k := ActiveMeansApproved(run, es, j - 1, p);
    }
  }

  lemma StaysActive(past: seq<Cluster>, c: Cluster, e: Event, c': Cluster, p: Policy)
    requires Next(past, c, e, c') && HoldsActive(c', p) && !UserActivates(e)
    ensures HoldsActive(c, p)
  {
  }

  /** The record the reconciler works on was stored at some moment. */
  lemma {:induction false} JobWasStored(run: seq<Cluster>, es: seq<Event>, i: nat) returns (j: nat)
    requires Run(run, es) && i < |run| && run[i].job != Idle
    ensures j < i && run[j].record == Some(run[i].job.r)
  {
    assert i > 0;
    assert run[..i - 1 + 1] == run[..i];
    var c, e := run[i - 1], es[i - 1];
    assert Next(run[..i], c, e, run[i]);
    if e.ReconcilerFetches? {
      j :| 0 <= j < |run[..i]| && run[..i][j].record == Some(e.read);
    } else {
      SameJob(run[..i], c, e, run[i]);
      j := JobWasStored(run, es, i - 1);
    }
  }

  lemma SameJob(past: seq<Cluster>, c: Cluster, e: Event, c': Cluster)
    requires Next(past, c, e, c') && c'.job != Idle && !e.ReconcilerFetches?
    ensures c.job != Idle && c.job.r == c'.job.r
  {
  }

  /** The write reaches the stored spec: no object is there yet, or the deployed one has the fields that
      the patch leaves out. */
  predicate Reaches(c: Cluster)
    requires c.job.Looked?
  {
    c.job.found.Some? && c.deployed.Some? ==> Agrees(c.deployed.value, c.job.found.value, c.job.r.policy.spec)
  }

  /** Deployment safety: in every interleaving, whenever a step puts a spec in place, it deploys a policy
      that was stored throughout some stretch of the run that began with the user setting the status to
      Active. What is in place then is the spec of that policy exactly when the deployed object has the
      fields that the patch leaves out; it has if the reconciler's reading of it is up to date. */
  lemma DeployedWasApproved(run: seq<Cluster>, es: seq<Event>, i: nat, s: Spec) returns (k: nat, j: nat, p: Policy)
    requires Run(run, es) && i < |es|
    requires run[i].deployed != Some(s) && run[i + 1].deployed == Some(s)
    ensures k < j <= i && ApprovedFrom(run, es, k, j, p) && Deployable(p)
    ensures run[i].job.Looked? && run[i].job.r.policy == p
    ensures p.spec == s <==> Reaches(run[i])
    ensures run[i].job.found == run[i].deployed ==> p.spec == s
  {
    var c, e := run[i], es[i];
    assert Next(run[..i + 1], c, e, run[i + 1]);
    DeployStep(run[..i + 1], c, e, run[i + 1], s);
    j := JobWasStored(run, es, i);
    p := c.job.r.policy;
    k := ActiveMeansApproved(run, es, j, p);
  }

  lemma DeployStep(past: seq<Cluster>, c: Cluster, e: Event, c': Cluster, s: Spec)
    requires Next(past, c, e, c') && c.deployed != Some(s) && c'.deployed == Some(s)
    ensures c.job.Looked? && IsActive(c.job.r.status) && Deployable(c.job.r.policy)
    ensures c.job.r.policy.spec == s <==> Reaches(c)
    ensures c.job.found == c.deployed ==> c.job.r.policy.spec == s
  {
    WrittenSpec(past, c, e, c', s);
    var goal := c.job.r.policy.spec;
    hide Next, Agrees, Patched, Diff;
    if c.job.found.Some? {
      PatchReachesGoalExactly(c.deployed.value, c.job.found.value, goal);
    }
  }

  /** What is in place after a write: the spec created, or the patched one. */
  lemma WrittenSpec(past: seq<Cluster>, c: Cluster, e: Event, c': Cluster, s: Spec)
    requires Next(past, c, e, c') && c.deployed != Some(s) && c'.deployed == Some(s)
    ensures c.job.Looked? && IsActive(c.job.r.status) && Deployable(c.job.r.policy)
    ensures c.deployed.Some? <==> c.job.found.Some?
    ensures s == if c.job.found.Some? then PatchedSpec(c.deployed.value, c.job.found.value, c.job.r.policy.spec)
                 else c.job.r.policy.spec
  {
    hide PatchedSpec, Reported, Merged;
  }

  // ================================================================ what discovery may do

  /** Discovery writes the rules that are stored already exactly when the type tag is not one of those it
      compares. An active record is then demoted. */
  lemma RediscoveryDemotesExactly(past: seq<Cluster>, c: Cluster, p: Policy, policyType: string)
    requires ActiveNow(c) && WasStored(past, c.record.value) && p.spec == c.record.value.policy.spec
    ensures (exists c' :: Next(past, c, DiscoveryUpdates(p, policyType, c.record.value), c')) <==>
            policyType !in {"KubeArmorPolicy", "CiliumNetworkPolicy", "NetworkPolicy"}
    ensures forall c' :: Next(past, c, DiscoveryUpdates(p, policyType, c.record.value), c') ==>
      c'.record == Some(Record(p, PendingUpdates, c.record.value.condition))
  {
    var r := Record(p, PendingUpdates, c.record.value.condition);
    var e := DiscoveryUpdates(p, policyType, c.record.value);
    assert policyType !in {"KubeArmorPolicy", "CiliumNetworkPolicy", "NetworkPolicy"} ==>
      Next(past, c, e, c.(record := Some(r)));
  }

  /** An update by discovery settles, so that finding the same rules once more writes nothing, exactly when
      the stored spec has no field that the found one lacks: such a field is never removed. */
  lemma UpdateSettlesExactly(past: seq<Cluster>, c: Cluster, p: Policy, policyType: string, read: Record, c': Cluster)
    requires Next(past, c, DiscoveryUpdates(p, policyType, read), c')
    requires policyType == "KubeArmorPolicy" || policyType == "CiliumNetworkPolicy"
    ensures c'.record.Some?
    ensures AreRulesSame(c'.record.value.policy, p, policyType) == Same <==>
            Agrees(c.record.value.policy.spec, EMPTY_DOCUMENT, p.spec)
  {
    SentWholeExactly(c.record.value.policy.spec, p.spec);
  }

  // ================================================================ quiet runs

  /** User and discovery write nothing, reads are up to date, and no call fails but for a missing or an
      already existing object. */
  ghost predicate Quiet(c: Cluster, e: Event) {
    match e
    case ReconcilerFetches(read) => c.record == Some(read)
    case ReconcilerLooks(found) => found == c.deployed
    case ReconcilerWrites(failed, _) =>
      c.job.Looked? && (failed <==> !Succeeds(c.deployed, Decide(c.job.r, c.job.found)))
    case ReconcilerReports => true
    case WatcherReverts => true
    case WatcherFindsNoRecord => c.record == None
    case _ => false
  }

  ghost predicate QuietStep(c: Cluster, e: Event, c': Cluster) {
    Quiet(c, e) && Next([c], c, e, c')
  }

  ghost predicate QuietRun(run: seq<Cluster>, es: seq<Event>) {
    |run| == |es| + 1 && forall i :: 0 <= i < |es| ==> QuietStep(run[i], es[i], run[i + 1])
  }

  /** A step that others can see. */
  predicate Changes(c: Cluster, c': Cluster) {
    c.record != c'.record || c.deployed != c'.deployed || c.events != c'.events
  }

  function ChangeCount(run: seq<Cluster>): nat {
    if |run| < 2 then 0 else ChangeCount(run[..|run| - 1]) + if Changes(run[|run| - 2], run[|run| - 1]) then 1 else 0
  }

  predicate SameMode(a: Status, b: Status) {
    (IsActive(a) <==> IsActive(b)) && (IsInactive(a) <==> IsInactive(b))
  }

  predicate SameView(now: Option<Record>, r: Record) {
    now.Some? && now.value.policy == r.policy && SameMode(now.value.status, r.status)
      && now.value.condition == r.condition
  }

  /** The reconciler's picture is up to date. */
  predicate JobFresh(c: Cluster) {
    match c.job
    case Idle => true
    case Fetched(r) => SameView(c.record, r) && r.status != PendingUpdates
    case Looked(r, found) => SameView(c.record, r) && r.status != PendingUpdates && found == c.deployed
    case Acted(r, to) => SameView(c.record, r) && r.status != PendingUpdates && to == Reported(r.policy, r.status)
  }

  predicate ActiveNow(c: Cluster) { c.record.Some? && IsActive(c.record.value.status) }
  predicate InactiveNow(c: Cluster) { c.record.Some? && IsInactive(c.record.value.status) }

  /** The deployed object is what a fresh reconcile would leave. */
  predicate InPlace(c: Cluster) {
    c.record.Some? && Deployable(c.record.value.policy) ==>
      && (ActiveNow(c) ==> c.deployed == Some(c.record.value.policy.spec))
      && (InactiveNow(c) ==> c.deployed == None)
  }

  predicate ConditionInPlace(c: Cluster) {
    c.record.Some? && c.record.value.status != PendingUpdates ==>
      c.record.value.condition == Reported(c.record.value.policy, c.record.value.status)
  }

  function JobWeight(c: Cluster): nat {
    if JobFresh(c) then 0 else if c.job.Acted? then 5 else 10
  }

  function StatusWeight(c: Cluster): nat {
    if c.record.Some? && !IsInactive(c.record.value.status) then 20 else 0
  }

  function DeployWeight(c: Cluster): nat {
    if InPlace(c) then 0 else if InactiveNow(c) then 4 else 1
  }

  /** How much a quiet run can still change. */
  function Potential(c: Cluster): nat {
    2 * (3 * c.events + StatusWeight(c) + DeployWeight(c) + JobWeight(c)) + if ConditionInPlace(c) then 0 else 1
  }

  lemma FetchPotential(c: Cluster, e: Event, c': Cluster)
    requires QuietStep(c, e, c') && (e.ReconcilerFetches? || e.ReconcilerLooks?)
    ensures Potential(c') <= Potential(c) && !Changes(c, c')
  {
  }

  lemma WritePotential(c: Cluster, e: Event, c': Cluster)
    requires QuietStep(c, e, c') && e.ReconcilerWrites?
    ensures Potential(c') <= Potential(c) && (Changes(c, c') ==> Potential(c') < Potential(c))
  {
    hide Reported, Merged, AreRulesSame, StatusAfterUpdate, SentPolicy;
    if JobFresh(c) {
      assert JobFresh(c');
    } else {
      assert JobWeight(c) == 10 && JobWeight(c') <= 5;
    }
  }

  lemma MergedFresh(now: Condition, to: Condition)
    ensures Merged(now, now, to) == to
  {
  }

  lemma ReportedMode(p: Policy, a: Status, b: Status)
    requires SameMode(a, b)
    ensures Reported(p, a) == Reported(p, b)
  {
  }

  lemma ReportWeights(c: Cluster, e: Event, c': Cluster)
    requires QuietStep(c, e, c') && e.ReconcilerReports?
    ensures c'.events == c.events && StatusWeight(c') == StatusWeight(c) && DeployWeight(c') == DeployWeight(c)
    ensures JobWeight(c') == 0 && (!JobFresh(c) ==> JobWeight(c) == 5)
    ensures JobFresh(c) ==> ConditionInPlace(c') && (Changes(c, c') ==> !ConditionInPlace(c))
  {
    hide Reported, Deployable, Merged;
    if JobFresh(c) {
      MergedFresh(c.record.value.condition, c.job.to);
      ReportedMode(c.job.r.policy, c.job.r.status, c.record.value.status);
    }
  }

  lemma ReportPotential(c: Cluster, e: Event, c': Cluster)
    requires QuietStep(c, e, c') && e.ReconcilerReports?
    ensures Potential(c') <= Potential(c) && (Changes(c, c') ==> Potential(c') < Potential(c))
  {
    hide *;
    ReportWeights(c, e, c');
    PotentialIs(c);
    PotentialIs(c');
    WeightOfFresh(c);
  }

  lemma PotentialIs(c: Cluster)
    ensures Potential(c) == 2 * (3 * c.events + StatusWeight(c) + DeployWeight(c) + JobWeight(c))
                            + if ConditionInPlace(c) then 0 else 1
  {
  }

  lemma WeightOfFresh(c: Cluster)
    ensures JobFresh(c) ==> JobWeight(c) == 0
  {
  }

  lemma WatchPotential(c: Cluster, e: Event, c': Cluster)
    requires QuietStep(c, e, c') && (e.WatcherReverts? || e.WatcherFindsNoRecord?)
    ensures Potential(c') < Potential(c)
  {
    hide Reported, Merged, Decide, Deployable, AreRulesSame, SentPolicy;
  }

  /** Every visible quiet step uses up potential, and no quiet step adds any. */
  lemma QuietStepDecreases(c: Cluster, e: Event, c': Cluster)
    requires QuietStep(c, e, c')
    ensures Potential(c') <= Potential(c) && (Changes(c, c') ==> Potential(c') < Potential(c))
  {
    hide Potential, Next, Changes;
    if e.ReconcilerFetches? || e.ReconcilerLooks? { FetchPotential(c, e, c'); }
    else if e.ReconcilerWrites? { WritePotential(c, e, c'); }
    else if e.ReconcilerReports? { ReportPotential(c, e, c'); }
    else { WatchPotential(c, e, c'); }
  }

  /** Termination: however reconciles and watcher steps are scheduled, only so many change anything. */
  lemma {:induction false} QuietRunsEnd(run: seq<Cluster>, es: seq<Event>)
    requires QuietRun(run, es)
    ensures ChangeCount(run) + Potential(run[|es|]) <= Potential(run[0])
    decreases |es|
  {
    if es != [] {
      var n := |es| - 1;
      assert run[..n + 1] == run[..|run| - 1];
      QuietRunsEnd(run[..n + 1], es[..n]);
      assert QuietStep(run[n], es[n], run[n + 1]);
      QuietStepDecreases(run[n], es[n], run[n + 1]);
    }
  }

  // ================================================================ one whole reconcile

  /** What one reconcile does when nothing happens in between. */
  function Reconciled(c: Cluster): Cluster {
    if c.job != Idle || c.record == None || c.record.value.status == PendingUpdates then c
    else
      var r := c.record.value;
      var w := Decide(r, c.deployed);
      Cluster(Some(r.(condition := Reported(r.policy, r.status))), Applied(c.deployed, w),
              c.events + (if Deletes(c.deployed, w) then 1 else 0), Idle)
  }

  lemma StepRun(run: seq<Cluster>, es: seq<Event>, e: Event, c: Cluster)
    requires QuietRun(run, es) && QuietStep(run[|es|], e, c)
    ensures QuietRun(run + [c], es + [e])
  {
    hide QuietStep;
    var run', es' := run + [c], es + [e];
    forall i | 0 <= i < |es'| ensures QuietStep(run'[i], es'[i], run'[i + 1]) {
      if i < |es| { assert run'[i] == run[i] && run'[i + 1] == run[i + 1] && es'[i] == es[i]; }
    }
  }

  /** An undisturbed reconcile is the composition of its steps. */
  lemma ReconcileIsItsSteps(c: Cluster) returns (run: seq<Cluster>, es: seq<Event>)
    requires c.job == Idle && c.record.Some? && c.record.value.status != PendingUpdates
    ensures QuietRun(run, es) && run[0] == c && run[|es|] == Reconciled(c)
  {
    var r := c.record.value;
    var w := Decide(r, c.deployed);
    var acted := Acted(r, Reported(r.policy, r.status));
    var c1, c2 := c.(job := Fetched(r)), c.(job := if Deployable(r.policy) then Looked(r, c.deployed) else acted);
    var c3 := Cluster(c.record, Applied(c.deployed, w), c.events + (if Deletes(c.deployed, w) then 1 else 0), acted);
    hide QuietRun;
    FirstSteps(c, c1, c2);
    StepRun([c, c1], [ReconcilerFetches(r)], ReconcilerLooks(c.deployed), c2);
    run, es := [c, c1] + [c2], [ReconcilerFetches(r)] + [ReconcilerLooks(c.deployed)];
    if Deployable(r.policy) {
      StepRun(run, es, ReconcilerWrites(false, ""), c3);
      run, es := run + [c3], es + [ReconcilerWrites(false, "")];
    }
    MergedFresh(r.condition, Reported(r.policy, r.status));
    StepRun(run, es, ReconcilerReports, Reconciled(c));
    run, es := run + [Reconciled(c)], es + [ReconcilerReports];
  }

  lemma FirstSteps(c: Cluster, c1: Cluster, c2: Cluster)
    requires c.job == Idle && c.record.Some? && c.record.value.status != PendingUpdates
    requires var r := c.record.value;
      && c1 == c.(job := Fetched(r))
      && c2 == c.(job := if Deployable(r.policy) then Looked(r, c.deployed) else Acted(r, Reported(r.policy, r.status)))
    ensures QuietRun([c, c1], [ReconcilerFetches(c.record.value)])
    ensures QuietStep(c1, ReconcilerLooks(c.deployed), c2)
  {
    assert [c][0].record == Some(c.record.value);
    assert [c1][0].deployed == c.deployed;
    hide Reported;
    assert QuietStep(c, ReconcilerFetches(c.record.value), c1);
  }

  // ================================================================ where quiet runs end

  /** No quiet run from here changes anything. */
  ghost predicate Stable(c: Cluster) {
    forall run, es :: QuietRun(run, es) && run[0] == c ==> ChangeCount(run) == 0
  }

  /** Reporting would not be seen. */
  predicate QuietReport(c: Cluster, r: Record, to: Condition) {
    c.record.Some? ==> Merged(c.record.value.condition, r.condition, to) == c.record.value.condition
  }

  /** What the reconcile under way still does will not be seen. */
  predicate Harmless(c: Cluster) {
    match c.job
    case Idle => true
    case Fetched(r) => Decide(r, c.deployed) == NoWrite && QuietReport(c, r, Reported(r.policy, r.status))
    case Looked(r, found) =>
      if Succeeds(c.deployed, Decide(r, found)) then
        Applied(c.deployed, Decide(r, found)) == c.deployed && QuietReport(c, r, Reported(r.policy, r.status))
      else c.record == None
    case Acted(r, to) => QuietReport(c, r, to)
  }

  predicate AtRest(c: Cluster) {
    c.events == 0 && InPlace(c) && ConditionInPlace(c) && Harmless(c)
  }

  lemma RestStep(c: Cluster, e: Event, c': Cluster)
    requires AtRest(c) && QuietStep(c, e, c')
    ensures AtRest(c') && !Changes(c, c')
  {
    hide Reported, AreRulesSame, StatusAfterUpdate, SentPolicy, PatchedSpec;
    if e.ReconcilerFetches? {
      MergedFresh(c.record.value.condition, Reported(c.record.value.policy, c.record.value.status));
    }
    hide Merged;
  }

  lemma {:induction false} RestStays(run: seq<Cluster>, es: seq<Event>)
    requires QuietRun(run, es) && AtRest(run[0])
    ensures AtRest(run[|es|]) && ChangeCount(run) == 0
    decreases |es|
  {
    if es != [] {
      var n := |es| - 1;
      assert run[..n + 1] == run[..|run| - 1];
      RestStays(run[..n + 1], es[..n]);
      assert QuietStep(run[n], es[n], run[n + 1]);
      RestStep(run[n], es[n], run[n + 1]);
    }
  }

  lemma {:induction false} NoChangeSame(run: seq<Cluster>)
    requires run != [] && ChangeCount(run) == 0
    ensures !Changes(run[0], run[|run| - 1])
  {
    if |run| >= 2 { NoChangeSame(run[..|run| - 1]); }
  }

  lemma StableHasNoEvents(c: Cluster)
    requires Stable(c)
    ensures c.events == 0
  {
    if c.events > 0 {
      var e := if c.record == None then WatcherFindsNoRecord else WatcherReverts;
      var c' := if c.record == None then c.(events := c.events - 1)
                else c.(record := Some(c.record.value.(status := Inactive)), events := c.events - 1);
      assert c.record == None ==> [c][0].record == None;
      assert QuietStep(c, e, c');
      assert QuietRun([c, c'], [e]);
      NoChangeSame([c, c']);
    }
  }

  lemma StableStep(c: Cluster, e: Event, c': Cluster)
    requires Stable(c) && QuietStep(c, e, c')
    ensures Stable(c') && !Changes(c, c')
  {
    assert QuietRun([c, c'], [e]);
    NoChangeSame([c, c']);
    forall run, es | QuietRun(run, es) && run[0] == c' ensures ChangeCount(run) == 0 {
      PrependStep(c, e, run, es);
      CountPrepended(c, run);
    }
  }

  lemma PrependStep(c: Cluster, e: Event, run: seq<Cluster>, es: seq<Event>)
    requires QuietRun(run, es) && QuietStep(c, e, run[0])
    ensures QuietRun([c] + run, [e] + es)
  {
    hide QuietStep;
    var run', es' := [c] + run, [e] + es;
    forall i | 0 <= i < |es'| ensures QuietStep(run'[i], es'[i], run'[i + 1]) {
      if i > 0 { assert run'[i] == run[i - 1] && es'[i] == es[i - 1] && run'[i + 1] == run[i]; }
    }
  }

  lemma {:induction false} CountPrepended(c: Cluster, run: seq<Cluster>)
    requires run != []
    ensures ChangeCount([c] + run) >= ChangeCount(run)
    decreases |run|
  {
    if |run| > 1 {
      CountPrepended(c, run[..|run| - 1]);
      assert ([c] + run)[..|run|] == [c] + run[..|run| - 1];
    }
  }

  /** A cluster is stable exactly when no delete event is pending, an active record's spec is what is
      deployed, nothing is deployed for an inactive record, the condition says so, and what a reconcile
      under way still does will not be seen. */
  lemma StableExactly(c: Cluster)
    ensures Stable(c) <==> AtRest(c)
  {
    if AtRest(c) {
      forall run, es | QuietRun(run, es) && run[0] == c ensures ChangeCount(run) == 0 { RestStays(run, es); }
    }
    if Stable(c) {
      StableHasNoEvents(c);
      match c.job
      case Idle => StableIdle(c);
      case Fetched(r) => StableFetched(c);
      case Looked(r, found) => StableLooked(c);
      case Acted(r, to) => StableActed(c);
    }
  }

  lemma StableIdle(c: Cluster)
    requires Stable(c) && c.job == Idle
    ensures AtRest(c)
  {
    StableHasNoEvents(c);
    if c.record.Some? && c.record.value.status != PendingUpdates {
      var run, es := ReconcileIsItsSteps(c);
      assert ChangeCount(run) == 0;
      NoChangeSame(run);
      assert !Changes(c, Reconciled(c));
      UnchangedIsInPlace(c);
    }
  }

  lemma StableActed(c: Cluster)
    requires Stable(c) && c.job.Acted?
    ensures AtRest(c)
  {
    var r, to := c.job.r, c.job.to;
    var c' := c.(job := Idle, record := if c.record == None then None
                 else Some(c.record.value.(condition := Merged(c.record.value.condition, r.condition, to))));
    hide Merged, Stable;
    assert QuietStep(c, ReconcilerReports, c');
    StableStep(c, ReconcilerReports, c');
    StableIdle(c');
  }

  lemma StableLooked(c: Cluster)
    requires Stable(c) && c.job.Looked?
    ensures AtRest(c)
  {
    hide Stable, Reported, PatchedSpec;
    var r, found := c.job.r, c.job.found;
    var w := Decide(r, found);
    if Succeeds(c.deployed, w) {
      var c' := Cluster(c.record, Applied(c.deployed, w), c.events + (if Deletes(c.deployed, w) then 1 else 0),
                        Acted(r, Reported(r.policy, r.status)));
      assert QuietStep(c, ReconcilerWrites(false, ""), c');
      StableStep(c, ReconcilerWrites(false, ""), c');
      StableActed(c');
    } else {
      var error := if c.record == None then "" else OtherReason(c.record.value.condition, r.condition);
      var c' := c.(job := Acted(r, FailedReport(r.policy, w, error)));
      assert QuietStep(c, ReconcilerWrites(true, error), c');
      StableStep(c, ReconcilerWrites(true, error), c');
      StableActed(c');
    }
  }

  /** An error text that is the reason in neither of the two. */
  function OtherReason(a: Condition, b: Condition): (r: string)
    ensures r != a.reason && r != b.reason
  {
    a.reason + b.reason + "!"
  }

  lemma StableFetched(c: Cluster)
    requires Stable(c) && c.job.Fetched?
    ensures AtRest(c)
  {
    hide Stable, Reported, PatchedSpec;
    var r := c.job.r;
    var c' := c.(job := if Deployable(r.policy) then Looked(r, c.deployed) else Acted(r, Reported(r.policy, r.status)));
    assert [c][0].deployed == c.deployed;
    assert QuietStep(c, ReconcilerLooks(c.deployed), c');
    StableStep(c, ReconcilerLooks(c.deployed), c');
    if c'.job.Looked? { StableLooked(c'); } else { StableActed(c'); }
  }

  lemma UnchangedIsInPlace(c: Cluster)
    requires c.job == Idle && c.record.Some? && c.record.value.status != PendingUpdates && !Changes(c, Reconciled(c))
    ensures InPlace(c) && ConditionInPlace(c)
  {
    hide Reported;
  }

  // ================================================================ the last word

  /** A reconcile under way that read the record as inactive will delete what is deployed. */
  predicate WillDelete(c: Cluster) {
    && c.deployed.Some?
    && match c.job
       case Fetched(r) => IsInactive(r.status) && Deployable(r.policy)
       case Looked(r, found) => IsInactive(r.status) && Deployable(r.policy) && found.Some?
       case _ => false
  }

  /** The user's status, if not inactive, will stand. */
  predicate WillStand(c: Cluster) {
    c.record.Some? && !InactiveNow(c) && c.events == 0 && !WillDelete(c)
  }

  /** The record is inactive or will be. */
  predicate WillFall(c: Cluster) {
    c.record.Some? && (InactiveNow(c) || c.events > 0 || WillDelete(c))
  }

  predicate SameSetting(c: Cluster, c': Cluster) {
    c.record.Some? && c'.record.Some? && c'.record.value.policy == c.record.value.policy
    && c'.record.value.status == c.record.value.status
  }

  lemma LastWordStep(c: Cluster, e: Event, c': Cluster)
    requires QuietStep(c, e, c') && c.record.Some?
    ensures c'.record.Some? && c'.record.value.policy == c.record.value.policy
    ensures SameSetting(c, c') || InactiveNow(c')
    ensures WillStand(c) ==> WillStand(c') && SameSetting(c, c')
    ensures WillFall(c) ==> WillFall(c')
  {
    hide Reported, Merged, PatchedSpec;
  }

  lemma {:induction false} LastWordRun(run: seq<Cluster>, es: seq<Event>)
    requires QuietRun(run, es) && run[0].record.Some?
    ensures var c, c' := run[0], run[|es|];
      && c'.record.Some? && c'.record.value.policy == c.record.value.policy
      && (SameSetting(c, c') || InactiveNow(c'))
      && (WillStand(c) ==> WillStand(c') && SameSetting(c, c'))
      && (WillFall(c) ==> WillFall(c'))
    decreases |es|
  {
    if es != [] {
      var n := |es| - 1;
      LastWordRun(run[..n + 1], es[..n]);
      assert QuietStep(run[n], es[n], run[n + 1]);
      LastWordStep(run[n], es[n], run[n + 1]);
    }
  }

  lemma RestWillNotDelete(c: Cluster)
    requires AtRest(c)
    ensures !WillDelete(c)
  {
  }

  /** Whether the user has the last word: once user and discovery are quiet, a record that is not inactive
      ends with its policy and status, exactly when no delete event is pending and no reconcile under way
      will delete. Otherwise it ends inactive. */
  lemma StatusSurvivesExactly(run: seq<Cluster>, es: seq<Event>)
    requires QuietRun(run, es) && run[0].record.Some? && !InactiveNow(run[0])
    requires Stable(run[|es|])
    ensures SameSetting(run[0], run[|es|]) <==> run[0].events == 0 && !WillDelete(run[0])
    ensures SameSetting(run[0], run[|es|]) || InactiveNow(run[|es|])
  {
    LastWordRun(run, es);
    StableExactly(run[|es|]);
    RestWillNotDelete(run[|es|]);
  }

  /** In particular an activation survives, with the spec deployed, exactly then; and a record that became
      pending never becomes active again by itself. */
  lemma ActivationSurvivesExactly(run: seq<Cluster>, es: seq<Event>)
    requires QuietRun(run, es) && ActiveNow(run[0])
    requires Stable(run[|es|])
    ensures ActiveNow(run[|es|]) <==> run[0].events == 0 && !WillDelete(run[0])
    ensures var p, end := run[0].record.value.policy, run[|es|];
      Deployable(p) ==> end.deployed == if ActiveNow(end) then Some(p.spec) else None
  {
    StatusSurvivesExactly(run, es);
    LastWordRun(run, es);
    StableExactly(run[|es|]);
  }

  lemma PendingStaysUnapproved(run: seq<Cluster>, es: seq<Event>)
    requires QuietRun(run, es) && run[0].record.Some? && run[0].record.value.status == PendingUpdates
    ensures !ActiveNow(run[|es|])
    ensures run[0].events == 0 && !WillDelete(run[0]) ==> SameSetting(run[0], run[|es|])
  {
    LastWordRun(run, es);
  }

  // ================================================================ how often it writes

  predicate ActiveDeployable(c: Cluster) {
    ActiveNow(c) && Deployable(c.record.value.policy)
  }

  predicate JobCreates(c: Cluster) {
    (c.job.Fetched? || c.job.Looked?) && IsActive(c.job.r.status) && Deployable(c.job.r.policy)
  }

  /** A reconcile that read the record as inactive will delete what the record, active again, then has
      created again. */
  predicate WillReplace(c: Cluster) {
    WillDelete(c) && ActiveDeployable(c)
  }

  function CreatesLeft(c: Cluster): nat {
    if WillReplace(c) || (c.deployed == None && (ActiveDeployable(c) || JobCreates(c))) then 1 else 0
  }

  function DeletesLeft(c: Cluster): nat {
    if c.deployed != None then if WillReplace(c) then 2 else 1 else CreatesLeft(c)
  }

  predicate IsCreate(c: Cluster, c': Cluster) { c.deployed == None && c'.deployed != None }
  predicate IsDelete(c: Cluster, c': Cluster) { c.deployed != None && c'.deployed == None }

  function CreateCount(run: seq<Cluster>): nat {
    if |run| < 2 then 0 else CreateCount(run[..|run| - 1]) + if IsCreate(run[|run| - 2], run[|run| - 1]) then 1 else 0
  }

  function DeleteCount(run: seq<Cluster>): nat {
    if |run| < 2 then 0 else DeleteCount(run[..|run| - 1]) + if IsDelete(run[|run| - 2], run[|run| - 1]) then 1 else 0
  }

  lemma WritesLeftStep(c: Cluster, e: Event, c': Cluster)
    requires QuietStep(c, e, c')
    ensures CreatesLeft(c') + (if IsCreate(c, c') then 1 else 0) <= CreatesLeft(c)
    ensures DeletesLeft(c') + (if IsDelete(c, c') then 1 else 0) <= DeletesLeft(c)
  {
    hide Reported, Merged, PatchedSpec;
  }

  lemma {:induction false} WritesLeft(run: seq<Cluster>, es: seq<Event>)
    requires QuietRun(run, es)
    ensures CreateCount(run) + CreatesLeft(run[|es|]) <= CreatesLeft(run[0])
    ensures DeleteCount(run) + DeletesLeft(run[|es|]) <= DeletesLeft(run[0])
    decreases |es|
  {
    if es != [] {
      var n := |es| - 1;
      assert run[..n + 1] == run[..|run| - 1];
      WritesLeft(run[..n + 1], es[..n]);
      assert QuietStep(run[n], es[n], run[n + 1]);
      WritesLeftStep(run[n], es[n], run[n + 1]);
    }
  }

  /** A quiet run creates at most once, and deletes at most once unless a reconcile that read the record
      as inactive will delete what the record, active again, then has created again: then at most twice. */
  lemma WritesAreBounded(run: seq<Cluster>, es: seq<Event>)
    requires QuietRun(run, es)
    ensures CreateCount(run) <= 1
    ensures DeleteCount(run) <= if WillReplace(run[0]) then 2 else 1
  {
    WritesLeft(run, es);
  }

  // ================================================================ a lost activation

  lemma ExtendRun(run: seq<Cluster>, es: seq<Event>, e: Event, c: Cluster)
    requires Run(run, es) && Next(run, run[|es|], e, c)
    ensures Run(run + [c], es + [e])
  {
    hide Next;
    var run', es' := run + [c], es + [e];
    forall i | 0 <= i < |es'| ensures Next(run'[..i + 1], run'[i], es'[i], run'[i + 1]) {
      if i < |es| {
        assert run'[..i + 1] == run[..i + 1];
      } else {
        assert run'[..i + 1] == run;
      }
    }
  }

  lemma StoredEarlier(run: seq<Cluster>, k: nat, r: Record)
    requires k < |run| && run[k].record == Some(r)
    ensures WasStored(run, r)
  {
  }

  lemma DeployedEarlier(run: seq<Cluster>, k: nat, d: Option<Spec>)
    requires k < |run| && run[k].deployed == d
    ensures WasDeployed(run, d)
  {
  }

  /** The user activates a discovered policy and the reconciler deploys it. */
  lemma DeployedOnce(p: Policy) returns (run: seq<Cluster>, es: seq<Event>)
    requires Deployable(p)
    ensures Run(run, es) && |es| == 5
    ensures var r := Record(p, Active, NO_CONDITION);
      run[5] == Cluster(Some(r), Some(p.spec), 0, Acted(r, Reported(p, Active)))
  {
    var r0, r := Record(p, Inactive, NO_CONDITION), Record(p, Active, NO_CONDITION);
    var to := Reported(p, Active);
    run, es := [EMPTY], [];
    assert Run(run, es);
    hide Run, Reported;
    run, es := Extended(run, es, DiscoveryCreates(p), Cluster(Some(r0), None, 0, Idle));
    run, es := Extended(run, es, UserSetsStatus(Active), Cluster(Some(r), None, 0, Idle));
    StoredEarlier(run, 2, r);
    run, es := Extended(run, es, ReconcilerFetches(r), Cluster(Some(r), None, 0, Fetched(r)));
    DeployedEarlier(run, 3, None);
    run, es := Extended(run, es, ReconcilerLooks(None), Cluster(Some(r), None, 0, Looked(r, None)));
    run, es := Extended(run, es, ReconcilerWrites(false, ""), Cluster(Some(r), Some(p.spec), 0, Acted(r, to)));
  }

  /** The user's last write sets the status to Active, and yet the pending event of an earlier delete
      turns it back. */
  lemma ActivationCanBeLost(p: Policy) returns (run: seq<Cluster>, es: seq<Event>)
    requires Deployable(p)
    ensures Run(run, es) && |es| == 8
    ensures es[6] == UserSetsStatus(Active) && es[7] == WatcherReverts && InactiveNow(run[8])
  {
    var r0, r := Record(p, Inactive, NO_CONDITION), Record(p, Active, NO_CONDITION);
    var job := Acted(r, Reported(p, Active));
    run, es := DeployedOnce(p);
    hide Run, Reported;
    run, es := Extended(run, es, UserDeletesDeployed, Cluster(Some(r), None, 1, job));
    run, es := Extended(run, es, UserSetsStatus(Active), Cluster(Some(r), None, 1, job));
    run, es := Extended(run, es, WatcherReverts, Cluster(Some(r0), None, 0, job));
  }

  /** The reconciler, having deployed the policy, reads the record while the user has it inactive; by the
      time it deletes, the user has it active again. No delete event is pending. */
  lemma StaleInactive(p: Policy) returns (run: seq<Cluster>, es: seq<Event>, condition: Condition)
    requires Deployable(p)
    ensures Run(run, es) && |es| == 10
    ensures run[10] == Cluster(Some(Record(p, Active, condition)), Some(p.spec), 0,
                               Looked(Record(p, Inactive, condition), Some(p.spec)))
    ensures condition == Reported(p, Active)
  {
    var to := Reported(p, Active);
    var r0, r1 := Record(p, Inactive, to), Record(p, Active, to);
    condition := to;
    run, es := DeployedOnce(p);
    MergedFresh(NO_CONDITION, to);
    hide Run, Reported;
    run, es := Extended(run, es, ReconcilerReports, Cluster(Some(r1), Some(p.spec), 0, Idle));
    run, es := Extended(run, es, UserSetsStatus(Inactive), Cluster(Some(r0), Some(p.spec), 0, Idle));
    StoredEarlier(run, 7, r0);
    run, es := Extended(run, es, ReconcilerFetches(r0), Cluster(Some(r0), Some(p.spec), 0, Fetched(r0)));
    DeployedEarlier(run, 8, Some(p.spec));
    run, es := Extended(run, es, ReconcilerLooks(Some(p.spec)),
                        Cluster(Some(r0), Some(p.spec), 0, Looked(r0, Some(p.spec))));
    run, es := Extended(run, es, UserSetsStatus(Active), Cluster(Some(r1), Some(p.spec), 0, Looked(r0, Some(p.spec))));
  }

  /** An activation is also lost with no delete event pending: the reconcile under way deletes, and the
      watcher turns the record back. */
  lemma StaleReadLosesActivation(p: Policy)
      returns (run: seq<Cluster>, es: seq<Event>, quiet: seq<Cluster>, qs: seq<Event>)
    requires Deployable(p)
    ensures Run(run, es) && QuietRun(quiet, qs) && quiet[0] == run[|es|]
    ensures ActiveNow(quiet[0]) && quiet[0].events == 0 && WillDelete(quiet[0])
    ensures quiet[|qs|].job == Idle && quiet[|qs|].events == 0 && InactiveNow(quiet[|qs|])
  {
    var condition;
    run, es, condition := StaleInactive(p);
    quiet, qs := DeletesStale(p, run[10], condition);
    var c := quiet[2];
    var r := c.record.value;
    quiet, qs := QuietExtended(quiet, qs, WatcherReverts, c.(record := Some(r.(status := Inactive)), events := 0));
  }

  lemma DeletesStale(p: Policy, c: Cluster, condition: Condition) returns (quiet: seq<Cluster>, qs: seq<Event>)
    requires Deployable(p)
    requires c == Cluster(Some(Record(p, Active, condition)), Some(p.spec), 0,
                          Looked(Record(p, Inactive, condition), Some(p.spec)))
    ensures QuietRun(quiet, qs) && |qs| == 2 && quiet[0] == c
    ensures quiet[2] == Cluster(Some(Record(p, Active, Reported(p, Inactive))), None, 1, Idle)
    ensures DeleteCount(quiet) == 1
  {
    var r, to := Record(p, Inactive, condition), Reported(p, Inactive);
    MergedFresh(condition, to);
    quiet, qs := [c], [];
    hide Reported, Merged;
    quiet, qs := QuietExtended(quiet, qs, ReconcilerWrites(false, ""),
                               c.(deployed := None, events := 1, job := Acted(r, to)));
    quiet, qs := QuietExtended(quiet, qs, ReconcilerReports,
                               Cluster(Some(Record(p, Active, to)), None, 1, Idle));
  }

  lemma LastStep(run: seq<Cluster>, es: seq<Event>)
    requires QuietRun(run, es) && es != []
    ensures var n := |es| - 1;
      && |run| == n + 2 && QuietRun(run[..n + 1], es[..n]) && QuietStep(run[n], es[n], run[n + 1])
      && DeleteCount(run) == DeleteCount(run[..n + 1]) + if IsDelete(run[n], run[n + 1]) then 1 else 0
  {
    hide QuietStep;
    var n := |es| - 1;
    assert run[..n + 1] == run[..|run| - 1];
    assert QuietStep(run[n], es[n], run[n + 1]);
  }

  lemma OneMoreStep(run: seq<Cluster>, es: seq<Event>, e: Event, c: Cluster)
    requires QuietRun(run, es) && QuietStep(run[|es|], e, c)
    ensures QuietRun(run + [c], es + [e])
    ensures DeleteCount(run + [c]) == DeleteCount(run) + if IsDelete(run[|es|], c) then 1 else 0
  {
    hide QuietStep;
    StepRun(run, es, e, c);
    assert (run + [c])[..|run|] == run;
  }

  lemma {:induction false} JoinRuns(a: seq<Cluster>, x: seq<Event>, b: seq<Cluster>, y: seq<Event>)
    requires QuietRun(a, x) && QuietRun(b, y) && a[|x|] == b[0]
    ensures QuietRun(a + b[1..], x + y) && DeleteCount(a + b[1..]) == DeleteCount(a) + DeleteCount(b)
    decreases |y|
  {
    if y == [] {
      assert a + b[1..] == a && x + y == x;
    } else {
      var n := |y| - 1;
      LastStep(b, y);
      JoinRuns(a, x, b[..n + 1], y[..n]);
      var ab, xy := a + b[..n + 1][1..], x + y[..n];
      assert |ab| == |xy| + 1 && ab[|xy|] == b[n];
      hide QuietStep, QuietRun, DeleteCount, IsDelete;
      OneMoreStep(ab, xy, y[n], b[n + 1]);
      assert a + b[1..] == ab + [b[n + 1]] && x + y == xy + [y[n]];
    }
  }

  /** What is deployed first and not at the end was deleted. */
  lemma {:induction false} DeletedOnTheWay(run: seq<Cluster>)
    requires run != [] && run[0].deployed != None && run[|run| - 1].deployed == None
    ensures DeleteCount(run) >= 1
  {
    if run[|run| - 2].deployed == None { DeletedOnTheWay(run[..|run| - 1]); }
  }

  /** The reconcile under way deletes and reports. */
  lemma FinishesDelete(c: Cluster) returns (quiet: seq<Cluster>, qs: seq<Event>, r: Record)
    requires WillReplace(c) && c.job.Looked?
    ensures QuietRun(quiet, qs) && quiet[0] == c && DeleteCount(quiet) == 1
    ensures quiet[|qs|] == Cluster(Some(r), None, c.events + 1, Idle) && r.policy == c.record.value.policy
    ensures IsActive(r.status)
  {
    var now, read := c.record.value, c.job.r;
    var to := Reported(read.policy, read.status);
    quiet, qs := [c], [];
    hide Reported, Merged;
    quiet, qs := QuietExtended(quiet, qs, ReconcilerWrites(false, ""),
                               c.(deployed := None, events := c.events + 1, job := Acted(read, to)));
    r := now.(condition := Merged(now.condition, read.condition, to));
    quiet, qs := QuietExtended(quiet, qs, ReconcilerReports, Cluster(Some(r), None, c.events + 1, Idle));
  }

  /** The first of two deletes, after looking at what is deployed if that is still to be done. */
  lemma DeletesOnce(c: Cluster) returns (quiet: seq<Cluster>, qs: seq<Event>, r: Record)
    requires WillReplace(c)
    ensures QuietRun(quiet, qs) && quiet[0] == c && DeleteCount(quiet) == 1
    ensures quiet[|qs|] == Cluster(Some(r), None, c.events + 1, Idle) && r.policy == c.record.value.policy
    ensures IsActive(r.status)
  {
    if c.job.Looked? {
      quiet, qs, r := FinishesDelete(c);
    } else {
      var c1 := c.(job := Looked(c.job.r, c.deployed));
      assert QuietStep(c, ReconcilerLooks(c.deployed), c1) by { assert [c][0].deployed == c.deployed; }
      assert QuietRun([c, c1], [ReconcilerLooks(c.deployed)]) && DeleteCount([c, c1]) == 0;
      quiet, qs, r := FinishesDelete(c1);
      hide QuietRun, DeleteCount;
      JoinRuns([c, c1], [ReconcilerLooks(c.deployed)], quiet, qs);
      quiet, qs := [c, c1] + quiet[1..], [ReconcilerLooks(c.deployed)] + qs;
    }
  }

  /** The object is created again before the watcher's turn, and then deleted once more. */
  lemma DeletesTwice(c: Cluster) returns (quiet: seq<Cluster>, qs: seq<Event>)
    requires WillReplace(c)
    ensures QuietRun(quiet, qs) && quiet[0] == c && DeleteCount(quiet) == 2
  {
    var r;
    quiet, qs, r := DeletesOnce(c);
    var again, as1 := ReconcileIsItsSteps(quiet[|qs|]);
    var r1 := r.(status := Inactive, condition := Reported(r.policy, r.status));
    var c1 := Cluster(Some(r1), Some(r.policy.spec), c.events, Idle);
    var last, as2 := ReconcileIsItsSteps(c1);
    assert last[|as2|].deployed == None;
    DeletedOnTheWay(last);
    hide Reported, QuietRun, DeleteCount;
    JoinRuns(quiet, qs, again, as1);
    quiet, qs := quiet + again[1..], qs + as1;
    quiet, qs := QuietExtended(quiet, qs, WatcherReverts, c1);
    JoinRuns(quiet, qs, last, as2);
    quiet, qs := quiet + last[1..], qs + as2;
    WritesAreBounded(quiet, qs);
  }

  /** Exactly where a second delete is possible. */
  lemma SecondDeleteExactly(c: Cluster)
    ensures (exists run, es :: QuietRun(run, es) && run[0] == c && DeleteCount(run) > 1) <==> WillReplace(c)
  {
    if WillReplace(c) { var run, es := DeletesTwice(c); }
    forall run, es | QuietRun(run, es) && run[0] == c && DeleteCount(run) > 1 ensures WillReplace(c) {
      WritesAreBounded(run, es);
    }
  }

  /** A run from the empty cluster to such a state, and two deletes from there. */
  lemma DeletedTwice(p: Policy) returns (run: seq<Cluster>, es: seq<Event>, quiet: seq<Cluster>, qs: seq<Event>)
    requires Deployable(p)
    ensures Run(run, es) && QuietRun(quiet, qs) && quiet[0] == run[|es|] && DeleteCount(quiet) == 2
  {
    var condition;
    run, es, condition := StaleInactive(p);
    quiet, qs := DeletesTwice(run[10]);
  }

  lemma QuietExtended(run: seq<Cluster>, es: seq<Event>, e: Event, c: Cluster)
      returns (run': seq<Cluster>, es': seq<Event>)
    requires QuietRun(run, es)
    requires Quiet(run[|es|], e)
    requires [run[|es|]][0].record == run[|es|].record && [run[|es|]][0].deployed == run[|es|].deployed ==>
      Next([run[|es|]], run[|es|], e, c)
    ensures QuietRun(run', es') && run' == run + [c] && es' == es + [e] && |run'| == |es'| + 1
    ensures DeleteCount(run') == DeleteCount(run) + if IsDelete(run[|es|], c) then 1 else 0
  {
    hide Next, Quiet;
    OneMoreStep(run, es, e, c);
    run', es' := run + [c], es + [e];
  }

  // ================================================================ rediscovery and mixed specs

  /** Discovering a Kubernetes network policy once more demotes the active record. */
  lemma RediscoveryDemotes(p: Policy) returns (run: seq<Cluster>, es: seq<Event>)
    requires Deployable(p)
    ensures Run(run, es) && |es| == 6 && ActiveNow(run[5]) && run[5].record.value.policy == p
    ensures es[5] == DiscoveryUpdates(p, "K8sNetworkPolicy", run[5].record.value)
    ensures run[6].record == Some(Record(p, PendingUpdates, NO_CONDITION))
  {
    var r := Record(p, Active, NO_CONDITION);
    run, es := DeployedOnce(p);
    hide Run, Reported;
    StoredEarlier(run, 5, r);
    run, es := Extended(run, es, DiscoveryUpdates(p, "K8sNetworkPolicy", r),
                        run[5].(record := Some(r.(status := PendingUpdates))));
  }

  /** The reconciler fetches the record and has some reading of the deployed object. */
  lemma Looks(run: seq<Cluster>, es: seq<Event>, r: Record, found: Option<Spec>)
      returns (run': seq<Cluster>, es': seq<Event>)
    requires Run(run, es) && run[|es|].job == Idle && run[|es|].record == Some(r)
    requires r.status != PendingUpdates && Deployable(r.policy) && WasDeployed(run, found)
    ensures Run(run', es') && |run'| == |run| + 2 && run <= run'
    ensures run'[|es|] == run[|es|] && run'[|es| + 1] == run[|es|].(job := Fetched(r))
    ensures run'[|es'|] == run[|es|].(job := Looked(r, found))
  {
    var c := run[|es|];
    StoredEarlier(run, |es|, r);
    hide Run, WasStored, WasDeployed;
    run', es' := Extended(run, es, ReconcilerFetches(r), c.(job := Fetched(r)));
    DeployedStill(run, run', found);
    run', es' := Extended(run', es', ReconcilerLooks(found), c.(job := Looked(r, found)));
  }

  /** The reconciler writes and reports. */
  lemma Acts(run: seq<Cluster>, es: seq<Event>) returns (run': seq<Cluster>, es': seq<Event>)
    requires Run(run, es) && run[|es|].job.Looked? && run[|es|].record == Some(run[|es|].job.r)
    requires !IsInactive(run[|es|].job.r.status)
    requires Succeeds(run[|es|].deployed, Decide(run[|es|].job.r, run[|es|].job.found))
    ensures Run(run', es') && |run'| == |run| + 2 && run <= run' && run'[|es'|].job == Idle
    ensures run'[|es'|].deployed == Applied(run[|es|].deployed, Decide(run[|es|].job.r, run[|es|].job.found))
    ensures forall k :: |run| <= k < |run'| ==>
      run'[k].record.Some? && run'[k].record.value.policy == run[|es|].job.r.policy
  {
    var c := run[|es|];
    var r, w := c.job.r, Decide(c.job.r, c.job.found);
    var condition := Reported(r.policy, r.status);
    hide Run, Reported, Merged, PatchedSpec, Applied;
    var c1 := Cluster(Some(r), Applied(c.deployed, w), c.events, Acted(r, condition));
    run', es' := Extended(run, es, ReconcilerWrites(false, ""), c1);
    var r1 := r.(condition := Merged(r.condition, r.condition, condition));
    run', es' := Extended(run', es', ReconcilerReports, c1.(record := Some(r1), job := Idle));
  }

  /** The user applies a policy as active, and one reconcile runs on some reading of the deployed object. */
  lemma Applies(run: seq<Cluster>, es: seq<Event>, p: Policy, found: Option<Spec>)
      returns (run': seq<Cluster>, es': seq<Event>)
    requires Run(run, es) && run[|es|].job == Idle && Deployable(p) && WasDeployed(run, found)
    requires Succeeds(run[|es|].deployed, Decide(Record(p, Active, NO_CONDITION), found))
    ensures Run(run', es') && |run'| == |run| + 5 && run <= run' && run'[|es'|].job == Idle
    ensures run'[|es'|].deployed == Applied(run[|es|].deployed, Decide(Record(p, Active, NO_CONDITION), found))
    ensures forall k :: |run| <= k < |run'| ==> run'[k].record.Some? && run'[k].record.value.policy == p
  {
    var c := run[|es|];
    var r := Record(p, Active, if c.record.Some? then c.record.value.condition else NO_CONDITION);
    assert Decide(r, found) == Decide(Record(p, Active, NO_CONDITION), found);
    run', es' := Extended(run, es, UserApplies(p, Active), c.(record := Some(r)));
    DeployedStill(run, run', found);
    hide WasDeployed, Decide, Applied, Deployable;
    run', es' := Looks(run', es', r, found);
    run', es' := Acts(run', es');
  }

  lemma DeployedStill(run: seq<Cluster>, run': seq<Cluster>, d: Option<Spec>)
    requires WasDeployed(run, d) && run <= run'
    ensures WasDeployed(run', d)
  {
    var k :| 0 <= k < |run| && run[k].deployed == d;
    DeployedEarlier(run', k, d);
  }

  function TwoFields(a: string, b: string): Spec {
    var fields := map["a" := Leaf(a), "b" := Leaf(b)];
    assert forall k :: k in fields ==> NullFree(fields[k]);
    Object(fields)
  }

  lemma MixedPatch()
    ensures PatchedSpec(TwoFields("2", "2"), TwoFields("1", "1"), TwoFields("1", "3")) == TwoFields("2", "3")
  {
    var read, now, goal := TwoFields("1", "1"), TwoFields("2", "2"), TwoFields("1", "3");
    var r := PatchedSpec(now, read, goal);
    forall k | k in r.fields || k == "a" || k == "b" ensures At(r, k) == At(TwoFields("2", "3"), k) {
      FieldAfter(now, read, goal, k);
    }
    FieldAfter(now, read, goal, "a");
    FieldAfter(now, read, goal, "b");
    SameFields(r, TwoFields("2", "3"));
  }

  /** A spec of two fields is found again with only the first: the second stays. */
  lemma DroppedFieldStays()
    ensures var one: Spec := Object(map["a" := Leaf("2")]);
      SentSpec(TwoFields("1", "1"), one) == TwoFields("2", "1") != one
  {
    var now := TwoFields("1", "1");
    var fields := map["a" := Leaf("2")];
    assert NullFree(Object(fields)) by { assert forall k :: k in fields ==> NullFree(fields[k]); }
    var one: Spec := Object(fields);
    var r := SentSpec(now, one);
    forall k | k in r.fields || k == "a" || k == "b" ensures At(r, k) == At(TwoFields("2", "1"), k) {
      PatchedAt(now, one, k);
    }
    PatchedAt(now, one, "a");
    PatchedAt(now, one, "b");
    SameFields(r, TwoFields("2", "1"));
    assert "b" !in one.fields;
  }

  /** Three policies applied one after the other, the third on a reading of the deployed object from
      before the second. */
  lemma PatchedFromOldReading(kind: string, a: Spec, b: Spec, c: Spec) returns (run: seq<Cluster>, es: seq<Event>)
    requires kind in SUPPORTED && a != b && a != c
    ensures Run(run, es) && run[|es|].deployed == Some(PatchedSpec(b, a, c))
    ensures forall k :: 0 <= k < |run| && run[k].record.Some? ==> run[k].record.value.policy.spec in {a, b, c}
  {
    run, es := [EMPTY], [];
    assert Run(run, es);
    hide Run, Next;
    DeployedEarlier(run, 0, None);
    run, es := Applies(run, es, Policy(kind, true, true, a), None);
    DeployedEarlier(run, 5, Some(a));
    run, es := Applies(run, es, Policy(kind, true, true, b), Some(a));
    DeployedEarlier(run, 5, Some(a));
    run, es := Applies(run, es, Policy(kind, true, true, c), Some(a));
  }

  /** A patch computed from an old reading of the deployed object can put in place a spec that was never
      stored: one field of the policy before, the other of the latest. */
  lemma MixedSpecIsDeployed(kind: string) returns (run: seq<Cluster>, es: seq<Event>)
    requires kind in SUPPORTED
    ensures Run(run, es) && run[|es|].deployed == Some(TwoFields("2", "3"))
    ensures forall k :: 0 <= k < |run| && run[k].record.Some? ==> run[k].record.value.policy.spec != TwoFields("2", "3")
  {
    FieldsDiffer("1", "1", "2", "2");
    FieldsDiffer("1", "1", "1", "3");
    FieldsDiffer("1", "1", "2", "3");
    FieldsDiffer("2", "2", "2", "3");
    FieldsDiffer("1", "3", "2", "3");
    MixedPatch();
    hide *;
    run, es := PatchedFromOldReading(kind, TwoFields("1", "1"), TwoFields("2", "2"), TwoFields("1", "3"));
  }

  lemma FieldsDiffer(a: string, b: string, c: string, d: string)
    requires a != c || b != d
    ensures TwoFields(a, b) != TwoFields(c, d)
  {
    assert TwoFields(a, b).fields["a"] == Leaf(a) && TwoFields(c, d).fields["a"] == Leaf(c);
    assert TwoFields(a, b).fields["b"] == Leaf(b) && TwoFields(c, d).fields["b"] == Leaf(d);
  }

  lemma Extended(run: seq<Cluster>, es: seq<Event>, e: Event, c: Cluster) returns (run': seq<Cluster>, es': seq<Event>)
    requires Run(run, es) && Next(run, run[|es|], e, c)
    ensures Run(run', es') && run' == run + [c] && es' == es + [e]
  {
    ExtendRun(run, es, e, c);
    run', es' := run + [c], es + [e];
  }
}
