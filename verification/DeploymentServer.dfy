/** The handlers of the deployment protocol as they run undisturbed on the API server's objects: each
    is a step, or a composition of steps, of the machine in Deployment.dfy. */
module DeploymentServer {
  import opened Wrappers
  import opened JsonPatch
  import opened Deployment

  const PHASE_SUCCESS: string := "Success"
  const PHASE_FAILED: string := "Failed"

  /** A status write is skipped when nothing differs from what was read. */
  predicate IsStatusChanged(instance: Record, to: Condition) {
    || instance.condition.phase != to.phase || instance.condition.kind != to.kind
    || instance.condition.message != to.message || instance.condition.reason != to.reason
  }

  /** What one undisturbed reconcile is for: an active record has its spec deployed afterwards, an inactive one
      has nothing deployed, and nothing is deployed or deleted for another kind, for a manifest that does not
      decode, or for one with another name. */
  ghost predicate Outcome(c: Cluster, c': Cluster) {
    if c.record == None || c.record.value.status == PendingUpdates then c' == c
    else
      var p, s := c.record.value.policy, c.record.value.status;
      && c'.record.Some? && c'.record.value.policy == p && c'.record.value.status == s
      && if p.kind in {"KubeArmorPolicy", "CiliumNetworkPolicy", "NetworkPolicy"} && p.parses && p.matches then
           && c'.deployed == (if s == Active || s == active then Some(p.spec) else None)
           && c'.events == c.events + (if s != Active && s != active && c.deployed != None then 1 else 0)
           && c'.record.value.condition.phase == "Success"
         else c'.deployed == c.deployed && c'.events == c.events && c'.record.value.condition.phase == "Failed"
  }

  lemma ReconciledOutcome(c: Cluster)
    requires c.job == Idle
    ensures Outcome(c, Reconciled(c))
  {
    hide PatchedSpec;
    if c.record.Some? && c.record.value.status != PendingUpdates {
      ReportedPhase(c.record.value.policy, c.record.value.status);
      hide Reported;
    }
  }

  lemma ReportedPhase(p: Policy, s: Status)
    ensures Reported(p, s).phase ==
      if p.kind in {"KubeArmorPolicy", "CiliumNetworkPolicy", "NetworkPolicy"} && p.parses && p.matches then "Success"
      else "Failed"
  {
  }

  /** A failed write is never reported as a success, and its error is. */
  lemma FailureIsReported(p: Policy, w: Write, error: string)
    ensures FailedReport(p, w, error).phase == if w == NoWrite then "Unknown" else "Failed"
    ensures FailedReport(p, w, error).reason == error
  {
  }

  class Server {
    var record: Option<Record>
    var deployed: Option<Spec>
    var events: nat

    constructor ()
      ensures State() == EMPTY
    {
      record, deployed, events := None, None, 0;
    }

    ghost function State(): Cluster
      reads this
    {
      Cluster(record, deployed, events, Idle)
    }

    // ---------------------------------------------------------------- discovery

    /** The new manifest with the merged spec; an active record becomes pending, another keeps its status. */
    ghost predicate Rewritten(r: Record, p: Policy)
      reads this
    {
      && record.Some? && record.value.policy == p.(spec := record.value.policy.spec)
      && record.value.policy.spec == Patched(r.policy.spec, p.spec)
      && record.value.status == (if r.status == Active || r.status == active then PendingUpdates else r.status)
      && record.value.condition == r.condition
    }

    /** What the comparison with the stored rules makes of the cluster. */
    ghost predicate Updated(c: Cluster, p: Policy, policyType: string, panics: bool)
      requires c.record.Some?
      reads this
    {
      var same := AreRulesSame(c.record.value.policy, p, policyType);
      && (panics <==> same == Panics)
      && (same != Different ==> State() == c)
      && (same == Different ==> Next([c], c, DiscoveryUpdates(p, policyType, c.record.value), State()))
    }

    /** Creates the record as inactive, or updates an existing one: what discovery writes is never active. */
    method CreateDsp(p: Policy, policyType: string) returns (panics: bool)
      modifies this
      ensures old(record) == None ==> !panics && Next([old(State())], old(State()), DiscoveryCreates(p), State())
      ensures old(record).Some? ==> Updated(old(State()), p, policyType, panics)
      ensures deployed == old(deployed) && events == old(events) && record.Some?
      ensures old(record) == None ==> record.value.policy == p && record.value.status == Inactive
      ensures old(record).Some? ==> record == old(record) || Rewritten(old(record).value, p)
      ensures record != old(record) ==> record.value.status != Active && record.value.status != active
    {
      if record == None {
        record := Some(Record(p, Inactive, NO_CONDITION));
        panics := false;
      } else {
        panics := UpdateExisting(p, policyType);
      }
    }

    /** Writes changed rules; an active record becomes pending. */
    method UpdateExisting(p: Policy, policyType: string) returns (panics: bool)
      requires record.Some?
      modifies this
      ensures Updated(old(State()), p, policyType, panics)
      ensures deployed == old(deployed) && events == old(events) && record.Some?
      ensures record == old(record) || Rewritten(old(record).value, p)
      ensures policyType == "KubeArmorPolicy" || policyType == "CiliumNetworkPolicy" ==>
        !panics && (old(record).value.policy.spec != p.spec ==> Rewritten(old(record).value, p))
    {
      var dsp := record.value;
      match AreRulesSame(dsp.policy, p, policyType) {
        case Panics => return true;
        case Same => return false;
        case Different =>
      }
      ghost var past := [State()];
      assert past[0].record == Some(dsp);
      var newStatus;
      match dsp.status {
        case Active => newStatus := PendingUpdates;
        case active => newStatus := PendingUpdates;
        case _ => newStatus := dsp.status;
      }
      record := Some(record.value.(policy := SentPolicy(record.value.policy, p), status := newStatus));
      return false;
    }

    // ---------------------------------------------------------------- the reconciler

    /** One reconcile of the stored record: an active one has its spec deployed afterwards, an inactive one
        has nothing deployed, and nothing is deployed or deleted for another kind, for a manifest that does
        not decode, or for one with another name. */
    method Reconcile()
      modifies this
      ensures State() == Reconciled(old(State()))
      ensures Outcome(old(State()), State())
    {
      ReconciledOutcome(State());
      hide Reconciled, Outcome;
      if record == None {
        return;
      }
      var cr := record.value;
      if cr.status == PendingUpdates {
        return;
      }
      if cr.policy.kind in SUPPORTED {
        HandlePolicy(cr);
      } else {
        UpdateStatus(cr, Condition(PHASE_FAILED, cr.policy.kind, "Provided Policy Kind is not supported", ""));
      }
    }

    /** The handler, the same for every kind: parse, validate, then deploy or delete. */
    method HandlePolicy(instance: Record)
      requires record == Some(instance) && instance.status != PendingUpdates && instance.policy.kind in SUPPORTED
      modifies this
      ensures State() == Reconciled(old(State()))
    {
      var crd := instance.policy;
      if !crd.parses {
        UpdateStatus(instance, Condition(PHASE_FAILED, "Unknown", "Unable to parse the specified policy", ""));
        return;
      }
      if !crd.matches {
        UpdateStatus(instance, Condition(PHASE_FAILED, crd.kind, "Policy Validation Failed",
                                         "Policy NamespacedName should match with dsp NamespacedName"));
        return;
      }
      if instance.status == Inactive || instance.status == inactive {
        Deactivate(instance);
      } else {
        Activate(instance);
      }
    }

    /** Deletes the deployed policy if there is one. */
    method Deactivate(instance: Record)
      requires record == Some(instance) && IsInactive(instance.status) && Deployable(instance.policy)
      modifies this
      ensures State() == Reconciled(old(State()))
    {
      if deployed != None {
        deployed, events := None, events + 1;
      }
      UpdateStatus(instance, Condition(PHASE_SUCCESS, instance.policy.kind,
                                       "Discovered Policy Has Been Created", "Policy status is Currently Inactive"));
    }

    /** Makes the deployed policy have the stored rules. */
    method Activate(instance: Record)
      requires record == Some(instance) && IsActive(instance.status) && Deployable(instance.policy)
      modifies this
      ensures State() == Reconciled(old(State()))
    {
      if deployed == None {
        deployed := Some(instance.policy.spec);
      } else if instance.policy.spec != deployed.value {
        deployed := Some(PatchedSpec(deployed.value, deployed.value, instance.policy.spec));
      }
      UpdateStatus(instance, Condition(PHASE_SUCCESS, instance.policy.kind, "Policy has been deployed and Active", ""));
    }

    /** Writes the condition if it differs from the one read. */
    method UpdateStatus(instance: Record, to: Condition)
      requires record == Some(instance)
      modifies this`record
      ensures record == Some(instance.(condition := to))
    {
      if !IsStatusChanged(instance, to) {
        return;
      }
      record := Some(instance.(condition := to));
    }

    // ---------------------------------------------------------------- the delete watcher

    /** Handles one delete event: the status goes back to inactive. */
    method OnDelete()
      requires events > 0
      modifies this
      ensures QuietStep(old(State()), if old(record) == None then WatcherFindsNoRecord else WatcherReverts, State())
      ensures deployed == old(deployed) && events == old(events) - 1
      ensures record == if old(record) == None then None else Some(old(record).value.(status := Inactive))
    {
      ghost var past := [State()];
      assert past[0].record == record;
      events := events - 1;
      if record == None {
        return;
      }
      record := Some(record.value.(status := Inactive));
    }
  }
}
