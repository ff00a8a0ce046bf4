/** The health-check controller's Reconcile over a server whose calls may fail. Every execution
    is a health-check pass of the machine in `Cluster`. */
module HealthController {
  import opened MergePatch
  import opened Conditions
  import opened Model
  import opened Cluster
  import opened Api
  import opened ConfigurationTypes

  /** Whether the interval has passed since the northbound leader condition was stamped. */
  method CheckNeeded(config: Configuration, interval: int, clock: int) returns (needed: bool)
    ensures needed == Model.CheckNeeded(config.conditions, interval, clock)
  {
    var condition := config.LookupCondition(NbLeaderFound);
    return (condition.transition + interval) * SECOND < clock;
  }

  /** Looks for the leader pods, then probes both databases, setting conditions as it goes. */
  method ReconcileOVNDBHealth(api: ApiServer, op: Operator, config: Configuration, answers: HealthAnswers)
    returns (ok: bool)
    requires config.Valid()
    modifies api`budget, config`conditions
    ensures ok ==> config.conditions ==
                   if Model.CheckNeeded(old(config.conditions), op.interval, api.state.clock)
                   then HealthConditions(old(config.conditions), config.generation, answers, api.state.clock / SECOND)
                   else old(config.conditions)
    ensures !ok ==> api.budget == 0
    ensures old(api.budget) >= 2 ==> ok && api.budget >= old(api.budget) - 2
  {
    hide Set, Model.CheckNeeded;
    var needed := CheckNeeded(config, op.interval, api.state.clock);
    if !needed {
      return true;
    }
    var now := api.state.clock / SECOND;
    var runNBCheck, runSBCheck := false, false;
    ok := api.Call();
    if !ok {
      return;
    }
    if |answers.nbPods| == 0 {
      config.SetCondition(NbLeaderFound, IsFalse, NO_NB_LEADER, "LeaderNotFound", now);
    } else {
      runNBCheck := true;
      config.SetCondition(NbLeaderFound, IsTrue, "northbound leader found " + answers.nbPods[0], "LeaderFound", now);
    }
    ok := api.Call();
    if !ok {
      return;
    }
    if |answers.sbPods| == 0 {
      config.SetCondition(SbLeaderFound, IsFalse, NO_SB_LEADER, "LeaderNotFound", now);
    } else {
      runSBCheck := true;
      config.SetCondition(SbLeaderFound, IsTrue, "northbound leader found " + answers.sbPods[0], "LeaderFound", now);
    }
    if runNBCheck {
      ProbeDatabase(config, NbDbHealth, answers.nbProbePods, answers.nbExec, now);
    }
    if runSBCheck {
      ProbeDatabase(config, SbDbHealth, answers.sbProbePods, answers.sbExec, now);
    }
  }

  /** A failing probe is a finding, not an error. */
  method ProbeDatabase(config: Configuration, ctype: ConditionType, leaders: seq<string>, exec: ExecResult, now: int)
    modifies config`conditions
    ensures config.conditions == Set(old(config.conditions),
                                     DbCondition(ctype, OnOnlyLeader(leaders, exec), config.generation, now))
  {
    var result := OnOnlyLeader(leaders, exec);
    if result.ExecFailed? {
      config.SetCondition(ctype, IsFalse, result.output, "DBHealth", now);
    } else {
      config.SetCondition(ctype, IsTrue, result.output, "DBHealth", now);
    }
  }

  /** A check that is due has stored its findings; one that is not changes nothing. */
  ghost predicate Checked(op: Operator, s: State, s': State, answers: HealthAnswers) {
    if s.config.None? || s.config.value.deleting || s.config.value.status.phase != Deployed then s' == s
    else
      var c := s.config.value;
      if (Lookup(c.status.conditions, NbLeaderFound).transition + op.interval) * SECOND >= s.clock then s' == s
      else
        var checked := HealthConditions(c.status.conditions, c.generation, answers, s.clock / SECOND);
        s' == s.(config := Some(c.(status := c.status.(conditions := checked))))
  }

  /** One reconcile. It fails only if a call fails; otherwise a deployed Configuration whose leader
      stamp is more than the interval old stores what the check found, whatever that is, and nothing
      else ever changes. */
  method Reconcile(api: ApiServer, op: Operator, answers: HealthAnswers) returns (ok: bool, ghost cut: nat)
    modifies api
    ensures api.state == PerformAll(old(api.state), Take(HealthPlan(op, old(api.state), answers), cut))
    ensures ok ==> cut >= |HealthPlan(op, old(api.state), answers)|
    ensures !ok ==> api.budget == 0 && api.state == old(api.state)
    ensures old(api.budget) >= 4 ==> ok
    ensures ok ==> Checked(op, old(api.state), api.state, answers)
  {
    hide PerformAll, HealthConditions, Model.CheckNeeded, Take;
    ghost var s0 := api.state;
    cut := 0;
    EmptyRun(s0);
    TakeEnds(HealthPlan(op, s0, answers), 0);
    TakeEnds(HealthPlan(op, s0, answers), 1);
    ok := api.Call();
    if !ok || api.state.config.None? {
      return;
    }
    var stored := api.state.config.value;
    if stored.deleting || stored.status.phase != Deployed {
      return;
    }
    var config := new Configuration.DeepCopy(stored);
    ok := ReconcileOVNDBHealth(api, op, config, answers);
    if !ok {
      return;
    }
    assert Model.CheckNeeded(stored.status.conditions, op.interval, s0.clock) <==>
           (Lookup(stored.status.conditions, NbLeaderFound).transition + op.interval) * SECOND < s0.clock by {
      CheckNeededIs(stored.status.conditions, op.interval, s0.clock);
    }
    if config.conditions != stored.status.conditions {
      OwnPatch(stored.status, stored.status.(conditions := config.conditions));
      var modified := Status(stored.status.addresses, config.conditions, stored.status.phase);
      PerformOne(s0, PatchConfigStatus(stored.status, modified));
      assert HealthPlan(op, s0, answers) == [PatchConfigStatus(stored.status, modified)];
      ok := api.Write(PatchConfigStatus(stored.status, modified));
      cut := if ok then 1 else 0;
    } else {
      assert s0.config == Some(stored.(status := stored.status.(conditions := config.conditions)));
    }
  }

  lemma CheckNeededIs(cs: seq<Condition>, interval: int, clock: int)
    ensures Model.CheckNeeded(cs, interval, clock) <==>
              (Lookup(cs, NbLeaderFound).transition + interval) * SECOND < clock
  {
  }
}
