/** The slot in `run_t213_live_pipeline.py`: what every run of it leaves behind, wherever it is cut short. */
module LiveRunbook {
  import opened Sequences
  import opened MatchSetSlot

  /** What `run` does to the slot. The printing and returning between the committed activation and the assignment that
      remembers it is an action of its own: it can raise. */
  function LiveBody(plan: Plan): seq<Action> {
    [ReadPrior(None), Quiet, Create(plan.id, plan.name), Validate(plan.id, plan.passes, plan.hash),
     Activate(plan.id, plan.recomputed), Quiet, Remember, Quiet]
    + (if plan.keepNew then [] else [GiveBack, Close]) + [Quiet]
  }

  function GivenBack(sets: Sets, prior: Option<string>, plan: Plan): Sets {
    sets[plan.id := MatchSet(plan.name, if prior.Some? then Retired else Active, Some(plan.hash))]
  }

  /** The world after `n` actions of the live runbook. */
  ghost function LiveWorld(sets: Sets, plan: Plan, n: nat): World {
    var prior := Current(sets, None);
    if n == 0 then Start(sets)
    else if n <= 2 then World(sets, prior, false, false)
    else if n == 3 then World(Drafted(sets, plan), prior, false, false)
    else if n == 4 then World(Checked(sets, plan), prior, false, false)
    else if n <= 8 || plan.keepNew then World(Borrowed(sets, prior, plan), prior, n >= 7, false)
    else World(GivenBack(sets, prior, plan), prior, true, n >= 10)
  }

  lemma RestoreRestores(sets: Sets, prior: string, plan: Plan)
    requires AtMostOneActive(sets) && IsActive(sets, prior) && plan.id !in sets
    ensures RunTransaction(Borrowed(sets, Some(prior), plan), RestoreSteps(prior, plan.id))
         == Some(GivenBack(sets, Some(prior), plan))
    ensures RunTransaction(GivenBack(sets, Some(prior), plan), RestoreSteps(prior, plan.id))
         == Some(GivenBack(sets, Some(prior), plan))
  {
    var retire, activate := SetState(plan.id, Some(Active), Retired), SetState(prior, Some(Retired), Active);
    var before, after := Borrowed(sets, Some(prior), plan), GivenBack(sets, Some(prior), plan);
    assert forall x :: x in Exec(before, retire) ==> Exec(before, retire)[x].state != Active;
    assert Exec(Exec(before, retire), activate) == after;
    BothCommitted(before, retire, activate);
    assert Exec(after, retire) == after && Exec(after, activate) == after;
    BothCommitted(after, retire, activate);
  }

  /** How far the actions of the runbook get by themselves: a set that does not validate, or whose hash has changed,
      ends it. */
  function LiveReach(plan: Plan): (reach: nat)
    ensures reach <= |LiveBody(plan)|
  {
    if !plan.passes then 3 else if plan.recomputed != Some(plan.hash) then 4 else |LiveBody(plan)|
  }

  lemma LiveStep(sets: Sets, plan: Plan, n: nat)
    requires AtMostOneActive(sets) && plan.id !in sets && n <= LiveReach(plan) && n < |LiveBody(plan)|
    ensures var next := Act(Live(plan.id), LiveWorld(sets, plan, n), LiveBody(plan)[n]);
      if n < LiveReach(plan) then next == Some(LiveWorld(sets, plan, n + 1)) else next.None?
  {
    var prior := Current(sets, None);
    if n == 2 || n == 3 {
      DraftIsValidated(sets, plan);
    } else if n == 4 {
      ActivationBorrows(sets, prior, plan);
    } else if n == 8 && prior.Some? {
      RestoreRestores(sets, prior.value, plan);
    }
  }

  lemma LiveRuns(sets: Sets, plan: Plan, stop: nat)
    requires AtMostOneActive(sets) && plan.id !in sets
    ensures var n := Reached(stop, LiveReach(plan)); LiveRun(sets, plan, stop) == (LiveWorld(sets, plan, n), n)
  {
    var n := |LiveBody(plan)|;
    var track := seq(n + 1, k requires 0 <= k <= n => LiveWorld(sets, plan, k));
    forall k | 0 <= k <= LiveReach(plan) && k < n
      ensures var next := Act(Live(plan.id), track[k], LiveBody(plan)[k]);
        if k < LiveReach(plan) then next == Some(track[k + 1]) else next.None?
    {
      LiveStep(sets, plan, k);
    }
    RunStaysOnTrack(Live(plan.id), LiveBody(plan), track, LiveReach(plan), stop);
  }

  ghost function LiveRun(sets: Sets, plan: Plan, stop: nat): (World, nat) {
    Run(Live(plan.id), Start(sets), LiveBody(plan), stop)
  }

  ghost function LiveExit(sets: Sets, plan: Plan, stop: nat): Sets {
    Finally(Live(plan.id), LiveRun(sets, plan, stop).0, plan.keepNew)
  }

  /** The exact registry at exit, for every plan and every point at which the run may be cut short. */
  lemma LiveExitIs(sets: Sets, plan: Plan, stop: nat)
    requires AtMostOneActive(sets) && plan.id !in sets
    ensures var prior, n := Current(sets, None), Reached(stop, LiveReach(plan));
      LiveExit(sets, plan, stop)
      == if n <= 2 then sets
         else if n == 3 then Drafted(sets, plan)
         else if n == 4 then Checked(sets, plan)
         else if n <= 6 || plan.keepNew then Borrowed(sets, prior, plan)
         else GivenBack(sets, prior, plan)
  {
    LiveRuns(sets, plan, stop);
    var prior := Current(sets, None);
    if prior.Some? {
      RestoreRestores(sets, prior.value, plan);
    }
  }

  /** The set that was active before the run is active again at exit exactly when the new set could not be activated,
      the run was cut before its activation, or the run was cut after it had remembered it and was not asked to keep the
      slot. */
  lemma LiveSlotIsGivenBack(sets: Sets, plan: Plan, stop: nat, prior: string)
    requires AtMostOneActive(sets) && plan.id !in sets && IsActive(sets, prior)
    ensures IsActive(LiveExit(sets, plan, stop), prior)
      <==> !Activates(plan) || stop <= 4 || (stop >= 7 && !plan.keepNew)
  {
    CurrentIsUnique(sets, Current(sets, None), Some(prior));
    LiveExitIs(sets, plan, stop);
  }

  /** Cut between the activation and its remembering, the slot stays with the new set although nobody asked for it. */
  lemma LiveSlotIsLost(sets: Sets, plan: Plan, stop: nat)
    requires AtMostOneActive(sets) && plan.id !in sets && Activates(plan) && 5 <= stop <= 6
    ensures IsActive(LiveExit(sets, plan, stop), plan.id)
    ensures forall prior :: IsActive(sets, prior) ==> !IsActive(LiveExit(sets, plan, stop), prior)
  {
    LiveExitIs(sets, plan, stop);
  }

  lemma LiveWorldsHaveOneActive(sets: Sets, plan: Plan, n: nat)
    requires AtMostOneActive(sets) && plan.id !in sets
    ensures AtMostOneActive(LiveWorld(sets, plan, n).sets)
  {
  }

  /** At no point of any run are two sets active: not between actions and not after the `finally` block. */
  lemma LiveNeverTwoActive(sets: Sets, plan: Plan, stop: nat)
    requires AtMostOneActive(sets) && plan.id !in sets
    ensures AtMostOneActive(LiveRun(sets, plan, stop).0.sets) && AtMostOneActive(LiveExit(sets, plan, stop))
  {
    LiveRuns(sets, plan, stop);
    var (w, n) := LiveRun(sets, plan, stop);
    LiveWorldsHaveOneActive(sets, plan, n);
    TransactionsKeepTheIndex(w.sets, GiveBackSteps(Live(plan.id), w.prior));
  }
}
