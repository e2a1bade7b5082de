/** The slot in `run_sejong_live_pipeline.py`: what every run of it leaves behind, wherever it is cut short. */
module SejongRunbook {
  import opened Sequences
  import opened MatchSetSlot

  /** The Sejong runbook deletes the sets it owns, by name, before it looks for the set to give the slot back to. */
  function SejongBody(plan: Plan): seq<Action> {
    [CleanOwn(plan.name), ReadPrior(Some(plan.name)), Quiet, Create(plan.id, plan.name),
     Validate(plan.id, plan.passes, plan.hash), Activate(plan.id, plan.recomputed), Quiet, Remember, Quiet]
    + (if plan.keepNew then [] else [GiveBack, Close]) + [Quiet]
  }

  function Cleaned(sets: Sets, plan: Plan): Sets {
    map id | id in sets && sets[id].name != plan.name :: sets[id]
  }

  ghost function SejongWorld(sets: Sets, plan: Plan, n: nat): World {
    var clean := Cleaned(sets, plan);
    var prior := Current(clean, Some(plan.name));
    if n == 0 then Start(sets)
    else if n == 1 then Start(clean)
    else if n <= 3 then World(clean, prior, false, false)
    else if n == 4 then World(Drafted(clean, plan), prior, false, false)
    else if n == 5 then World(Checked(clean, plan), prior, false, false)
    else if n <= 9 || plan.keepNew then World(Borrowed(clean, prior, plan), prior, n >= 8, false)
    else World(clean, prior, true, n >= 11)
  }

  lemma DeletingTheOwnSet(sets: Sets, prior: Option<string>, plan: Plan)
    requires AtMostOneActive(sets) && IsCurrent(sets, prior) && plan.id !in sets
    requires forall id :: id in sets ==> sets[id].name != plan.name
    ensures Exec(sets, DeleteNamed(plan.name)) == sets
    ensures Exec(Borrowed(sets, prior, plan), DeleteNamed(plan.name))
         == if prior.Some? then sets[prior.value := sets[prior.value].(state := Retired)] else sets
    ensures AtMostOneActive(Exec(Borrowed(sets, prior, plan), DeleteNamed(plan.name)))
  {
  }

  lemma CleanupRestores(sets: Sets, prior: Option<string>, plan: Plan)
    requires AtMostOneActive(sets) && IsCurrent(sets, prior) && plan.id !in sets
    requires forall id :: id in sets ==> sets[id].name != plan.name
    ensures RunTransaction(Borrowed(sets, prior, plan), CleanupSteps(plan.name, prior)) == Some(sets)
    ensures RunTransaction(sets, CleanupSteps(plan.name, prior)) == Some(sets)
  {
    var delete, before := DeleteNamed(plan.name), Borrowed(sets, prior, plan);
    DeletingTheOwnSet(sets, prior, plan);
    if prior.Some? {
      var activate := SetState(prior.value, Some(Retired), Active);
      assert Exec(Exec(before, delete), activate) == sets;
      BothCommitted(before, delete, activate);
      BothCommitted(sets, delete, activate);
    } else {
      assert Exec(before, delete) == sets;
      Committed(before, delete);
      Committed(sets, delete);
    }
  }

  lemma CleaningCommits(sets: Sets, plan: Plan)
    requires AtMostOneActive(sets)
    ensures RunTransaction(sets, CleanupSteps(plan.name, None)) == Some(Cleaned(sets, plan))
    ensures AtMostOneActive(Cleaned(sets, plan))
    ensures IsCurrent(Cleaned(sets, plan), Current(Cleaned(sets, plan), Some(plan.name)))
  {
    Committed(sets, DeleteNamed(plan.name));
  }

  function SejongReach(plan: Plan): (reach: nat)
    ensures reach <= |SejongBody(plan)|
  {
    if !plan.passes then 4 else if plan.recomputed != Some(plan.hash) then 5 else |SejongBody(plan)|
  }

  lemma SejongStepToActivation(sets: Sets, plan: Plan, n: nat)
    requires AtMostOneActive(sets) && plan.id !in sets && n <= SejongReach(plan) && n <= 5
    ensures var next := Act(Sejong(plan.name), SejongWorld(sets, plan, n), SejongBody(plan)[n]);
      if n < SejongReach(plan) then next == Some(SejongWorld(sets, plan, n + 1)) else next.None?
  {
    var clean := Cleaned(sets, plan);
    var prior := Current(clean, Some(plan.name));
    CleaningCommits(sets, plan);
    if n == 3 || n == 4 {
      DraftIsValidated(clean, plan);
    } else if n == 5 {
      ActivationBorrows(clean, prior, plan);
    }
  }

  lemma SejongStepAfterActivation(sets: Sets, plan: Plan, n: nat)
    requires AtMostOneActive(sets) && plan.id !in sets && 6 <= n < |SejongBody(plan)|
    ensures Act(Sejong(plan.name), SejongWorld(sets, plan, n), SejongBody(plan)[n])
         == Some(SejongWorld(sets, plan, n + 1))
  {
    var clean := Cleaned(sets, plan);
    if n == 9 {
      CleaningCommits(sets, plan);
      CleanupRestores(clean, Current(clean, Some(plan.name)), plan);
    }
  }

  lemma SejongRuns(sets: Sets, plan: Plan, stop: nat)
    requires AtMostOneActive(sets) && plan.id !in sets
    ensures var n := Reached(stop, SejongReach(plan)); SejongRun(sets, plan, stop) == (SejongWorld(sets, plan, n), n)
  {
    var n := |SejongBody(plan)|;
    var track := seq(n + 1, k requires 0 <= k <= n => SejongWorld(sets, plan, k));
    forall k | 0 <= k <= SejongReach(plan) && k < n
      ensures var next := Act(Sejong(plan.name), track[k], SejongBody(plan)[k]);
        if k < SejongReach(plan) then next == Some(track[k + 1]) else next.None?
    {
      if k <= 5 {
        SejongStepToActivation(sets, plan, k);
      } else {
        SejongStepAfterActivation(sets, plan, k);
      }
    }
    RunStaysOnTrack(Sejong(plan.name), SejongBody(plan), track, SejongReach(plan), stop);
  }

  ghost function SejongRun(sets: Sets, plan: Plan, stop: nat): (World, nat) {
    Run(Sejong(plan.name), Start(sets), SejongBody(plan), stop)
  }

  ghost function SejongExit(sets: Sets, plan: Plan, stop: nat): Sets {
    Finally(Sejong(plan.name), SejongRun(sets, plan, stop).0, plan.keepNew)
  }

  /** The exact registry at exit. Once its activation is remembered, a run that may not keep the slot leaves the
      registry as its first cleanup left it; with no prior set to restore, only the normal end of the run gives the slot
      up. */
  lemma SejongExitIs(sets: Sets, plan: Plan, stop: nat)
    requires AtMostOneActive(sets) && plan.id !in sets
    ensures var clean, n := Cleaned(sets, plan), Reached(stop, SejongReach(plan));
      var prior := Current(clean, Some(plan.name));
      SejongExit(sets, plan, stop)
      == if n == 0 then sets
         else if n <= 3 then clean
         else if n == 4 then Drafted(clean, plan)
         else if n == 5 then Checked(clean, plan)
         else if n <= 7 || plan.keepNew || (n <= 9 && prior.None?) then Borrowed(clean, prior, plan)
         else clean
  {
    SejongRuns(sets, plan, stop);
    CleaningCommits(sets, plan);
    CleanupRestores(Cleaned(sets, plan), Current(Cleaned(sets, plan), Some(plan.name)), plan);
  }

  /** The set that was active before the run is active at exit exactly when nothing was done, or the runbook does not
      own that set and could not activate its own, was cut before that, or was cut after it had remembered it and not
      asked to keep the slot. */
  lemma SejongSlotIsGivenBack(sets: Sets, plan: Plan, stop: nat, prior: string)
    requires AtMostOneActive(sets) && plan.id !in sets && IsActive(sets, prior)
    ensures stop == 0 ==> IsActive(SejongExit(sets, plan, stop), prior)
    ensures stop > 0 ==>
      (IsActive(SejongExit(sets, plan, stop), prior) <==>
       sets[prior].name != plan.name && (!Activates(plan) || stop <= 5 || (stop >= 8 && !plan.keepNew)))
  {
    var clean := Cleaned(sets, plan);
    CleaningCommits(sets, plan);
    SejongExitIs(sets, plan, stop);
    if sets[prior].name != plan.name {
      CurrentIsUnique(clean, Current(clean, Some(plan.name)), Some(prior));
    }
  }

  lemma SejongSlotIsLost(sets: Sets, plan: Plan, stop: nat)
    requires AtMostOneActive(sets) && plan.id !in sets && Activates(plan) && 6 <= stop <= 7
    ensures IsActive(SejongExit(sets, plan, stop), plan.id)
    ensures forall prior :: IsActive(sets, prior) ==> !IsActive(SejongExit(sets, plan, stop), prior)
  {
    SejongExitIs(sets, plan, stop);
    CleaningCommits(sets, plan);
  }

  lemma SejongWorldsHaveOneActive(sets: Sets, plan: Plan, n: nat)
    requires AtMostOneActive(sets) && plan.id !in sets
    ensures AtMostOneActive(SejongWorld(sets, plan, n).sets)
  {
    CleaningCommits(sets, plan);
  }

  lemma SejongNeverTwoActive(sets: Sets, plan: Plan, stop: nat)
    requires AtMostOneActive(sets) && plan.id !in sets
    ensures AtMostOneActive(SejongRun(sets, plan, stop).0.sets) && AtMostOneActive(SejongExit(sets, plan, stop))
  {
    SejongRuns(sets, plan, stop);
    var (w, n) := SejongRun(sets, plan, stop);
    SejongWorldsHaveOneActive(sets, plan, n);
    TransactionsKeepTheIndex(w.sets, GiveBackSteps(Sejong(plan.name), w.prior));
  }
}
