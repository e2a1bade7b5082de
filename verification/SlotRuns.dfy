/**
 * Any number of runs of the two live runbooks on one registry: when the slot comes back to the set that had it, and what
 * follows when it does not.
 */
module SlotRuns {
  import opened Sequences
  import opened MatchSetSlot
  import opened LiveRunbook
  import opened SejongRunbook

  /** One run of either runbook, cut short anywhere. */
  datatype Attempt = Attempt(live: bool, plan: Plan, stop: nat)

  ghost function Exit(sets: Sets, a: Attempt): Sets {
    if a.live then LiveExit(sets, a.plan, a.stop) else SejongExit(sets, a.plan, a.stop)
  }

  /** New ids are fresh, nobody is asked to keep the slot, no run is cut in the gap between activation and remembering
      it, and the Sejong runbook does not own the set in question. */
  predicate Harmless(sets: Sets, a: Attempt, name: string) {
    && a.plan.id !in sets && !a.plan.keepNew
    && (if a.live then Activates(a.plan) ==> !(5 <= a.stop <= 6)
        else a.plan.name != name && (Activates(a.plan) ==> !(6 <= a.stop <= 7)))
  }

  ghost function Exits(sets: Sets, attempts: seq<Attempt>): Sets {
    if attempts == [] then sets else Exit(Exits(sets, attempts[..|attempts| - 1]), attempts[|attempts| - 1])
  }

  /** However many runs of the two runbooks are started and cut short, the slot stays with the set that had it. */
  lemma {:induction false} TheSlotComesBackEveryTime(sets: Sets, attempts: seq<Attempt>, owner: string)
    requires AtMostOneActive(sets) && IsActive(sets, owner)
    requires forall k :: 0 <= k < |attempts| ==> Harmless(Exits(sets, attempts[..k]), attempts[k], sets[owner].name)
    ensures var last := Exits(sets, attempts);
      AtMostOneActive(last) && IsActive(last, owner) && last[owner] == sets[owner]
    decreases |attempts|
  {
    if attempts != [] {
      var n := |attempts| - 1;
      forall k | 0 <= k < n ensures Harmless(Exits(sets, attempts[..n][..k]), attempts[..n][k], sets[owner].name) {
        assert attempts[..n][..k] == attempts[..k];
      }
      TheSlotComesBackEveryTime(sets, attempts[..n], owner);
      var before, a := Exits(sets, attempts[..n]), attempts[n];
      assert Harmless(before, a, sets[owner].name);
      if a.live {
        LiveSlotIsGivenBack(before, a.plan, a.stop, owner);
        LiveNeverTwoActive(before, a.plan, a.stop);
        LiveExitIs(before, a.plan, a.stop);
      } else {
        SejongSlotIsGivenBack(before, a.plan, a.stop, owner);
        SejongNeverTwoActive(before, a.plan, a.stop);
        SejongExitIs(before, a.plan, a.stop);
      }
    }
  }

  // ---- what follows a lost slot ----

  /** A run activates no set but its own: one that is not active before it is not active after it. */
  lemma OnlyTheOwnSetIsActivated(sets: Sets, a: Attempt, id: string)
    requires AtMostOneActive(sets) && a.plan.id !in sets && a.plan.id != id && !IsActive(sets, id)
    ensures AtMostOneActive(Exit(sets, a)) && !IsActive(Exit(sets, a), id)
  {
    if a.live {
      LiveNeverTwoActive(sets, a.plan, a.stop);
      LiveExitIs(sets, a.plan, a.stop);
    } else {
      SejongNeverTwoActive(sets, a.plan, a.stop);
      SejongExitIs(sets, a.plan, a.stop);
      CleaningCommits(sets, a.plan);
    }
  }

  /** New ids are fresh and none is the id in question. */
  ghost predicate OthersOnly(sets: Sets, attempts: seq<Attempt>, id: string) {
    forall k :: 0 <= k < |attempts| ==> attempts[k].plan.id !in Exits(sets, attempts[..k]) && attempts[k].plan.id != id
  }

  /** However many runs of either runbook follow, whatever they are asked for and wherever they are cut, a set that is
      not active does not become active again. */
  lemma {:induction false} RunsNeverActivateAnother(sets: Sets, attempts: seq<Attempt>, id: string)
    requires AtMostOneActive(sets) && !IsActive(sets, id) && OthersOnly(sets, attempts, id)
    ensures AtMostOneActive(Exits(sets, attempts)) && !IsActive(Exits(sets, attempts), id)
    decreases |attempts|
  {
    if attempts != [] {
      var n := |attempts| - 1;
      forall k | 0 <= k < n
        ensures attempts[..n][k].plan.id !in Exits(sets, attempts[..n][..k]) && attempts[..n][k].plan.id != id
      {
        assert attempts[..n][..k] == attempts[..k];
      }
      RunsNeverActivateAnother(sets, attempts[..n], id);
      OnlyTheOwnSetIsActivated(Exits(sets, attempts[..n]), attempts[n], id);
    }
  }

  /** A run is cut in the gap. */
  predicate LosesTheSlot(a: Attempt) {
    Activates(a.plan) && if a.live then 5 <= a.stop <= 6 else 6 <= a.stop <= 7
  }

  /** So a slot that is lost in the gap never comes back to its owner by further runs. */
  lemma ALostSlotStaysLost(sets: Sets, lost: Attempt, attempts: seq<Attempt>, owner: string)
    requires AtMostOneActive(sets) && IsActive(sets, owner) && lost.plan.id !in sets && LosesTheSlot(lost)
    requires OthersOnly(Exit(sets, lost), attempts, owner)
    ensures !IsActive(Exits(Exit(sets, lost), attempts), owner)
  {
    if lost.live {
      LiveSlotIsLost(sets, lost.plan, lost.stop);
      LiveNeverTwoActive(sets, lost.plan, lost.stop);
    } else {
      SejongSlotIsLost(sets, lost.plan, lost.stop);
      SejongNeverTwoActive(sets, lost.plan, lost.stop);
    }
    RunsNeverActivateAnother(Exit(sets, lost), attempts, owner);
  }
}
