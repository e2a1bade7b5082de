/**
 * The "one active match set" slot, borrowed and given back by the two live runbooks.
 *
 * A database transaction is a list of statements; the partial unique index on `state = 'active'` is checked after
 * every statement and rolls the transaction back when it is broken. A runbook is a list of actions that may be cut
 * short after any of them, followed by its `finally` block.
 */
module MatchSetSlot {
  import opened Sequences

  datatype State = Draft | Validated | Active | Retired | Invalid | Revalidatable | RestoredFromBackup

  datatype MatchSet = MatchSet(name: string, state: State, hash: Option<string>)

  type Sets = map<string, MatchSet>

  predicate IsActive(sets: Sets, id: string) {
    id in sets && sets[id].state == Active
  }

  predicate AtMostOneActive(sets: Sets) {
    forall a, b :: a in sets && b in sets && sets[a].state == Active && sets[b].state == Active ==> a == b
  }

  // ---- statements and transactions ----

  datatype Statement =
    | Insert(id: string, name: string)
    | SetValidated(id: string, hash: string)
    | SetState(id: string, onlyFrom: Option<State>, to: State)
    | DeleteNamed(name: string)

  function Exec(sets: Sets, s: Statement): Sets {
    match s
    case Insert(id, name) => sets[id := MatchSet(name, Draft, None)]
    case SetValidated(id, hash) =>
      if id in sets then sets[id := MatchSet(sets[id].name, Validated, Some(hash))] else sets
    case SetState(id, onlyFrom, to) =>
      if id in sets && (onlyFrom.None? || sets[id].state == onlyFrom.value) then sets[id := sets[id].(state := to)]
      else sets
    case DeleteNamed(name) => map id | id in sets && sets[id].name != name :: sets[id]
  }

  /** `None`: a statement broke the unique index, the transaction was rolled back and an error was raised. */
  function RunTransaction(sets: Sets, statements: seq<Statement>): Option<Sets>
    decreases |statements|
  {
    if statements == [] then Some(sets)
    else
      var next := Exec(sets, statements[0]);
      if AtMostOneActive(next) then RunTransaction(next, statements[1..]) else None
  }

  /** The decision of `decide_activate`: only a validated set with an unchanged hash, and the current one is retired
      first. `None` is a refusal. */
  function ActivationSteps(sets: Sets, id: string, recomputed: Option<string>,
                           current: Option<string>): Option<seq<Statement>>
  {
    if id !in sets || sets[id].state != Validated then None
    else if recomputed.None? || sets[id].hash.None? then None
    else if recomputed != sets[id].hash then None
    else if current == Some(id) then None
    else Some((if current.Some? then [SetState(current.value, None, Retired)] else []) + [SetState(id, None, Active)])
  }

  /** The restore of the live runbook: retire the borrowed set if it is active, then re-activate the prior one if it is
      retired. */
  function RestoreSteps(prior: string, activated: string): seq<Statement> {
    [SetState(activated, Some(Active), Retired), SetState(prior, Some(Retired), Active)]
  }

  /** The cleanup of the Sejong runbook, which deletes its own sets before it gives the slot back. */
  function CleanupSteps(name: string, restore: Option<string>): seq<Statement> {
    [DeleteNamed(name)] + if restore.Some? then [SetState(restore.value, Some(Retired), Active)] else []
  }

  lemma {:induction false} TransactionsKeepTheIndex(sets: Sets, statements: seq<Statement>)
    requires AtMostOneActive(sets)
    ensures RunTransaction(sets, statements).Some? ==> AtMostOneActive(RunTransaction(sets, statements).value)
    decreases |statements|
  {
    if statements != [] && AtMostOneActive(Exec(sets, statements[0])) {
      TransactionsKeepTheIndex(Exec(sets, statements[0]), statements[1..]);
    }
  }

  function ExecAll(sets: Sets, statements: seq<Statement>): Sets
    decreases |statements|
  {
    if statements == [] then sets else ExecAll(Exec(sets, statements[0]), statements[1..])
  }

  /** Two different sets are active. */
  ghost predicate Clash(sets: Sets) {
    exists a, b :: a in sets && b in sets && a != b && sets[a].state == Active && sets[b].state == Active
  }

  /** A transaction commits exactly when after none of its statements two different sets are active, and then it has
      carried out all of them. */
  lemma {:induction false} CommitsIff(sets: Sets, statements: seq<Statement>)
    ensures RunTransaction(sets, statements).Some? <==>
      forall n :: 0 < n <= |statements| ==> !Clash(ExecAll(sets, statements[..n]))
    ensures RunTransaction(sets, statements).Some? ==>
      RunTransaction(sets, statements).value == ExecAll(sets, statements)
    decreases |statements|
  {
    if statements != [] {
      var next := Exec(sets, statements[0]);
      var rest := statements[1..];
      CommitsIff(next, rest);
      forall n | 0 < n <= |statements|
        ensures ExecAll(sets, statements[..n]) == ExecAll(next, rest[..n - 1])
      {
        assert statements[..n][1..] == rest[..n - 1];
      }
      assert rest[..0] == [];
      assert AtMostOneActive(next) <==> !Clash(ExecAll(sets, statements[..1]));
      if RunTransaction(sets, statements).None? && AtMostOneActive(next) {
        var n :| 0 < n <= |rest| && Clash(ExecAll(next, rest[..n]));
        assert Clash(ExecAll(sets, statements[..n + 1]));
      }
      if RunTransaction(sets, statements).Some? {
        forall n | 0 < n <= |statements| ensures !Clash(ExecAll(sets, statements[..n])) {
          assert n > 1 ==> !Clash(ExecAll(next, rest[..n - 1]));
        }
      }
    }
  }

  lemma Committed(sets: Sets, s: Statement)
    requires AtMostOneActive(Exec(sets, s))
    ensures RunTransaction(sets, [s]) == Some(Exec(sets, s))
  {
    assert [s][1..] == [];
  }

  lemma BothCommitted(sets: Sets, a: Statement, b: Statement)
    requires AtMostOneActive(Exec(sets, a)) && AtMostOneActive(Exec(Exec(sets, a), b))
    ensures RunTransaction(sets, [a, b]) == Some(Exec(Exec(sets, a), b))
  {
    Committed(Exec(sets, a), b);
    assert [a, b][1..] == [b];
  }

  // ---- activation ----

  ghost predicate IsCurrent(sets: Sets, current: Option<string>) {
    match current
    case Some(id) => IsActive(sets, id)
    case None => forall id :: id in sets ==> sets[id].state != Active
  }

  /** The sets after the swap: the current one retired, the target active, nothing else touched. */
  function Swapped(sets: Sets, id: string, current: Option<string>): Sets
    requires id in sets && (current.Some? ==> current.value in sets)
  {
    (if current.Some? then sets[current.value := sets[current.value].(state := Retired)] else sets)
      [id := sets[id].(state := Active)]
  }

  /** Retiring before activating never meets the index: an accepted activation always commits, and swaps the slot. */
  lemma ActivationCommits(sets: Sets, id: string, recomputed: Option<string>, current: Option<string>)
    requires AtMostOneActive(sets) && IsCurrent(sets, current)
    requires ActivationSteps(sets, id, recomputed, current).Some?
    ensures RunTransaction(sets, ActivationSteps(sets, id, recomputed, current).value)
         == Some(Swapped(sets, id, current))
    ensures AtMostOneActive(Swapped(sets, id, current)) && IsActive(Swapped(sets, id, current), id)
  {
    var steps := ActivationSteps(sets, id, recomputed, current).value;
    var activate := SetState(id, None, Active);
    if current.Some? {
      var retire := SetState(current.value, None, Retired);
      assert steps == [retire, activate];
      assert forall x :: x in Exec(sets, retire) ==> Exec(sets, retire)[x].state != Active;
      assert Exec(Exec(sets, retire), activate) == Swapped(sets, id, current);
      BothCommitted(sets, retire, activate);
    } else {
      assert steps == [activate];
      Committed(sets, activate);
    }
  }

  /** In the other order the index would refuse the swap. */
  lemma ActivatingFirstWouldFail(sets: Sets, id: string, current: string)
    requires id in sets && IsActive(sets, current) && id != current
    ensures RunTransaction(sets, [SetState(id, None, Active), SetState(current, None, Retired)]) == None
  {
    var next := Exec(sets, SetState(id, None, Active));
    assert next[id].state == Active && next[current].state == Active;
  }

  // ---- the registry, updated in place ----

  class Registry {
    var sets: Sets

    constructor (sets: Sets)
      ensures this.sets == sets
    {
      this.sets := sets;
    }

    /** `begin ... commit`: statement after statement, rolled back when one of them breaks the index. */
    method Transact(statements: seq<Statement>) returns (committed: bool)
      modifies this
      ensures committed == RunTransaction(old(sets), statements).Some?
      ensures sets == if committed then RunTransaction(old(sets), statements).value else old(sets)
    {
      var before := sets;
      for i := 0 to |statements|
        invariant RunTransaction(sets, statements[i..]) == RunTransaction(old(sets), statements)
        invariant before == old(sets)
      {
        assert statements[i..][1..] == statements[i + 1..];
        sets := Exec(sets, statements[i]);
        if !AtMostOneActive(sets) {
          sets := before;
          return false;
        }
      }
      return true;
    }

    method CurrentActive(excluded: Option<string>) returns (current: Option<string>)
      ensures current.Some? ==> IsActive(sets, current.value) && Some(sets[current.value].name) != excluded
      ensures current.None? ==> forall id :: IsActive(sets, id) ==> Some(sets[id].name) == excluded
    {
      var todo := sets.Keys;
      while todo != {}
        invariant todo <= sets.Keys
        invariant forall id :: IsActive(sets, id) && id !in todo ==> Some(sets[id].name) == excluded
        decreases |todo|
      {
        var id :| id in todo;
        if sets[id].state == Active && Some(sets[id].name) != excluded {
          return Some(id);
        }
        todo := todo - {id};
      }
      return None;
    }

    method ActivateMatchSet(id: string, recomputed: Option<string>) returns (activated: bool, retired: Option<string>)
      requires AtMostOneActive(sets)
      modifies this
      ensures IsCurrent(old(sets), retired)
      ensures activated <==>
        && id in old(sets) && old(sets)[id].state == Validated
        && recomputed.Some? && recomputed == old(sets)[id].hash
      ensures sets == if activated then Swapped(old(sets), id, retired) else old(sets)
    {
      retired := CurrentActive(None);
      var steps := ActivationSteps(sets, id, recomputed, retired);
      if steps.None? {
        return false, retired;
      }
      ActivationCommits(sets, id, recomputed, retired);
      activated := Transact(steps.value);
    }
  }

  // ---- the runbooks ----

  datatype Action =
    | Quiet
    | CleanOwn(name: string)
    | ReadPrior(excluded: Option<string>)
    | Create(id: string, name: string)
    | Validate(id: string, passes: bool, hash: string)
    | Activate(id: string, recomputed: Option<string>)
    | Remember
    | GiveBack
    | Close

  /** The database and the local variables of `run`: what was found active, whether the activation is known to the
      `finally` block, and whether the slot is known to be given back. */
  datatype World = World(sets: Sets, prior: Option<string>, remembered: bool, closed: bool)

  datatype Runbook = Live(id: string) | Sejong(name: string)

  function GiveBackSteps(book: Runbook, prior: Option<string>): seq<Statement> {
    match book
    case Live(id) => if prior.None? then [] else RestoreSteps(prior.value, id)
    case Sejong(name) => CleanupSteps(name, prior)
  }

  ghost function Current(sets: Sets, excluded: Option<string>): (current: Option<string>)
    ensures current.Some? ==> IsActive(sets, current.value) && Some(sets[current.value].name) != excluded
    ensures current.None? ==> forall id :: IsActive(sets, id) ==> Some(sets[id].name) == excluded
  {
    if exists id :: IsActive(sets, id) && Some(sets[id].name) != excluded then
      var id :| IsActive(sets, id) && Some(sets[id].name) != excluded;
      Some(id)
    else None
  }

  function Commit(w: World, statements: seq<Statement>): Option<World> {
    var sets := RunTransaction(w.sets, statements);
    if sets.None? then None else Some(w.(sets := sets.value))
  }

  /** One action; `None` when it raises, and then it has changed nothing. */
  ghost function Act(book: Runbook, w: World, a: Action): Option<World> {
    match a
    case Quiet => Some(w)
    case CleanOwn(name) => Commit(w, CleanupSteps(name, None))
    case ReadPrior(excluded) => Some(w.(prior := Current(w.sets, excluded)))
    case Create(id, name) => if id in w.sets then None else Commit(w, [Insert(id, name)])
    case Validate(id, passes, hash) =>
      if passes && id in w.sets && w.sets[id].state == Draft then Commit(w, [SetValidated(id, hash)]) else None
    case Activate(id, recomputed) =>
      var steps := ActivationSteps(w.sets, id, recomputed, Current(w.sets, None));
      if steps.None? then None else Commit(w, steps.value)
    case Remember => Some(w.(remembered := true))
    case GiveBack => Commit(w, GiveBackSteps(book, w.prior))
    case Close => Some(w.(closed := true))
  }

  /** How far a run gets when it is cut short after at most `stop` actions or by an action that raises. */
  ghost function Run(book: Runbook, w: World, actions: seq<Action>, stop: nat): (World, nat)
    decreases |actions|
  {
    if actions == [] || stop == 0 then (w, 0)
    else
      match Act(book, w, actions[0])
      case None => (w, 0)
      case Some(w') => var (last, n) := Run(book, w', actions[1..], stop - 1); (last, n + 1)
  }

  function Later(rest: (World, nat), done: nat): (World, nat) { (rest.0, done + rest.1) }

  /** When an action raises: on an id that is taken, on a set that fails its validation or is no draft, and on the
      activation of a set that is not validated or whose hash has changed. */
  lemma ActionRaisesIff(book: Runbook, w: World, a: Action)
    requires AtMostOneActive(w.sets)
    ensures a.Create? ==> (Act(book, w, a).None? <==> a.id in w.sets)
    ensures a.Validate? ==>
      (Act(book, w, a).None? <==> !a.passes || a.id !in w.sets || w.sets[a.id].state != Draft)
    ensures a.Activate? ==>
      (Act(book, w, a).Some? <==>
       a.id in w.sets && w.sets[a.id].state == Validated && a.recomputed.Some? && a.recomputed == w.sets[a.id].hash)
    ensures a.Quiet? || a.ReadPrior? || a.Remember? || a.Close? || a.CleanOwn? ==> Act(book, w, a).Some?
  {
    match a {
      case Create(id, name) =>
        if id !in w.sets {
          Committed(w.sets, Insert(id, name));
        }
      case Validate(id, passes, hash) =>
        if passes && id in w.sets && w.sets[id].state == Draft {
          Committed(w.sets, SetValidated(id, hash));
        }
      case Activate(id, recomputed) =>
        if ActivationSteps(w.sets, id, recomputed, Current(w.sets, None)).Some? {
          ActivationCommits(w.sets, id, recomputed, Current(w.sets, None));
        }
      case CleanOwn(name) => Committed(w.sets, DeleteNamed(name));
      case _ =>
    }
  }

  function Reached(stop: nat, reach: nat): nat { if stop < reach then stop else reach }

  /** If the first `reach` actions take each world of a track to the next and the one after them raises, a run that may
      do `stop` actions does as many of the `reach` as it may. */
  lemma {:induction false} RunStaysOnTrack(book: Runbook, actions: seq<Action>, track: seq<World>, reach: nat,
                                           stop: nat)
    requires |track| == |actions| + 1 && reach <= |actions|
    requires forall k :: 0 <= k < reach ==> Act(book, track[k], actions[k]) == Some(track[k + 1])
    requires reach < |actions| ==> Act(book, track[reach], actions[reach]).None?
    ensures Run(book, track[0], actions, stop) == (track[Reached(stop, reach)], Reached(stop, reach))
    decreases |actions|
  {
    if reach > 0 && stop > 0 {
      RunStaysOnTrack(book, actions[1..], track[1..], reach - 1, stop - 1);
    }
  }

  /** The `finally` block; an error of its own is only reported. */
  ghost function Finally(book: Runbook, w: World, keepNew: bool): Sets {
    if w.remembered && w.prior.Some? && !keepNew && !w.closed then
      var sets := RunTransaction(w.sets, GiveBackSteps(book, w.prior));
      if sets.None? then w.sets else sets.value
    else w.sets
  }

  function Start(sets: Sets): World { World(sets, None, false, false) }

  lemma CurrentIs(sets: Sets, excluded: Option<string>, found: Option<string>)
    requires AtMostOneActive(sets)
    requires found.Some? ==> IsActive(sets, found.value) && Some(sets[found.value].name) != excluded
    requires found.None? ==> forall id :: IsActive(sets, id) ==> Some(sets[id].name) == excluded
    ensures found == Current(sets, excluded)
  {
  }

  /** One call of a runbook's `run`: the registry it writes and its local variables. */
  class Runner {
    const registry: Registry
    var prior: Option<string>
    var remembered: bool
    var closed: bool

    constructor (registry: Registry)
      ensures this.registry == registry && prior == None && !remembered && !closed
    {
      this.registry := registry;
      prior, remembered, closed := None, false, false;
    }

    ghost function Now(): World
      reads this, registry
    {
      World(registry.sets, prior, remembered, closed)
    }

    method Perform(book: Runbook, a: Action) returns (raised: bool)
      requires AtMostOneActive(registry.sets)
      modifies this, registry
      ensures raised == Act(book, old(Now()), a).None?
      ensures Now() == if raised then old(Now()) else Act(book, old(Now()), a).value
      ensures AtMostOneActive(registry.sets)
    {
      raised := false;
      match a {
        case Quiet =>
        case CleanOwn(name) =>
          TransactionsKeepTheIndex(registry.sets, CleanupSteps(name, None));
          var ok := registry.Transact(CleanupSteps(name, None));
          raised := !ok;
        case ReadPrior(excluded) =>
          prior := registry.CurrentActive(excluded);
          CurrentIs(registry.sets, excluded, prior);
        case Create(id, name) =>
          if id in registry.sets {
            return true;
          }
          TransactionsKeepTheIndex(registry.sets, [Insert(id, name)]);
          var ok := registry.Transact([Insert(id, name)]);
          raised := !ok;
        case Validate(id, passes, hash) =>
          if !passes || id !in registry.sets || registry.sets[id].state != Draft {
            return true;
          }
          TransactionsKeepTheIndex(registry.sets, [SetValidated(id, hash)]);
          var ok := registry.Transact([SetValidated(id, hash)]);
          raised := !ok;
        case Activate(id, recomputed) =>
          ghost var before := registry.sets;
          var ok, retired := registry.ActivateMatchSet(id, recomputed);
          CurrentIs(before, None, retired);
          if ok {
            ActivationCommits(before, id, recomputed, retired);
          }
          raised := !ok;
        case Remember => remembered := true;
        case GiveBack =>
          TransactionsKeepTheIndex(registry.sets, GiveBackSteps(book, prior));
          var ok := registry.Transact(GiveBackSteps(book, prior));
          raised := !ok;
        case Close => closed := true;
      }
    }

    /** `try` the actions, at most `stop` of them, `finally` give the slot back if it is still borrowed. */
    method RunToExit(book: Runbook, actions: seq<Action>, stop: nat, keepNew: bool) returns (done: nat)
      requires AtMostOneActive(registry.sets)
      modifies this, registry
      ensures done == Run(book, old(Now()), actions, stop).1
      ensures registry.sets == Finally(book, Run(book, old(Now()), actions, stop).0, keepNew)
    {
      done := 0;
      var raised := false;
      ghost var target := Run(book, Now(), actions, stop);
      while done < |actions| && done < stop && !raised
        invariant done <= |actions| && done <= stop
        invariant AtMostOneActive(registry.sets)
        invariant !raised ==> target == Later(Run(book, Now(), actions[done..], stop - done), done)
        invariant raised ==> target == (Now(), done)
        decreases |actions| - done, !raised
      {
        assert actions[done..][1..] == actions[done + 1..];
        raised := Perform(book, actions[done]);
        if !raised {
          done := done + 1;
        }
      }
      if remembered && prior.Some? && !keepNew && !closed {
        var _ := registry.Transact(GiveBackSteps(book, prior));
      }
    }
  }

  // ---- what both runbooks do to the registry ----

  /** The new match set of a run: its id and name, whether its validation passes, the hash that validation stores and
      the one recomputed at activation; and whether the run is asked to leave the new set active. */
  datatype Plan = Plan(id: string, name: string, passes: bool, hash: string, recomputed: Option<string>, keepNew: bool)

  /** Only a set that validates, and whose hash is then recomputed as it was stored, is activated. */
  predicate Activates(plan: Plan) { plan.passes && plan.recomputed == Some(plan.hash) }

  function Drafted(sets: Sets, plan: Plan): Sets { sets[plan.id := MatchSet(plan.name, Draft, None)] }

  function Checked(sets: Sets, plan: Plan): Sets { sets[plan.id := MatchSet(plan.name, Validated, Some(plan.hash))] }

  /** The new set has the slot; the set that had it is retired. */
  function Borrowed(sets: Sets, prior: Option<string>, plan: Plan): Sets
    requires prior.Some? ==> prior.value in sets
  {
    (if prior.Some? then sets[prior.value := sets[prior.value].(state := Retired)] else sets)
      [plan.id := MatchSet(plan.name, Active, Some(plan.hash))]
  }

  lemma CurrentIsUnique(sets: Sets, a: Option<string>, b: Option<string>)
    requires AtMostOneActive(sets) && IsCurrent(sets, a) && IsCurrent(sets, b)
    ensures a == b
  {
  }

  lemma DraftIsValidated(sets: Sets, plan: Plan)
    requires AtMostOneActive(sets) && plan.id !in sets
    ensures RunTransaction(sets, [Insert(plan.id, plan.name)]) == Some(Drafted(sets, plan))
    ensures RunTransaction(Drafted(sets, plan), [SetValidated(plan.id, plan.hash)]) == Some(Checked(sets, plan))
  {
    Committed(sets, Insert(plan.id, plan.name));
    assert Exec(Drafted(sets, plan), SetValidated(plan.id, plan.hash)) == Checked(sets, plan);
    Committed(Drafted(sets, plan), SetValidated(plan.id, plan.hash));
  }

  lemma ActivationBorrows(sets: Sets, prior: Option<string>, plan: Plan)
    requires AtMostOneActive(sets) && plan.id !in sets && IsCurrent(sets, prior)
    ensures var checked := Checked(sets, plan);
      var steps := ActivationSteps(checked, plan.id, plan.recomputed, Current(checked, None));
      && (steps.Some? <==> plan.recomputed == Some(plan.hash))
      && (steps.Some? ==> RunTransaction(Checked(sets, plan), steps.value) == Some(Borrowed(sets, prior, plan)))
  {
    var checked := Checked(sets, plan);
    assert IsCurrent(checked, prior);
    CurrentIsUnique(checked, Current(checked, None), prior);
    if ActivationSteps(checked, plan.id, plan.recomputed, prior).Some? {
      ActivationCommits(checked, plan.id, plan.recomputed, prior);
      assert Swapped(checked, plan.id, prior) == Borrowed(sets, prior, plan);
    }
  }
}
