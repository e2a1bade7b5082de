/**
 * Marker-guarded extraction of archives: a directory is trusted once it holds `.ktg-materialized-ok`.
 *
 * The disk stops after an arbitrary number of file-system steps, so every method may return having done any part of
 * its work; a file that was being written is then left with any prefix of its contents.
 */
module Materialize {

  const MARKER := ".ktg-materialized-ok"

  type Dir = map<string, string>

  datatype Member = Member(name: string, content: string)

  /** An input: where it is extracted, what it holds and the text written into its marker. */
  datatype Archive = Archive(target: string, present: bool, members: seq<Member>, markerText: string)

  function Names(members: seq<Member>): set<string> {
    set m | m in members :: m.name
  }

  /** A directory after the members were written into it in order; a later member of the same name wins. */
  function Filled(d: Dir, members: seq<Member>): Dir {
    if members == [] then d
    else Filled(d, members[..|members| - 1])[members[|members| - 1].name := members[|members| - 1].content]
  }

  function Expected(members: seq<Member>): Dir { Filled(map[], members) }

  /** Exactly the members, whatever the marker file holds. */
  ghost predicate Whole(d: Dir, members: seq<Member>) {
    d - {MARKER} == Expected(members) - {MARKER}
  }

  ghost predicate Marked(dirs: map<string, Dir>, target: string) {
    target in dirs && MARKER in dirs[target]
  }

  /** What a marker promises. */
  ghost predicate Trustworthy(dirs: map<string, Dir>, a: Archive) {
    Marked(dirs, a.target) ==> Whole(dirs[a.target], a.members)
  }

  /** Nothing but members and the marker is in the directory. */
  ghost predicate NothingElse(dirs: map<string, Dir>, a: Archive) {
    a.target in dirs ==> dirs[a.target].Keys <= Names(a.members) + {MARKER}
  }

  ghost predicate OnlyChanged(before: map<string, Dir>, after: map<string, Dir>, target: string) {
    before - {target} == after - {target}
  }

  lemma Replaced(before: map<string, Dir>, target: string)
    ensures (before - {target})[target := map[]] == before[target := map[]]
    ensures OnlyChanged(before, before - {target}, target) && OnlyChanged(before, before[target := map[]], target)
  {
  }

  lemma WrittenIsChanged(before: map<string, Dir>, after: map<string, Dir>, target: string)
    requires OnlyWritten(before, after, target)
    ensures OnlyChanged(before, after, target)
  {
  }

  ghost predicate OnlyWritten(before: map<string, Dir>, after: map<string, Dir>, target: string) {
    target in after && after == before[target := after[target]]
  }

  // ---- what filling a directory gives ----

  lemma {:induction false} FilledIsUnion(d: Dir, members: seq<Member>)
    ensures Filled(d, members) == d + Expected(members)
  {
    if members != [] {
      FilledIsUnion(d, members[..|members| - 1]);
    }
  }

  lemma {:induction false} ExpectedNames(members: seq<Member>)
    ensures Expected(members).Keys == Names(members)
  {
    if members != [] {
      var n := |members| - 1;
      ExpectedNames(members[..n]);
      assert members == members[..n] + [members[n]];
      assert Names(members) == Names(members[..n]) + {members[n].name};
    }
  }

  /** Filling over what is already there gives exactly the members iff nothing else was there. */
  lemma FillingOverIsExactIff(d: Dir, members: seq<Member>)
    ensures Filled(d, members) == Expected(members) <==> d.Keys <= Names(members)
  {
    FilledIsUnion(d, members);
    ExpectedNames(members);
    if Filled(d, members) == Expected(members) {
      assert d.Keys <= (d + Expected(members)).Keys;
    }
  }

  lemma {:induction false} FilledAfterFirst(d: Dir, first: Member, rest: seq<Member>)
    ensures Filled(d, [first] + rest) == Filled(d[first.name := first.content], rest)
  {
    var all := [first] + rest;
    if rest == [] {
      assert all[..0] == [];
    } else {
      FilledAfterFirst(d, first, rest[..|rest| - 1]);
      assert all[..|all| - 1] == [first] + rest[..|rest| - 1];
    }
  }

  // ---- what an interrupted extraction leaves ----

  /** How much of a file that is cut off reaches the disk. */
  function CutOff(content: string, torn: nat): string { if torn <= |content| then content[..torn] else content }

  /** Each member takes two steps: opening its file, which truncates it, and writing it. */
  function StoppedAt(d: Dir, members: seq<Member>, steps: nat, torn: nat): Dir
    decreases |members|
  {
    if members == [] || steps == 0 then d
    else if steps == 1 then d[members[0].name := CutOff(members[0].content, torn)]
    else StoppedAt(d[members[0].name := members[0].content], members[1..], steps - 2, torn)
  }

  lemma {:induction false} StoppedBetween(d: Dir, members: seq<Member>, k: nat, torn: nat)
    requires k <= |members|
    ensures StoppedAt(d, members, 2 * k, torn) == Filled(d, members[..k])
    decreases k
  {
    if k > 0 {
      StoppedBetween(d[members[0].name := members[0].content], members[1..], k - 1, torn);
      FilledAfterFirst(d, members[0], members[1..][..k - 1]);
      assert members[..k] == [members[0]] + members[1..][..k - 1];
    } else {
      assert members[..0] == [];
    }
  }

  lemma {:induction false} StoppedWithin(d: Dir, members: seq<Member>, k: nat, torn: nat)
    requires k < |members|
    ensures StoppedAt(d, members, 2 * k + 1, torn)
         == Filled(d, members[..k])[members[k].name := CutOff(members[k].content, torn)]
    decreases k
  {
    if k > 0 {
      StoppedWithin(d[members[0].name := members[0].content], members[1..], k - 1, torn);
      FilledAfterFirst(d, members[0], members[1..][..k - 1]);
      assert members[..k] == [members[0]] + members[1..][..k - 1];
    } else {
      assert members[..0] == [];
    }
  }

  lemma {:induction false} StoppedLate(d: Dir, members: seq<Member>, steps: nat, torn: nat)
    requires steps >= 2 * |members|
    ensures StoppedAt(d, members, steps, torn) == Filled(d, members)
    decreases |members|
  {
    if members != [] {
      StoppedLate(d[members[0].name := members[0].content], members[1..], steps - 2, torn);
      FilledAfterFirst(d, members[0], members[1..]);
      assert members == [members[0]] + members[1..];
    }
  }

  // ---- when a marker can be believed, although members may carry its name ----

  /** Writing the member changes nothing at any moment: it is empty, and an empty file of its name is there already. */
  predicate Unchanging(d: Dir, m: Member) { m.content == "" && m.name in d && d[m.name] == "" }

  /** What the listing of an archive must say: behind a member with the marker's name come only members of that name,
      and empty ones that repeat an empty member before it. */
  predicate MarkerIsSafe(members: seq<Member>) {
    forall j, k :: 0 <= j < k < |members| && members[j].name == MARKER && members[k].name != MARKER ==>
      Unchanging(Expected(members[..j]), members[k])
  }

  /** With a safe listing, nothing changes outside the marker from the first member of its name on. */
  lemma {:induction false} NothingChangesBehind(members: seq<Member>, j: nat, n: nat)
    requires MarkerIsSafe(members) && j < |members| && j <= n <= |members| && members[j].name == MARKER
    ensures Expected(members[..n]) - {MARKER} == Expected(members[..j]) - {MARKER}
    decreases n
  {
    if n > j {
      NothingChangesBehind(members, j, n - 1);
      assert members[..n][..n - 1] == members[..n - 1];
      var m, before := members[n - 1], Expected(members[..n - 1]);
      if m.name != MARKER {
        assert Unchanging(Expected(members[..j]), m);
        assert m.name in before - {MARKER} && (before - {MARKER})[m.name] == "";
      }
    }
  }

  lemma FirstOfTheName(members: seq<Member>, n: nat) returns (j: nat)
    requires n <= |members| && MARKER in Expected(members[..n])
    ensures j < n && members[j].name == MARKER
  {
    ExpectedNames(members[..n]);
    var m :| m in members[..n] && m.name == MARKER;
    j :| 0 <= j < n && members[..n][j] == m;
  }

  lemma KeysOutsideTheMarker(d: Dir, members: seq<Member>, e: Dir)
    requires d.Keys <= Names(members) && e - {MARKER} == Expected(members) - {MARKER}
    ensures (d + e) - {MARKER} == Expected(members) - {MARKER}
  {
    ExpectedNames(members);
    forall name | name in d && name != MARKER ensures name in e {
      assert name in Expected(members) - {MARKER};
    }
  }

  /** With a safe listing every interruption, over any directory without other files, keeps the marker's promise. */
  lemma SafeStops(d: Dir, members: seq<Member>, steps: nat, torn: nat)
    requires MarkerIsSafe(members) && d.Keys <= Names(members) && MARKER !in d
    ensures MARKER in StoppedAt(d, members, steps, torn) ==> Whole(StoppedAt(d, members, steps, torn), members)
  {
    if steps >= 2 * |members| {
      StoppedLate(d, members, steps, torn);
      FillingOverIsExactIff(d, members);
    } else {
      var k := steps / 2;
      FilledIsUnion(d, members[..k]);
      if steps == 2 * k {
        StoppedBetween(d, members, k, torn);
        SafeBetween(d, members, k);
      } else {
        StoppedWithin(d, members, k, torn);
        SafeWithin(d, members, k, torn);
      }
    }
  }

  lemma SafeBetween(d: Dir, members: seq<Member>, k: nat)
    requires MarkerIsSafe(members) && d.Keys <= Names(members) && MARKER !in d && k <= |members|
    ensures MARKER in Filled(d, members[..k]) ==> Whole(Filled(d, members[..k]), members)
  {
    var e := Expected(members[..k]);
    FilledIsUnion(d, members[..k]);
    if MARKER in e {
      var j := FirstOfTheName(members, k);
      NothingChangesBehind(members, j, k);
      NothingChangesBehind(members, j, |members|);
      assert members[..|members|] == members;
      KeysOutsideTheMarker(d, members, e);
    }
  }

  lemma SafeWithin(d: Dir, members: seq<Member>, k: nat, torn: nat)
    requires MarkerIsSafe(members) && d.Keys <= Names(members) && MARKER !in d && k < |members|
    ensures var stopped := Filled(d, members[..k])[members[k].name := CutOff(members[k].content, torn)];
      MARKER in stopped ==> Whole(stopped, members)
  {
    var e, m := Expected(members[..k]), members[k];
    var stopped := Filled(d, members[..k])[m.name := CutOff(m.content, torn)];
    FilledIsUnion(d, members[..k]);
    if MARKER in e {
      var j := FirstOfTheName(members, k);
      SafeBetween(d, members, k);
      if m.name != MARKER {
        NothingChangesBehind(members, j, k);
        assert m.name in e - {MARKER} && (e - {MARKER})[m.name] == "";
        assert stopped == Filled(d, members[..k]);
      } else {
        assert stopped - {MARKER} == Filled(d, members[..k]) - {MARKER};
      }
    } else if m.name == MARKER {
      NothingChangesBehind(members, k, |members|);
      assert members[..|members|] == members;
      KeysOutsideTheMarker(d, members, e);
      assert stopped - {MARKER} == Filled(d, members[..k]) - {MARKER};
    }
  }

  lemma MarkerIsThere(members: seq<Member>, j: nat, k: nat)
    requires j < k <= |members| && members[j].name == MARKER
    ensures MARKER in Expected(members[..k])
  {
    ExpectedNames(members[..k]);
    assert members[j] in members[..k];
  }

  lemma StopAtTheMarker(members: seq<Member>, j: nat)
    requires j < |members| && members[j].name == MARKER
    requires Expected(members[..j]) - {MARKER} != Expected(members) - {MARKER}
    ensures var d := StoppedAt(map[], members, 2 * j + 1, 0); MARKER in d && !Whole(d, members)
  {
    StoppedWithin(map[], members, j, 0);
    var d := StoppedAt(map[], members, 2 * j + 1, 0);
    assert d - {MARKER} == Expected(members[..j]) - {MARKER};
  }

  lemma StopAtAnOpenFile(members: seq<Member>, j: nat, k: nat)
    requires j < k < |members| && members[j].name == MARKER && members[k].name != MARKER
    requires members[k].name in Expected(members) ==> Expected(members)[members[k].name] != ""
    ensures var d := StoppedAt(map[], members, 2 * k + 1, 0); MARKER in d && !Whole(d, members)
  {
    StoppedWithin(map[], members, k, 0);
    MarkerIsThere(members, j, k);
    var d, name := StoppedAt(map[], members, 2 * k + 1, 0), members[k].name;
    assert name in d - {MARKER} && (d - {MARKER})[name] == "";
    assert name in Expected(members) - {MARKER} ==> (Expected(members) - {MARKER})[name] != "";
  }

  lemma StopAtAClosedFile(members: seq<Member>, j: nat, k: nat)
    requires j < k < |members| && members[j].name == MARKER && members[k].name != MARKER && members[k].content != ""
    requires members[k].name in Expected(members) && Expected(members)[members[k].name] == ""
    ensures var d := StoppedAt(map[], members, 2 * (k + 1), 0); MARKER in d && !Whole(d, members)
  {
    var d, name := Expected(members[..k + 1]), members[k].name;
    assert StoppedAt(map[], members, 2 * (k + 1), 0) == d by { StoppedBetween(map[], members, k + 1, 0); }
    assert MARKER in d by { MarkerIsThere(members, j, k + 1); }
    assert name in d && d[name] == members[k].content by { assert members[..k + 1][..k] == members[..k]; }
    ContentsDiffer(d, members, name);
  }

  lemma ContentsDiffer(d: Dir, members: seq<Member>, name: string)
    requires name != MARKER && name in d && name in Expected(members) && d[name] != Expected(members)[name]
    ensures !Whole(d, members)
  {
    assert name in d - {MARKER} && (d - {MARKER})[name] == d[name];
    assert (Expected(members) - {MARKER})[name] == Expected(members)[name];
  }

  /** An unsafe listing is betrayed by some interruption: right at the member with the marker's name, or at a later
      member that changes something. */
  lemma UnsafeStop(members: seq<Member>) returns (steps: nat)
    requires !MarkerIsSafe(members)
    ensures var d := StoppedAt(map[], members, steps, 0); MARKER in d && !Whole(d, members)
  {
    var j, k :| 0 <= j < k < |members| && members[j].name == MARKER && members[k].name != MARKER
      && !Unchanging(Expected(members[..j]), members[k]);
    var name, before, all := members[k].name, Expected(members[..j]), Expected(members);
    if before - {MARKER} != all - {MARKER} {
      steps := 2 * j + 1;
      StopAtTheMarker(members, j);
    } else if name in all && all[name] == "" {
      steps := 2 * (k + 1);
      assert name in before - {MARKER} && (before - {MARKER})[name] == "" by { assert name in all - {MARKER}; }
      StopAtAClosedFile(members, j, k);
    } else {
      steps := 2 * k + 1;
      StopAtAnOpenFile(members, j, k);
    }
  }

  /** Extraction into an empty directory keeps the marker's promise at every interruption exactly when the listing is
      safe. */
  lemma MarkerTellsTheTruthIff(members: seq<Member>)
    ensures (forall steps, torn :: MARKER in StoppedAt(map[], members, steps, torn) ==>
              Whole(StoppedAt(map[], members, steps, torn), members))
      <==> MarkerIsSafe(members)
  {
    if MarkerIsSafe(members) {
      forall steps, torn | MARKER in StoppedAt(map[], members, steps, torn)
        ensures Whole(StoppedAt(map[], members, steps, torn), members)
      {
        SafeStops(map[], members, steps, torn);
      }
    } else {
      var steps := UnsafeStop(members);
      assert MARKER in StoppedAt(map[], members, steps, 0) && !Whole(StoppedAt(map[], members, steps, 0), members);
    }
  }

  /** An archive in which a new file follows a member with the marker's name: the complete directory is whole, and
      stopped right behind that member the directory is marked and is not. */
  lemma MemberNamedLikeTheMarker(members: seq<Member>, j: nat, k: nat)
    requires j < k < |members| && members[j].name == MARKER != members[k].name
    requires members[k].name !in Names(members[..j])
    ensures var d := StoppedAt(map[], members, 2 * (j + 1), 0); MARKER in d && !Whole(d, members)
    ensures Whole(Expected(members), members) && !MarkerIsSafe(members)
  {
    StoppedBetween(map[], members, j + 1, 0);
    MarkerIsThere(members, j, j + 1);
    LaterIsMissing(members, j, k);
    ExpectedNames(members[..j]);
    assert !Unchanging(Expected(members[..j]), members[k]);
  }

  lemma LaterIsMissing(members: seq<Member>, j: nat, k: nat)
    requires j < k < |members| && members[j].name == MARKER != members[k].name
    requires members[k].name !in Names(members[..j])
    ensures !Whole(Expected(members[..j + 1]), members)
  {
    ExpectedNames(members[..j + 1]);
    ExpectedNames(members);
    assert members[..j + 1] == members[..j] + [members[j]];
    assert members[k] in members;
    assert members[k].name in Expected(members) - {MARKER};
    assert members[k].name !in Expected(members[..j + 1]) - {MARKER};
  }

  /** Adding a marker, whatever of its text arrives, to a complete directory keeps it whole. */
  lemma MarkerSealsIt(d: Dir, members: seq<Member>, text: string)
    requires Whole(d, members)
    ensures Whole(d[MARKER := text], members) && MARKER in d[MARKER := text]
  {
    assert d[MARKER := text] - {MARKER} == d - {MARKER};
  }

  // ---- the text files of a directory ----

  /** What `glob("*.txt")` finds: files of the directory itself, not of its subdirectories. */
  predicate IsText(name: string) { |name| >= 4 && name[|name| - 4..] == ".txt" && '/' !in name }

  function Texts(d: Dir): Dir { map name | name in d && IsText(name) :: d[name] }

  /** The files whose name is something and `.txt`, none of them in a subdirectory, with their contents. */
  lemma TextsAre(d: Dir, name: string)
    ensures name in Texts(d) <==> name in d && '/' !in name && exists stem :: name == stem + ".txt"
    ensures name in Texts(d) ==> Texts(d)[name] == d[name]
  {
    if |name| >= 4 && name[|name| - 4..] == ".txt" {
      assert name == name[..|name| - 4] + ".txt";
    }
    forall stem | name == stem + ".txt" ensures |name| >= 4 && name[|name| - 4..] == ".txt" {
      assert name[|stem|..] == ".txt";
    }
  }

  lemma TextsHaveNoMarker(d: Dir)
    ensures MARKER !in Texts(d) && Texts(d) - {MARKER} == Texts(d)
    ensures Texts(d - {MARKER}) == Texts(d)
  {
    assert MARKER[|MARKER| - 1] == 'k';
    assert !IsText(MARKER);
  }

  /** Exactly the text files of the archive, whatever the marker file holds. */
  ghost predicate Staged(d: Dir, members: seq<Member>) {
    d - {MARKER} == Texts(Expected(members))
  }

  /** What the cache holds once it is used: whatever is there, or else the archive. */
  function Cached(dirs: map<string, Dir>, cache: string, members: seq<Member>): Dir {
    if cache in dirs then dirs[cache] else Expected(members)
  }

  /** There is no cache yet, or its text files are those of the archive. */
  ghost predicate CacheIsGood(dirs: map<string, Dir>, cache: string, members: seq<Member>) {
    cache in dirs ==> Texts(dirs[cache]) == Texts(Expected(members))
  }

  /** A marked staging directory holds exactly the text files of the archive, and the cache is complete and holds the
      same, so that links into the cache and copies of it are alike. */
  ghost predicate StagedFrom(dirs: map<string, Dir>, a: Archive, target: string) {
    Marked(dirs, target) ==>
      && Marked(dirs, a.target)
      && dirs[target] - {MARKER} == Texts(dirs[a.target])
      && Staged(dirs[target], a.members)
  }

  ghost predicate AllStagedFrom(dirs: map<string, Dir>, a: Archive, targets: set<string>) {
    forall t :: t in targets ==> StagedFrom(dirs, a, t)
  }

  lemma ValidationKeepsStagings(before: map<string, Dir>, after: map<string, Dir>, a: Archive, targets: set<string>)
    requires OnlyChanged(before, after, a.target) && (Marked(before, a.target) ==> after == before)
    requires a.target !in targets && AllStagedFrom(before, a, targets)
    ensures AllStagedFrom(after, a, targets)
  {
    forall t | t in targets ensures StagedFrom(after, a, t) {
      assert StagedFrom(before, a, t);
      OtherDirectoryStands(before, after, a.target, t);
    }
  }

  lemma WholeCacheIsGood(dirs: map<string, Dir>, a: Archive)
    requires Marked(dirs, a.target) && Trustworthy(dirs, a)
    ensures CacheIsGood(dirs, a.target, a.members)
  {
    TextsHaveNoMarker(dirs[a.target]);
    TextsHaveNoMarker(Expected(a.members));
  }

  lemma StagingKeepsStagings(before: map<string, Dir>, after: map<string, Dir>, a: Archive, target: string,
                             targets: set<string>)
    requires a.target !in targets && target in targets && AllStagedFrom(before, a, targets) && Marked(before, a.target)
    requires before - {target, a.target} == after - {target, a.target}
    requires a.target in after && after[a.target] == before[a.target]
    requires Marked(before, target) ==> after == before
    requires !Marked(before, target) && Marked(after, target) ==>
      after[target] - {MARKER} == Texts(after[a.target]) && Staged(after[target], a.members)
    ensures AllStagedFrom(after, a, targets)
  {
    forall t | t in targets ensures StagedFrom(after, a, t) {
      assert StagedFrom(before, a, t);
      if t != target {
        assert t in before - {target, a.target} <==> t in after - {target, a.target};
        assert t in before ==> (before - {target, a.target})[t] == (after - {target, a.target})[t];
      }
    }
  }

  // ---- the disk ----

  class Disk {
    var dirs: map<string, Dir>
    /** How many more file-system steps are carried out. */
    var steps: nat
    /** How much of a file that is cut off reaches the disk. */
    var torn: nat

    constructor (dirs: map<string, Dir>)
      ensures this.dirs == dirs
    {
      this.dirs, steps, torn := dirs, 0, 0;
    }

    method Tick() returns (alive: bool)
      modifies `steps
      ensures alive <==> old(steps) > 0
      ensures steps == if alive then old(steps) - 1 else 0
    {
      alive := steps > 0;
      if alive {
        steps := steps - 1;
      }
    }

    method MakeDirectory(target: string) returns (alive: bool)
      modifies `steps, `dirs
      ensures alive <==> old(steps) > 0
      ensures steps == if alive then old(steps) - 1 else 0
      ensures dirs == if alive && target !in old(dirs) then old(dirs)[target := map[]] else old(dirs)
    {
      alive := Tick();
      if alive && target !in dirs {
        dirs := dirs[target := map[]];
      }
    }

    /** Opening truncates the file, then its contents follow. */
    method WriteFile(target: string, name: string, content: string) returns (alive: bool)
      requires target in dirs
      modifies `steps, `dirs
      ensures alive <==> old(steps) >= 2
      ensures steps == if alive then old(steps) - 2 else 0
      ensures dirs == old(dirs)[target := StoppedAt(old(dirs)[target], [Member(name, content)], old(steps), torn)]
    {
      alive := Tick();
      if !alive {
        return;
      }
      alive := Tick();
      dirs := dirs[target := dirs[target][name := if alive then content else CutOff(content, torn)]];
    }

    /** Files go one by one in no particular order, the directory last. */
    method RemoveTree(target: string) returns (alive: bool)
      requires target in dirs
      modifies `steps, `dirs
      ensures alive <==> old(steps) > |old(dirs)[target]|
      ensures steps == if alive then old(steps) - |old(dirs)[target]| - 1 else 0
      ensures alive ==> dirs == old(dirs) - {target}
      ensures !alive ==> OnlyWritten(old(dirs), dirs, target) && dirs[target].Keys <= old(dirs)[target].Keys
    {
      alive := true;
      var left := dirs[target].Keys;
      assert |left| == |old(dirs)[target]|;
      while left != {}
        invariant OnlyWritten(old(dirs), dirs, target)
        invariant left == dirs[target].Keys && left <= old(dirs)[target].Keys
        invariant steps + |old(dirs)[target]| == old(steps) + |left|
        decreases |left|
      {
        alive := Tick();
        if !alive {
          return;
        }
        var name :| name in left;
        left := left - {name};
        dirs := dirs[target := dirs[target] - {name}];
      }
      alive := Tick();
      if alive {
        dirs := dirs - {target};
      }
    }

    method ExtractAll(target: string, members: seq<Member>) returns (alive: bool)
      requires target in dirs
      modifies `steps, `dirs
      ensures alive <==> old(steps) >= 2 * |members|
      ensures steps == if alive then old(steps) - 2 * |members| else 0
      ensures dirs == old(dirs)[target := StoppedAt(old(dirs)[target], members, old(steps), torn)]
      ensures alive ==> dirs[target] == Filled(old(dirs)[target], members)
    {
      alive := true;
      ghost var last := StoppedAt(dirs[target], members, steps, torn);
      for i := 0 to |members|
        invariant alive && steps == old(steps) - 2 * i
        invariant target in dirs && dirs == old(dirs)[target := dirs[target]]
        invariant StoppedAt(dirs[target], members[i..], steps, torn) == last
      {
        assert members[i..][0] == members[i] && members[i..][1..] == members[i + 1..];
        alive := WriteFile(target, members[i].name, members[i].content);
        if !alive {
          return;
        }
      }
      StoppedLate(old(dirs)[target], members, old(steps), torn);
    }

    /** The delete-and-redo variants: an unmarked directory is removed and extracted from scratch. */
    method Materialize(a: Archive) returns (alive: bool)
      requires MarkerIsSafe(a.members) && Trustworthy(dirs, a)
      modifies `steps, `dirs
      ensures OnlyChanged(old(dirs), dirs, a.target) && Trustworthy(dirs, a)
      ensures old(Marked(dirs, a.target)) ==> alive && dirs == old(dirs)
      ensures if alive then Marked(dirs, a.target) else steps == 0
    {
      if a.target in dirs && MARKER in dirs[a.target] {
        return true;
      }
      alive := FreshDirectory(a.target);
      if !alive {
        return;
      }
      alive := FillAndSeal(a);
    }

    /** An unmarked directory gives way to an empty one. */
    method FreshDirectory(target: string) returns (alive: bool)
      requires !Marked(dirs, target)
      modifies `steps, `dirs
      ensures OnlyChanged(old(dirs), dirs, target)
      ensures alive ==> dirs == old(dirs)[target := map[]]
      ensures !alive ==> steps == 0 && !Marked(dirs, target)
      ensures target in old(dirs) && old(steps) >= |old(dirs)[target]| + 2 ==>
        alive && steps == old(steps) - |old(dirs)[target]| - 2
      ensures target !in old(dirs) && old(steps) >= 1 ==> alive && steps == old(steps) - 1
    {
      Replaced(dirs, target);
      if target in dirs {
        alive := RemoveTree(target);
        if !alive {
          WrittenIsChanged(old(dirs), dirs, target);
          return;
        }
      }
      alive := MakeDirectory(target);
    }

    /** Members and marker, into a directory that has neither the marker nor any other file. */
    method FillAndSeal(a: Archive) returns (alive: bool)
      requires MarkerIsSafe(a.members)
      requires a.target in dirs && MARKER !in dirs[a.target] && dirs[a.target].Keys <= Names(a.members)
      modifies `steps, `dirs
      ensures OnlyChanged(old(dirs), dirs, a.target) && Trustworthy(dirs, a) && NothingElse(dirs, a)
      ensures if alive then Marked(dirs, a.target) else steps == 0
    {
      SafeStops(dirs[a.target], a.members, steps, torn);
      StoppedKeys(dirs[a.target], a.members, steps, torn);
      FillingOverIsExactIff(dirs[a.target], a.members);
      alive := ExtractAll(a.target, a.members);
      if !alive {
        return;
      }
      ExpectedNames(a.members);
      alive := WriteFile(a.target, MARKER, a.markerText);
    }

    /** The navi variant: an unmarked directory is kept and its files are overwritten; no member at all is an error. */
    method MaterializeNavi(a: Archive) returns (alive: bool)
      requires MarkerIsSafe(a.members) && Trustworthy(dirs, a) && NothingElse(dirs, a)
      modifies `steps, `dirs
      ensures OnlyChanged(old(dirs), dirs, a.target) && Trustworthy(dirs, a) && NothingElse(dirs, a)
      ensures if alive then Marked(dirs, a.target) else steps == 0 || a.members == []
    {
      if a.target in dirs && MARKER in dirs[a.target] {
        return true;
      }
      alive := MakeDirectory(a.target);
      if !alive {
        return;
      }
      if a.members == [] {
        return false;
      }
      alive := FillAndSeal(a);
    }

    /** The loop over the archives of all provinces; an absent archive is passed over. */
    method MaterializeAll(archives: seq<Archive>) returns (alive: bool)
      requires Workable(archives) && AllTrustworthy(dirs, archives)
      modifies `steps, `dirs
      ensures AllTrustworthy(dirs, archives)
      ensures !alive ==> steps == 0
      ensures alive ==> forall k :: 0 <= k < |archives| && archives[k].present ==>
        Marked(dirs, archives[k].target) && Whole(dirs[archives[k].target], archives[k].members)
    {
      alive := true;
      for i := 0 to |archives|
        invariant AllTrustworthy(dirs, archives)
        invariant forall k :: 0 <= k < i && archives[k].present ==> Marked(dirs, archives[k].target)
        invariant alive
      {
        if !archives[i].present {
          continue;
        }
        ghost var before := dirs;
        alive := Materialize(archives[i]);
        OthersStand(before, dirs, archives, i);
        if !alive {
          return;
        }
      }
    }

    /** Run after run on the same disk, each cut off after its own number of steps with its own torn write. */
    method RunsWithCrashes(archives: seq<Archive>, crashes: seq<(nat, nat)>) returns (completed: bool)
      requires Workable(archives) && AllTrustworthy(dirs, archives)
      modifies this
      ensures AllTrustworthy(dirs, archives)
      ensures completed ==> forall k :: 0 <= k < |archives| && archives[k].present ==>
        Marked(dirs, archives[k].target) && Whole(dirs[archives[k].target], archives[k].members)
    {
      completed := false;
      for n := 0 to |crashes|
        invariant AllTrustworthy(dirs, archives)
        invariant completed ==> forall k :: 0 <= k < |archives| && archives[k].present ==>
          Marked(dirs, archives[k].target) && Whole(dirs[archives[k].target], archives[k].members)
      {
        steps, torn := crashes[n].0, crashes[n].1;
        completed := MaterializeAll(archives);
      }
    }

    method NaviRunsWithCrashes(a: Archive, crashes: seq<(nat, nat)>) returns (completed: bool)
      requires MarkerIsSafe(a.members) && Trustworthy(dirs, a) && NothingElse(dirs, a)
      modifies this
      ensures Trustworthy(dirs, a) && NothingElse(dirs, a)
      ensures completed ==> Marked(dirs, a.target) && Whole(dirs[a.target], a.members)
    {
      completed := false;
      for n := 0 to |crashes|
        invariant Trustworthy(dirs, a) && NothingElse(dirs, a)
        invariant completed ==> Marked(dirs, a.target)
      {
        steps, torn := crashes[n].0, crashes[n].1;
        completed := MaterializeNavi(a);
      }
    }

    // ---- staging from a validation cache ----

    /** The text files of a directory, in the order in which the file system lists them. */
    method ListTexts(d: Dir) returns (files: seq<Member>)
      ensures Expected(files) == Texts(d) && |files| == |Texts(d)|
    {
      files := [];
      var texts := Texts(d);
      var left := texts.Keys;
      assert |left| == |texts|;
      while left != {}
        invariant left <= texts.Keys && |files| + |left| == |texts|
        invariant Expected(files).Keys == texts.Keys - left
        invariant forall name :: name in Expected(files) ==> Expected(files)[name] == texts[name]
        decreases |left|
      {
        var name :| name in left;
        var more := files + [Member(name, texts[name])];
        assert more[..|files|] == files;
        files, left := more, left - {name};
      }
    }

    /** The cache is filled, without a marker, only when there is none. */
    method FillCache(cache: string, members: seq<Member>) returns (alive: bool)
      modifies `steps, `dirs
      ensures cache in old(dirs) ==> alive && dirs == old(dirs) && steps == old(steps)
      ensures OnlyChanged(old(dirs), dirs, cache)
      ensures alive ==> dirs == old(dirs)[cache := Cached(old(dirs), cache, members)]
      ensures !alive ==> steps == 0
      ensures cache !in old(dirs) ==> (alive <==> old(steps) > 2 * |members|)
      ensures cache !in old(dirs) && old(steps) == 1 ==> dirs == old(dirs)[cache := map[]]
    {
      if cache in dirs {
        return true;
      }
      alive := MakeDirectory(cache);
      if !alive {
        return;
      }
      alive := ExtractAll(cache, members);
    }

    /** Links, or copies, every text file of the cache into the new directory, and the marker last. */
    method StageTexts(target: string, cache: string, markerText: string) returns (alive: bool)
      requires target != cache && target in dirs && dirs[target] == map[] && cache in dirs
      modifies `steps, `dirs
      ensures OnlyWritten(old(dirs), dirs, target)
      ensures Marked(dirs, target) ==> dirs[target] - {MARKER} == Texts(old(dirs)[cache])
      ensures if alive then Marked(dirs, target) else steps == 0
      ensures old(steps) >= 2 * |Texts(old(dirs)[cache])| + 2 ==> alive
    {
      var files := ListTexts(dirs[cache]);
      MarkerComesLast(files, dirs[cache], markerText, steps, torn);
      alive := ExtractAll(target, files + [Member(MARKER, markerText)]);
    }

    /** The navi branch of the staging: whatever directory is at the cache's place is taken for the archive. A directory
        that this call marks is complete exactly when there was no cache or its text files were those of the archive. */
    method StageFromCache(target: string, cache: string, members: seq<Member>, markerText: string) returns (alive: bool)
      requires target != cache
      modifies `steps, `dirs
      ensures old(Marked(dirs, target)) ==> alive && dirs == old(dirs)
      ensures dirs - {target, cache} == old(dirs) - {target, cache}
      ensures cache in old(dirs) ==> cache in dirs && dirs[cache] == old(dirs)[cache]
      ensures !old(Marked(dirs, target)) && Marked(dirs, target) ==>
        && cache in dirs && dirs[target] - {MARKER} == Texts(dirs[cache])
        && (Staged(dirs[target], members) <==> CacheIsGood(old(dirs), cache, members))
      ensures if alive then Marked(dirs, target) else steps == 0
      ensures members != [] && target !in old(dirs) && cache !in old(dirs) && old(steps) == 2 ==>
        dirs == old(dirs)[target := map[]][cache := map[]]
      ensures target in old(dirs) && cache in old(dirs) ==>
        (old(steps) >= |old(dirs)[target]| + 2 + 2 * |Texts(old(dirs)[cache])| + 2 ==> alive)
    {
      if target in dirs && MARKER in dirs[target] {
        return true;
      }
      alive := FreshDirectory(target);
      OtherDirectoryStands(old(dirs), dirs, target, cache);
      if !alive {
        return;
      }
      Replaced(old(dirs), target);
      alive := FillAndStage(target, cache, members, markerText);
    }

    /** The staging into a directory that was just made. */
    method FillAndStage(target: string, cache: string, members: seq<Member>, markerText: string) returns (alive: bool)
      requires target != cache && target in dirs && dirs[target] == map[]
      modifies `steps, `dirs
      ensures dirs - {target, cache} == old(dirs) - {target, cache}
      ensures cache in old(dirs) ==> cache in dirs && dirs[cache] == old(dirs)[cache]
      ensures Marked(dirs, target) ==>
        && cache in dirs && dirs[target] - {MARKER} == Texts(dirs[cache])
        && dirs[cache] == Cached(old(dirs), cache, members)
      ensures if alive then Marked(dirs, target) else steps == 0
      ensures members != [] && cache !in old(dirs) && old(steps) == 1 ==> dirs == old(dirs)[cache := map[]]
      ensures cache in old(dirs) && old(steps) >= 2 * |Texts(old(dirs)[cache])| + 2 ==> alive
    {
      alive := FillCache(cache, members);
      OtherDirectoryStands(old(dirs), dirs, cache, target);
      if !alive {
        return;
      }
      ghost var filled := dirs;
      alive := StageTexts(target, cache, markerText);
      WrittenIsChanged(filled, dirs, target);
      OtherDirectoryStands(filled, dirs, target, cache);
    }

    /** Staging by itself: cut off right after it made the cache's directory, it takes that directory for the archive
        the next time, and marks a staging directory without any of the archive's text files. */
    method StagedFromAHalfFilledCache(target: string, cache: string, members: seq<Member>, markerText: string)
      requires target != cache && target !in dirs && cache !in dirs && Texts(Expected(members)) != map[]
      modifies this
      ensures Marked(dirs, target) && !Staged(dirs[target], members)
    {
      assert members != [];
      steps, torn := 2, 0;
      var alive := StageFromCache(target, cache, members, markerText);
      assert dirs[target] == map[] && dirs[cache] == map[];
      assert Texts(dirs[cache]) == map[] != Texts(Expected(members));
      steps := 4;
      alive := StageFromCache(target, cache, members, markerText);
    }

    /** One run as the runbook makes it: the cache is validated first, then staged from. */
    method ValidateAndStage(a: Archive, target: string, markerText: string, ghost targets: set<string>)
      returns (alive: bool)
      requires MarkerIsSafe(a.members) && Trustworthy(dirs, a)
      requires target in targets && a.target !in targets && AllStagedFrom(dirs, a, targets)
      modifies `steps, `dirs
      ensures Trustworthy(dirs, a) && AllStagedFrom(dirs, a, targets)
      ensures if alive then Marked(dirs, target) else steps == 0
    {
      ghost var before := dirs;
      alive := Materialize(a);
      ValidationKeepsStagings(before, dirs, a, targets);
      if !alive {
        return;
      }
      WholeCacheIsGood(dirs, a);
      ghost var validated := dirs;
      alive := StageFromCache(target, a.target, a.members, markerText);
      StagingKeepsStagings(validated, dirs, a, target, targets);
    }

    /** Run after run, each cut off anywhere and each with a staging directory of its own or an earlier one's. */
    method RunsOfValidationAndStaging(a: Archive, runs: seq<(nat, nat, string)>, markerText: string,
                                      ghost targets: set<string>)
      returns (completed: bool)
      requires MarkerIsSafe(a.members) && Trustworthy(dirs, a)
      requires a.target !in targets && AllStagedFrom(dirs, a, targets)
      requires forall n :: 0 <= n < |runs| ==> runs[n].2 in targets
      modifies this
      ensures Trustworthy(dirs, a) && AllStagedFrom(dirs, a, targets)
      ensures completed ==> runs != [] && Marked(dirs, runs[|runs| - 1].2)
      ensures completed ==> Staged(dirs[runs[|runs| - 1].2], a.members)
    {
      completed := false;
      for n := 0 to |runs|
        invariant Trustworthy(dirs, a) && AllStagedFrom(dirs, a, targets)
        invariant completed ==> n > 0 && Marked(dirs, runs[n - 1].2)
      {
        steps, torn := runs[n].0, runs[n].1;
        completed := ValidateAndStage(a, runs[n].2, markerText, targets);
      }
    }
  }

  /** Where the marker is written last, it is there only when everything else is. */
  lemma MarkerComesLast(files: seq<Member>, d: Dir, text: string, steps: nat, torn: nat)
    requires Expected(files) == Texts(d)
    ensures var stopped := StoppedAt(map[], files + [Member(MARKER, text)], steps, torn);
      MARKER in stopped ==> stopped - {MARKER} == Texts(d)
    ensures MARKER in Expected(files + [Member(MARKER, text)])
  {
    var all := files + [Member(MARKER, text)];
    ExpectedNames(files);
    TextsHaveNoMarker(d);
    assert all[..|files|] == files;
    if steps <= 2 * |files| {
      StoppedBeforeTheLast(map[], files, Member(MARKER, text), steps, torn);
      StoppedKeys(map[], files, steps, torn);
    } else if steps == 2 * |files| + 1 {
      StoppedWithin(map[], all, |files|, torn);
    } else {
      StoppedLate(map[], all, steps, torn);
    }
  }

  lemma {:induction false} StoppedBeforeTheLast(d: Dir, members: seq<Member>, last: Member, steps: nat, torn: nat)
    requires steps <= 2 * |members|
    ensures StoppedAt(d, members + [last], steps, torn) == StoppedAt(d, members, steps, torn)
    decreases |members|
  {
    if members != [] && steps > 1 {
      assert (members + [last])[1..] == members[1..] + [last];
      StoppedBeforeTheLast(d[members[0].name := members[0].content], members[1..], last, steps - 2, torn);
    }
  }

  lemma OtherDirectoryStands(before: map<string, Dir>, after: map<string, Dir>, target: string, other: string)
    requires OnlyChanged(before, after, target) && other != target
    ensures other in before <==> other in after
    ensures other in before ==> before[other] == after[other]
    ensures before - {target, other} == after - {target, other} == after - {other, target}
  {
    assert other in before - {target} <==> other in after - {target};
    assert other in before ==> (before - {target})[other] == (after - {target})[other];
    assert before - {target, other} == before - {target} - {other};
    assert after - {target, other} == after - {target} - {other};
  }

  lemma {:induction false} StoppedKeys(d: Dir, members: seq<Member>, steps: nat, torn: nat)
    ensures StoppedAt(d, members, steps, torn).Keys <= d.Keys + Names(members)
    decreases |members|
  {
    if members != [] {
      assert members[0] in members && forall m :: m in members[1..] ==> m in members;
      StoppedKeys(d[members[0].name := members[0].content], members[1..], steps - if steps < 2 then steps else 2, torn);
    }
  }

  /** The archives go to different directories, and their listings do not betray the marker. */
  ghost predicate Workable(archives: seq<Archive>) {
    && (forall i, j :: 0 <= i < j < |archives| ==> archives[i].target != archives[j].target)
    && (forall i :: 0 <= i < |archives| ==> MarkerIsSafe(archives[i].members))
  }

  ghost predicate AllTrustworthy(dirs: map<string, Dir>, archives: seq<Archive>) {
    forall k :: 0 <= k < |archives| ==> Trustworthy(dirs, archives[k])
  }

  /** The promises hold before anything was extracted or staged. */
  lemma NothingIsMarkedYet(archives: seq<Archive>, a: Archive, targets: set<string>)
    ensures AllTrustworthy(map[], archives) && AllStagedFrom(map[], a, targets)
    ensures MarkerIsSafe([]) && Workable([a.(members := [])])
  {
  }

  lemma OthersStand(before: map<string, Dir>, after: map<string, Dir>, archives: seq<Archive>, i: nat)
    requires Workable(archives) && i < |archives| && OnlyChanged(before, after, archives[i].target)
    requires AllTrustworthy(before, archives) && Trustworthy(after, archives[i])
    ensures AllTrustworthy(after, archives)
    ensures forall k :: 0 <= k < |archives| && k != i && Marked(before, archives[k].target) ==>
      Marked(after, archives[k].target)
  {
    forall k | 0 <= k < |archives| && k != i
      ensures archives[k].target in before <==> archives[k].target in after
      ensures archives[k].target in before ==> before[archives[k].target] == after[archives[k].target]
    {
      var t := archives[k].target;
      assert t in before - {archives[i].target} <==> t in after - {archives[i].target};
      assert t in before ==> (before - {archives[i].target})[t] == (after - {archives[i].target})[t];
    }
  }
}
