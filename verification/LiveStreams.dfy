/**
 * The rows of a list that get a live event stream: the `max` first in the order of progress, recency and id.
 */
module LiveStreams {
  import opened Sequences
  import opened Sorting

  /** `deprioritize` is optional for the caller; an absent `activity` is `None`. */
  datatype Candidate<!T> = Candidate(id: T -> string, activity: T -> Option<string>, deprioritize: Option<T -> bool>)

  /** What the browser supplies: `localeCompare`, and `Date.parse` with `None` for its `NaN`. */
  datatype Browser = Browser(localeCompare: (string, string) -> int, parse: string -> Option<int>)

  function ActivityMs<T>(item: T, select: Candidate<T>, browser: Browser): int {
    var stamp := select.activity(item);
    if stamp.None? || stamp.value == "" then 0
    else
      var parsed := browser.parse(stamp.value);
      if parsed.None? then 0 else parsed.value
  }

  function Rank<T>(item: T, select: Candidate<T>): int {
    if select.deprioritize.Some? && select.deprioritize.value(item) then 1 else 0
  }

  function Compare<T>(a: T, b: T, select: Candidate<T>, browser: Browser): int {
    var byRank := Rank(a, select) - Rank(b, select);
    if byRank != 0 then byRank
    else
      var byActivity := ActivityMs(b, select, browser) - ActivityMs(a, select, browser);
      if byActivity != 0 then byActivity else browser.localeCompare(select.id(a), select.id(b))
  }

  function NotAfter<T>(select: Candidate<T>, browser: Browser): (T, T) -> bool {
    (a, b) => Compare(a, b, select, browser) <= 0
  }

  function Slots<T>(items: seq<T>, max: int): nat {
    if max <= 0 then 0 else if max < |items| then max else |items|
  }

  function SelectLiveStreamIds<T>(items: seq<T>, select: Candidate<T>, browser: Browser, max: int): set<string> {
    if max <= 0 then {}
    else
      var sorted := Sort(NotAfter(select, browser), items);
      set k | 0 <= k < |sorted| && k < max :: select.id(sorted[k])
  }

  // ---- what a comparison of strings has to be for a sort to make sense ----

  ghost predicate Consistent(browser: Browser) {
    && (forall s, t :: browser.localeCompare(s, t) <= 0 <==> browser.localeCompare(t, s) >= 0)
    && (forall s, t, u :: browser.localeCompare(s, t) <= 0 && browser.localeCompare(t, u) <= 0 ==>
          browser.localeCompare(s, u) <= 0)
  }

  ghost predicate DistinctIds<T>(items: seq<T>, select: Candidate<T>) {
    forall i, j :: 0 <= i < j < |items| ==> select.id(items[i]) != select.id(items[j])
  }

  lemma CompareIsAnOrder<T(!new)>(select: Candidate<T>, browser: Browser)
    requires Consistent(browser)
    ensures TotalPreorder(NotAfter<T>(select, browser))
    ensures forall a: T, b: T :: Compare(a, b, select, browser) <= 0 <==> Compare(b, a, select, browser) >= 0
  {
  }

  function HasId<T>(select: Candidate<T>, id: string): T -> bool { (x: T) => select.id(x) == id }

  /** No id is counted twice. */
  ghost predicate CountedOnce<T(!new)>(items: seq<T>, select: Candidate<T>) {
    forall id :: Count(HasId(select, id), items) <= 1
  }

  lemma {:induction false} DistinctCountedOnce<T(!new)>(items: seq<T>, select: Candidate<T>)
    requires DistinctIds(items, select)
    ensures CountedOnce(items, select)
  {
    if items != [] {
      var rest := items[1..];
      DistinctCountedOnce(rest, select);
      CountZero(HasId(select, select.id(items[0])), rest);
    }
  }

  lemma {:induction false} CountedOnceDistinct<T(!new)>(items: seq<T>, select: Candidate<T>)
    requires CountedOnce(items, select)
    ensures DistinctIds(items, select)
  {
    if items != [] {
      var rest := items[1..];
      forall id ensures Count(HasId(select, id), rest) <= 1 {
        assert Count(HasId(select, id), items) <= 1;
      }
      CountedOnceDistinct(rest, select);
      var p := HasId(select, select.id(items[0]));
      assert Count(p, items) == 1 + Count(p, rest);
      CountZero(p, rest);
      forall i, j | 0 <= i < j < |items| ensures select.id(items[i]) != select.id(items[j]) {
        assert items[j] == rest[j - 1];
        assert rest[j - 1] in rest;
        if i > 0 {
          assert items[i] == rest[i - 1];
        }
      }
    }
  }

  lemma IdsStayDistinct<T(!new)>(items: seq<T>, sorted: seq<T>, select: Candidate<T>)
    requires DistinctIds(items, select) && multiset(items) == multiset(sorted)
    ensures DistinctIds(sorted, select)
  {
    DistinctCountedOnce(items, select);
    forall id ensures Count(HasId(select, id), sorted) <= 1 {
      CountPermutation(HasId(select, id), items, sorted);
    }
    CountedOnceDistinct(sorted, select);
  }

  lemma {:induction false} FirstsAreMany<T>(sorted: seq<T>, select: Candidate<T>, n: nat)
    requires DistinctIds(sorted, select) && n <= |sorted|
    ensures |set k | 0 <= k < n :: select.id(sorted[k])| == n
  {
    var chosen := set k | 0 <= k < n :: select.id(sorted[k]);
    if n > 0 {
      FirstsAreMany(sorted, select, n - 1);
      var before := set k | 0 <= k < n - 1 :: select.id(sorted[k]);
      assert chosen == before + {select.id(sorted[n - 1])};
      assert select.id(sorted[n - 1]) !in before;
    }
  }

  ghost predicate Deprioritized<T>(item: T, select: Candidate<T>) {
    select.deprioritize.Some? && select.deprioritize.value(item)
  }

  /** The moment of the row's last activity; an absent, empty or unreadable stamp is the oldest. */
  ghost predicate LastActive<T>(item: T, select: Candidate<T>, browser: Browser, ms: int) {
    match select.activity(item)
    case None => ms == 0
    case Some(stamp) => if stamp != "" && browser.parse(stamp).Some? then browser.parse(stamp) == Some(ms) else ms == 0
  }

  /** What sorting before means, on the fields: progressing rows first, then the most recent, then by id. */
  lemma ComesFirst<T>(a: T, b: T, select: Candidate<T>, browser: Browser, x: int, y: int)
    requires Compare(a, b, select, browser) <= 0
    requires LastActive(a, select, browser, x) && LastActive(b, select, browser, y)
    ensures Deprioritized(a, select) ==> Deprioritized(b, select)
    ensures (Deprioritized(a, select) <==> Deprioritized(b, select)) ==> x >= y
    ensures (Deprioritized(a, select) <==> Deprioritized(b, select)) && x == y ==>
      browser.localeCompare(select.id(a), select.id(b)) <= 0
  {
  }

  /** Which rows get a slot, on the fields: no progressing row goes without while a deprioritized one has a slot, and
      within either kind none that was active later, or at the same moment with a lesser id. */
  lemma SlotsGoToTheRecent<T(!new)>(items: seq<T>, select: Candidate<T>, browser: Browser, max: int, i: nat, j: nat,
                                    x: int, y: int)
    requires Consistent(browser) && DistinctIds(items, select) && i < |items| && j < |items|
    requires select.id(items[i]) in SelectLiveStreamIds(items, select, browser, max)
    requires select.id(items[j]) !in SelectLiveStreamIds(items, select, browser, max)
    requires LastActive(items[i], select, browser, x) && LastActive(items[j], select, browser, y)
    ensures Deprioritized(items[i], select) ==> Deprioritized(items[j], select)
    ensures (Deprioritized(items[i], select) <==> Deprioritized(items[j], select)) ==> x >= y
    ensures (Deprioritized(items[i], select) <==> Deprioritized(items[j], select)) && x == y ==>
      browser.localeCompare(select.id(items[i]), select.id(items[j])) <= 0
  {
    SelectionIsTopK(items, select, browser, max);
    ComesFirst(items[i], items[j], select, browser, x, y);
  }

  /** A true top-k: with distinct ids every slot is used, only rows of the list get one, and no row without a slot sorts
      before a row with one. */
  lemma SelectionIsTopK<T(!new)>(items: seq<T>, select: Candidate<T>, browser: Browser, max: int)
    requires Consistent(browser) && DistinctIds(items, select)
    ensures var chosen := SelectLiveStreamIds(items, select, browser, max);
      && |chosen| == Slots(items, max)
      && (forall id :: id in chosen ==> exists i :: 0 <= i < |items| && select.id(items[i]) == id)
      && (forall i, j :: 0 <= i < |items| && 0 <= j < |items| ==>
            select.id(items[i]) in chosen && select.id(items[j]) !in chosen ==>
            Compare(items[i], items[j], select, browser) <= 0)
  {
    if max > 0 {
      var le := NotAfter<T>(select, browser);
      CompareIsAnOrder(select, browser);
      SortSorts(le, items);
      var sorted := Sort(le, items);
      IdsStayDistinct(items, sorted, select);
      var chosen := SelectLiveStreamIds(items, select, browser, max);
      FirstsAreMany(sorted, select, Slots(items, max));
      assert chosen == set k | 0 <= k < Slots(items, max) :: select.id(sorted[k]);
      forall id | id in chosen ensures exists i :: 0 <= i < |items| && select.id(items[i]) == id {
        var k :| 0 <= k < |sorted| && k < max && id == select.id(sorted[k]);
        assert sorted[k] in multiset(items);
      }
      forall i, j | 0 <= i < |items| && 0 <= j < |items|
        && select.id(items[i]) in chosen && select.id(items[j]) !in chosen
        ensures Compare(items[i], items[j], select, browser) <= 0
      {
        assert items[i] in multiset(sorted) && items[j] in multiset(sorted);
        var m :| 0 <= m < |sorted| && sorted[m] == items[i];
        var n :| 0 <= n < |sorted| && sorted[n] == items[j];
        var k :| 0 <= k < |sorted| && k < max && select.id(sorted[k]) == select.id(items[i]);
        assert k == m;
        assert n >= max;
        assert le(sorted[m], sorted[n]);
      }
    }
  }

  // ---- when the order of the rows cannot matter ----

  ghost predicate Antisymmetric<T(!new)>(le: (T, T) -> bool, s: multiset<T>) {
    forall a, b :: a in s && b in s && le(a, b) && le(b, a) ==> a == b
  }

  lemma LeastIsFirst<T(!new)>(le: (T, T) -> bool, s: seq<T>, t: seq<T>)
    requires multiset(s) == multiset(t) && Sorted(le, s) && Sorted(le, t) && Antisymmetric(le, multiset(s))
    requires s != [] && t != []
    ensures s[0] == t[0]
  {
    assert s[0] in multiset(t) && t[0] in multiset(s);
    var i :| 0 <= i < |s| && s[i] == t[0];
    var j :| 0 <= j < |t| && t[j] == s[0];
    if i > 0 && j > 0 {
      assert le(s[0], s[i]) && le(t[0], t[j]);
    }
  }

  lemma TailIsSorted<T(!new)>(le: (T, T) -> bool, s: seq<T>)
    requires s != [] && Sorted(le, s) && Antisymmetric(le, multiset(s))
    ensures Sorted(le, s[1..]) && Antisymmetric(le, multiset(s[1..]))
  {
    assert s == [s[0]] + s[1..];
    assert multiset(s[1..]) <= multiset(s);
  }

  lemma SameTails<T>(s: seq<T>, t: seq<T>)
    requires multiset(s) == multiset(t) && s != [] && t != [] && s[0] == t[0]
    ensures multiset(s[1..]) == multiset(t[1..])
  {
    FirstApart(s);
    FirstApart(t);
    CancelOne(s[0], multiset(s[1..]), multiset(t[1..]));
  }

  lemma {:induction false} SortedIsUnique<T(!new)>(le: (T, T) -> bool, s: seq<T>, t: seq<T>)
    requires multiset(s) == multiset(t) && Sorted(le, s) && Sorted(le, t) && Antisymmetric(le, multiset(s))
    ensures s == t
  {
    assert |s| == |multiset(s)| == |multiset(t)| == |t|;
    if s != [] {
      assert s[0] == t[0] by { LeastIsFirst(le, s, t); }
      assert s[1..] == t[1..] by {
        SameTails(s, t);
        TailIsSorted(le, s);
        TailIsSorted(le, t);
        SortedIsUnique(le, s[1..], t[1..]);
      }
      assert s == [s[0]] + s[1..] && t == [t[0]] + t[1..];
    }
  }

  ghost predicate NoTies<T>(items: seq<T>, select: Candidate<T>, browser: Browser) {
    forall i, j :: 0 <= i < |items| && 0 <= j < |items| && i != j ==> Compare(items[i], items[j], select, browser) != 0
  }

  ghost predicate OrderDoesNotMatter<T(!new)>(items: seq<T>, select: Candidate<T>, browser: Browser) {
    forall other: seq<T>, max: int | multiset(other) == multiset(items) ::
      SelectLiveStreamIds(other, select, browser, max) == SelectLiveStreamIds(items, select, browser, max)
  }

  lemma WithoutTiesOneOrder<T(!new)>(items: seq<T>, select: Candidate<T>, browser: Browser, other: seq<T>)
    requires Consistent(browser) && NoTies(items, select, browser) && multiset(other) == multiset(items)
    ensures Sort(NotAfter<T>(select, browser), other) == Sort(NotAfter<T>(select, browser), items)
  {
    var le := NotAfter<T>(select, browser);
    CompareIsAnOrder(select, browser);
    SortSorts(le, items);
    SortSorts(le, other);
    forall a, b | a in multiset(items) && b in multiset(items) && le(a, b) && le(b, a) ensures a == b {
      var i :| 0 <= i < |items| && items[i] == a;
      var j :| 0 <= j < |items| && items[j] == b;
    }
    SortedIsUnique(le, Sort(le, other), Sort(le, items));
  }

  function Place<T>(le: (T, T) -> bool, x: T, s: seq<T>): (k: nat)
    ensures k <= |s|
  {
    if s == [] || le(x, s[0]) then 0 else 1 + Place(le, x, s[1..])
  }

  lemma {:induction false} InsertAtPlace<T>(le: (T, T) -> bool, x: T, s: seq<T>)
    ensures Insert(le, x, s) == s[..Place(le, x, s)] + [x] + s[Place(le, x, s)..]
  {
    if s != [] && !le(x, s[0]) {
      InsertAtPlace(le, x, s[1..]);
      var k := Place(le, x, s[1..]);
      assert s[..k + 1] == [s[0]] + s[1..][..k] && s[k + 1..] == s[1..][k..];
    }
  }

  lemma {:induction false} TiedPlaces<T(!new)>(le: (T, T) -> bool, x: T, y: T, s: seq<T>)
    requires TotalPreorder(le) && le(x, y) && le(y, x)
    ensures Place(le, x, s) == Place(le, y, s)
    ensures Place(le, x, Insert(le, y, s)) == Place(le, y, s)
  {
    if s != [] && !le(y, s[0]) {
      assert !le(x, s[0]);
      TiedPlaces(le, x, y, s[1..]);
      var rest := Insert(le, y, s[1..]);
      assert ([s[0]] + rest)[1..] == rest;
    } else if s != [] {
      assert le(x, s[0]);
    }
  }

  lemma TwoInserts<T(!new)>(le: (T, T) -> bool, x: T, y: T, r: seq<T>)
    requires TotalPreorder(le) && le(x, y) && le(y, x)
    ensures Insert(le, x, Insert(le, y, r)) == r[..Place(le, y, r)] + [x, y] + r[Place(le, y, r)..]
  {
    var k, s := Place(le, y, r), Insert(le, y, r);
    InsertAtPlace(le, y, r);
    InsertAtPlace(le, x, s);
    TiedPlaces(le, x, y, r);
    assert s[..k] == r[..k] && s[k..] == [y] + r[k..];
  }

  lemma SortOfTwoMore<T>(le: (T, T) -> bool, x: T, y: T, rest: seq<T>)
    ensures Sort(le, [x, y] + rest) == Insert(le, x, Insert(le, y, Sort(le, rest)))
  {
    assert ([x, y] + rest)[1..] == [y] + rest;
    assert ([y] + rest)[1..] == rest;
  }

  lemma SortedRows<T(!new)>(le: (T, T) -> bool, rest: seq<T>, m: nat)
    requires TotalPreorder(le) && m < |Sort(le, rest)|
    ensures Sort(le, rest)[m] in rest
  {
    SortSorts(le, rest);
    assert Sort(le, rest)[m] in multiset(rest);
  }

  /** Of two tied rows at the head of the list, the one that comes first is sorted to the place the other one would
      have. */
  lemma TiedRowsKeepTheirOrder<T(!new)>(le: (T, T) -> bool, x: T, y: T, rest: seq<T>)
    requires TotalPreorder(le) && le(x, y) && le(y, x)
    ensures var k, sorted := Place(le, y, Sort(le, rest)), Sort(le, [x, y] + rest);
      && k < |sorted| && sorted[k] == x
      && (forall m :: 0 <= m < k ==> sorted[m] in rest)
  {
    var r := Sort(le, rest);
    var k := Place(le, y, r);
    SortOfTwoMore(le, x, y, rest);
    TwoInserts(le, x, y, r);
    forall m | 0 <= m < k ensures Sort(le, [x, y] + rest)[m] in rest {
      SortedRows(le, rest, m);
    }
  }

  /** With the right number of slots the first of two tied rows gets one that it does not get behind the other. */
  lemma FirstOfTheTiedWins<T(!new)>(x: T, y: T, rest: seq<T>, select: Candidate<T>, browser: Browser) returns (max: int)
    requires Consistent(browser) && Compare(x, y, select, browser) == 0
    requires select.id(x) != select.id(y) && forall z :: z in rest ==> select.id(z) != select.id(x)
    ensures select.id(x) in SelectLiveStreamIds([x, y] + rest, select, browser, max)
    ensures select.id(x) !in SelectLiveStreamIds([y, x] + rest, select, browser, max)
  {
    var le := NotAfter<T>(select, browser);
    TiedNotAfter(x, y, select, browser);
    TiedRowsKeepTheirOrder(le, x, y, rest);
    TiedRowsKeepTheirOrder(le, y, x, rest);
    TiedPlaces(le, x, y, Sort(le, rest));
    max := Place(le, y, Sort(le, rest)) + 1;
  }

  lemma TiedNotAfter<T(!new)>(x: T, y: T, select: Candidate<T>, browser: Browser)
    requires Consistent(browser) && Compare(x, y, select, browser) == 0
    ensures TotalPreorder(NotAfter<T>(select, browser))
    ensures NotAfter(select, browser)(x, y) && NotAfter(select, browser)(y, x)
  {
    CompareIsAnOrder(select, browser);
  }

  lemma TakeOut<T>(items: seq<T>, i: nat) returns (rest: seq<T>)
    requires i < |items|
    ensures multiset([items[i]] + rest) == multiset(items)
    ensures |rest| == |items| - 1
    ensures forall k :: 0 <= k < |rest| ==> rest[k] == items[if k < i then k else k + 1]
  {
    rest := items[..i] + items[i + 1..];
    assert items == items[..i] + [items[i]] + items[i + 1..];
  }

  lemma PairFirst<T>(items: seq<T>, i: nat, j: nat) returns (rest: seq<T>)
    requires i < j < |items|
    ensures multiset([items[i], items[j]] + rest) == multiset(items)
    ensures forall k :: 0 <= k < |rest| ==> exists m :: 0 <= m < |items| && m != i && m != j && items[m] == rest[k]
  {
    var fewer := TakeOut(items, j);
    assert fewer[i] == items[i];
    rest := TakeOut(fewer, i);
    assert [items[i], items[j]] + rest == [items[i]] + [items[j]] + rest;
    forall k | 0 <= k < |rest| ensures exists m :: 0 <= m < |items| && m != i && m != j && items[m] == rest[k] {
      var n := if k < i then k else k + 1;
      assert items[if n < j then n else n + 1] == fewer[n] == rest[k];
    }
  }

  lemma TiesMakeTheOrderMatter<T(!new)>(items: seq<T>, select: Candidate<T>, browser: Browser, i: nat, j: nat)
    requires Consistent(browser) && DistinctIds(items, select)
    requires i < j < |items| && Compare(items[i], items[j], select, browser) == 0
    ensures !OrderDoesNotMatter(items, select, browser)
  {
    var x, y := items[i], items[j];
    var rest := PairFirst(items, i, j);
    forall z | z in rest ensures select.id(z) != select.id(x) {
      var n :| 0 <= n < |rest| && rest[n] == z;
      var k :| 0 <= k < |items| && k != i && k != j && items[k] == rest[n];
      assert if k < i then select.id(items[k]) != select.id(items[i]) else select.id(items[i]) != select.id(items[k]);
    }
    var max := FirstOfTheTiedWins(x, y, rest, select, browser);
    var one, two := [x, y] + rest, [y, x] + rest;
    assert multiset(one) == multiset(items) == multiset(two);
    assert SelectLiveStreamIds(one, select, browser, max) != SelectLiveStreamIds(two, select, browser, max);
  }

  /** The selection is the same for every order of the rows and every number of slots exactly when no two rows tie. */
  lemma OrderDoesNotMatterIffNoTies<T(!new)>(items: seq<T>, select: Candidate<T>, browser: Browser)
    requires Consistent(browser) && DistinctIds(items, select)
    ensures OrderDoesNotMatter(items, select, browser) <==> NoTies(items, select, browser)
  {
    if NoTies(items, select, browser) {
      forall other: seq<T>, max: int | multiset(other) == multiset(items)
        ensures SelectLiveStreamIds(other, select, browser, max) == SelectLiveStreamIds(items, select, browser, max)
      {
        WithoutTiesOneOrder(items, select, browser, other);
      }
    } else {
      CompareIsAnOrder(select, browser);
      var i, j :| 0 <= i < |items| && 0 <= j < |items| && i != j && Compare(items[i], items[j], select, browser) == 0;
      if i < j {
        TiesMakeTheOrderMatter(items, select, browser, i, j);
      } else {
        assert Compare(items[j], items[i], select, browser) == 0;
        TiesMakeTheOrderMatter(items, select, browser, j, i);
      }
    }
  }

  /** Distinct ids tie only where the string comparison cannot tell them apart. */
  lemma TiesNeedEqualIdsOfTheLocale<T>(items: seq<T>, select: Candidate<T>, browser: Browser)
    requires DistinctIds(items, select)
    requires forall s, t :: browser.localeCompare(s, t) == 0 ==> s == t
    ensures NoTies(items, select, browser)
  {
    forall i, j | 0 <= i < |items| && 0 <= j < |items| && i != j
      ensures Compare(items[i], items[j], select, browser) != 0
    {
      assert if i < j then select.id(items[i]) != select.id(items[j]) else select.id(items[j]) != select.id(items[i]);
    }
  }
}
