/**
 * The pieces of SQL that the C11 pipeline uses: three-valued conditions, joins, and one row per group.
 */
module Sql {
  import opened Sequences

  // ---- three-valued logic ----

  datatype Truth = True | False | Unknown

  function And(a: Truth, b: Truth): Truth {
    if a == False || b == False then False
    else if a == True && b == True then True
    else Unknown
  }

  function Not(a: Truth): Truth {
    match a
    case True => False
    case False => True
    case Unknown => Unknown
  }

  /** A conjunction is TRUE when both sides are and FALSE when one is; a negation turns the two round. */
  lemma ThreeValues(a: Truth, b: Truth)
    ensures And(a, b) == True <==> a == True && b == True
    ensures And(a, b) == False <==> a == False || b == False
    ensures (Not(a) == True <==> a == False) && (Not(a) == False <==> a == True)
  {
  }

  function Lift(b: bool): Truth { if b then True else False }

  function Equal<T(==)>(a: Option<T>, b: Option<T>): Truth {
    if a.None? || b.None? then Unknown else Lift(a.value == b.value)
  }

  function AtMost(a: Option<real>, limit: real): Truth {
    if a.None? then Unknown else Lift(a.value <= limit)
  }

  function Above(a: Option<real>, limit: real): Truth {
    if a.None? then Unknown else Lift(a.value > limit)
  }

  // ---- rows ----

  /** A geometry is only compared and handed on. */
  type Geometry = int

  datatype Value = Null | Text(text: string) | Number(number: int) | Point(geometry: Geometry)

  type Row = map<string, Value>

  function TextOf(row: Row, column: string): Option<string> {
    if column in row && row[column].Text? then Some(row[column].text) else None
  }

  function BdOf(row: Row): Option<string> { TextOf(row, "bd_mgt_sn") }

  // ---- joins ----

  function Matches<R>(rs: seq<R>, on: R -> bool): seq<R> { Filter(on, rs) }

  ghost predicate AtMostOne<R>(rs: seq<R>, on: R -> bool) {
    forall i, j :: 0 <= i < j < |rs| ==> !(on(rs[i]) && on(rs[j]))
  }

  lemma {:induction false} OneMatch<R>(rs: seq<R>, on: R -> bool)
    requires AtMostOne(rs, on)
    ensures |Matches(rs, on)| <= 1
    ensures |Matches(rs, on)| == 1 ==> Matches(rs, on)[0] in rs && on(Matches(rs, on)[0])
  {
    if rs != [] {
      OneMatch(rs[1..], on);
      if on(rs[0]) {
        forall x | x in rs[1..] ensures !on(x) {
          var k :| 0 <= k < |rs[1..]| && rs[1..][k] == x;
          assert rs[k + 1] == x;
        }
        CountZero(on, rs[1..]);
      } else if Matches(rs, on) != [] {
        assert Matches(rs, on)[0] in Matches(rs, on);
      }
    }
  }

  // ---- one row per group ----

  /** Row `j` is numbered before row `i` of its group: it sorts strictly first, or ties and comes first in the table. */
  predicate Ahead<R>(rows: seq<R>, le: (R, R) -> bool, j: nat, i: nat)
    requires i < |rows| && j < |rows|
  {
    le(rows[j], rows[i]) && (!le(rows[i], rows[j]) || j < i)
  }

  /** `ROW_NUMBER() OVER (PARTITION BY key ORDER BY le)` of row `i`. */
  function RowNumber<R, K(==)>(rows: seq<R>, key: R -> K, le: (R, R) -> bool, i: nat): nat
    requires i < |rows|
  {
    1 + |set j | 0 <= j < |rows| && j != i && key(rows[j]) == key(rows[i]) && Ahead(rows, le, j, i)|
  }

  /** The places of the rows numbered 1, in table order. */
  function Firsts<R, K(==)>(rows: seq<R>, key: R -> K, le: (R, R) -> bool, n: nat): (places: seq<nat>)
    requires n <= |rows|
    ensures forall k :: 0 <= k < |places| ==> places[k] < n && RowNumber(rows, key, le, places[k]) == 1
    ensures forall k, l :: 0 <= k < l < |places| ==> places[k] < places[l]
  {
    if n == 0 then []
    else Firsts(rows, key, le, n - 1) + if RowNumber(rows, key, le, n - 1) == 1 then [n - 1] else []
  }

  lemma NumberedFirstIff<R, K>(rows: seq<R>, key: R -> K, le: (R, R) -> bool, i: nat)
    requires i < |rows|
    ensures RowNumber(rows, key, le, i) == 1
      <==> forall j :: 0 <= j < |rows| && j != i && key(rows[j]) == key(rows[i]) ==> !Ahead(rows, le, j, i)
  {
    var ahead := set j | 0 <= j < |rows| && j != i && key(rows[j]) == key(rows[i]) && Ahead(rows, le, j, i);
    if |ahead| == 0 {
      assert ahead == {};
      forall j | 0 <= j < |rows| && j != i && key(rows[j]) == key(rows[i]) ensures !Ahead(rows, le, j, i) {
        assert j !in ahead;
      }
    } else {
      var j :| j in ahead;
    }
  }

  /** Among the first `n` rows every group that occurs has a row with none of its group ahead of it. */
  lemma {:induction false} SomeRowIsFirst<R(!new), K>(rows: seq<R>, key: R -> K, le: (R, R) -> bool, n: nat, i: nat)
    returns (first: nat)
    requires TotalPreorder(le) && i < n <= |rows|
    ensures first < n && key(rows[first]) == key(rows[i])
    ensures forall j :: 0 <= j < n && j != first && key(rows[j]) == key(rows[i]) ==> !Ahead(rows, le, j, first)
    decreases n
  {
    var k := key(rows[i]);
    if key(rows[n - 1]) != k {
      first := SomeRowIsFirst(rows, key, le, n - 1, i);
    } else if exists e :: 0 <= e < n - 1 && key(rows[e]) == k {
      var e :| 0 <= e < n - 1 && key(rows[e]) == k;
      first := SomeRowIsFirst(rows, key, le, n - 1, e);
      if Ahead(rows, le, n - 1, first) {
        forall j | 0 <= j < n - 1 && key(rows[j]) == k ensures !Ahead(rows, le, j, n - 1) {
          assert le(rows[n - 1], rows[first]) && !le(rows[first], rows[n - 1]);
          if j != first {
            assert le(rows[first], rows[j]) by { assert !Ahead(rows, le, j, first); }
          }
        }
        first := n - 1;
      }
    } else {
      first := n - 1;
    }
  }

  lemma OneIsAhead<R(!new)>(rows: seq<R>, le: (R, R) -> bool, a: nat, b: nat)
    requires TotalPreorder(le) && a < |rows| && b < |rows| && a != b
    ensures Ahead(rows, le, a, b) || Ahead(rows, le, b, a)
  {
  }

  lemma OnlyOneIsFirst<R(!new), K>(rows: seq<R>, key: R -> K, le: (R, R) -> bool, a: nat, b: nat)
    requires TotalPreorder(le) && a < |rows| && b < |rows| && key(rows[a]) == key(rows[b])
    requires RowNumber(rows, key, le, a) == 1 && RowNumber(rows, key, le, b) == 1
    ensures a == b
  {
    NumberedFirstIff(rows, key, le, a);
    NumberedFirstIff(rows, key, le, b);
    if a != b {
      OneIsAhead(rows, le, a, b);
    }
  }

  lemma {:induction false} FirstsHasAll<R, K>(rows: seq<R>, key: R -> K, le: (R, R) -> bool, n: nat, i: nat)
    returns (k: nat)
    requires i < n <= |rows| && RowNumber(rows, key, le, i) == 1
    ensures k < |Firsts(rows, key, le, n)| && Firsts(rows, key, le, n)[k] == i
    decreases n
  {
    if i == n - 1 {
      k := |Firsts(rows, key, le, n - 1)|;
    } else {
      k := FirstsHasAll(rows, key, le, n - 1, i);
    }
  }

  /** Every group that occurs has a row numbered 1, and nothing of its group is ahead of that row. */
  lemma EveryGroupHasAFirst<R(!new), K>(rows: seq<R>, key: R -> K, le: (R, R) -> bool, i: nat) returns (k: nat)
    requires TotalPreorder(le) && i < |rows|
    ensures var places := Firsts(rows, key, le, |rows|); k < |places| && key(rows[places[k]]) == key(rows[i])
  {
    var first := SomeRowIsFirst(rows, key, le, |rows|, i);
    NumberedFirstIff(rows, key, le, first);
    k := FirstsHasAll(rows, key, le, |rows|, first);
  }

  /** No group has two rows numbered 1. */
  lemma NoGroupHasTwoFirsts<R(!new), K>(rows: seq<R>, key: R -> K, le: (R, R) -> bool, k: nat, l: nat)
    requires TotalPreorder(le)
    requires k < |Firsts(rows, key, le, |rows|)| && l < |Firsts(rows, key, le, |rows|)|
    requires key(rows[Firsts(rows, key, le, |rows|)[k]]) == key(rows[Firsts(rows, key, le, |rows|)[l]])
    ensures k == l
  {
    var places := Firsts(rows, key, le, |rows|);
    OnlyOneIsFirst(rows, key, le, places[k], places[l]);
  }

  /** The row numbered 1 sorts no later than any row of its group. */
  lemma FirstIsLeast<R(!new), K>(rows: seq<R>, key: R -> K, le: (R, R) -> bool, i: nat, j: nat)
    requires TotalPreorder(le) && i < |rows| && j < |rows| && key(rows[i]) == key(rows[j])
    requires RowNumber(rows, key, le, i) == 1
    ensures le(rows[i], rows[j])
  {
    NumberedFirstIff(rows, key, le, i);
    if i != j {
      assert !Ahead(rows, le, j, i);
    }
  }
}
