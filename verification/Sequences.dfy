/** Sequence helpers shared by the models: counting, filtering and what a permutation leaves alone. */
module Sequences {

  datatype Option<+T> = None | Some(value: T)

  function Count<T>(p: T -> bool, s: seq<T>): nat {
    if s == [] then 0 else (if p(s[0]) then 1 else 0) + Count(p, s[1..])
  }

  function Filter<T>(p: T -> bool, s: seq<T>): (r: seq<T>)
    ensures |r| == Count(p, s)
    ensures forall x | x in r :: x in s && p(x)
    ensures forall x | x in s && p(x) :: x in r
  {
    if s == [] then []
    else
      var rest := Filter(p, s[1..]);
      assert s == [s[0]] + s[1..];
      if p(s[0]) then [s[0]] + rest else rest
  }

  lemma {:induction false} CountAppend<T>(p: T -> bool, a: seq<T>, b: seq<T>)
    ensures Count(p, a + b) == Count(p, a) + Count(p, b)
  {
    if a == [] {
      assert a + b == b;
    } else {
      assert (a + b)[1..] == a[1..] + b;
      CountAppend(p, a[1..], b);
    }
  }

  lemma {:induction false} FilterAppend<T>(p: T -> bool, a: seq<T>, b: seq<T>)
    ensures Filter(p, a + b) == Filter(p, a) + Filter(p, b)
  {
    if a == [] {
      assert a + b == b;
    } else {
      assert (a + b)[1..] == a[1..] + b;
      FilterAppend(p, a[1..], b);
    }
  }

  /** A permutation of `a` with the first element of `a` taken out, and where it was. */
  lemma TakeFirstOut<T>(a: seq<T>, b: seq<T>) returns (j: nat, rest: seq<T>)
    requires a != [] && multiset(a) == multiset(b)
    ensures j < |b| && b == b[..j] + [a[0]] + b[j + 1..]
    ensures rest == b[..j] + b[j + 1..]
    ensures multiset(a[1..]) == multiset(rest)
  {
    assert a[0] in multiset(b);
    j :| 0 <= j < |b| && b[j] == a[0];
    rest := b[..j] + b[j + 1..];
    assert b == b[..j] + [a[0]] + b[j + 1..];
    assert multiset(b) == multiset(rest) + multiset{a[0]} by { Inserted(b[..j], a[0], b[j + 1..]); }
    assert multiset(a) == multiset(a[1..]) + multiset{a[0]} by { FirstApart(a); }
    CancelOne(a[0], multiset(a[1..]), multiset(rest));
  }

  lemma Inserted<T>(before: seq<T>, x: T, after: seq<T>)
    ensures multiset(before + [x] + after) == multiset(before + after) + multiset{x}
  {
  }

  lemma FirstApart<T>(s: seq<T>)
    requires s != []
    ensures multiset(s) == multiset(s[1..]) + multiset{s[0]}
  {
    assert s == [s[0]] + s[1..];
  }

  lemma CancelOne<T>(x: T, s: multiset<T>, t: multiset<T>)
    requires s + multiset{x} == t + multiset{x}
    ensures s == t
  {
    assert s == s + multiset{x} - multiset{x} && t == t + multiset{x} - multiset{x};
  }

  lemma {:induction false} CountPermutation<T>(p: T -> bool, a: seq<T>, b: seq<T>)
    requires multiset(a) == multiset(b)
    ensures Count(p, a) == Count(p, b)
  {
    if a == [] {
      assert |multiset(b)| == 0;
    } else {
      var j, rest := TakeFirstOut(a, b);
      CountPermutation(p, a[1..], rest);
      CountInserted(p, b[..j], a[0], b[j + 1..]);
    }
  }

  lemma CountInserted<T>(p: T -> bool, before: seq<T>, x: T, after: seq<T>)
    ensures Count(p, before + [x] + after) == (if p(x) then 1 else 0) + Count(p, before + after)
  {
    CountAppend(p, before + [x], after);
    CountAppend(p, before, [x]);
    CountAppend(p, before, after);
    assert [x][1..] == [];
  }

  lemma {:induction false} CountMonotone<T>(p: T -> bool, q: T -> bool, s: seq<T>)
    requires forall x :: x in s && p(x) ==> q(x)
    ensures Count(p, s) <= Count(q, s)
  {
    if s != [] {
      assert s[0] in s;
      assert forall x :: x in s[1..] ==> x in s;
      CountMonotone(p, q, s[1..]);
    }
  }

  lemma CountSame<T>(p: T -> bool, q: T -> bool, s: seq<T>)
    requires forall x :: x in s ==> p(x) == q(x)
    ensures Count(p, s) == Count(q, s)
  {
    CountMonotone(p, q, s);
    CountMonotone(q, p, s);
  }

  lemma {:induction false} CountZero<T>(p: T -> bool, s: seq<T>)
    ensures Count(p, s) == 0 <==> forall x :: x in s ==> !p(x)
  {
    if s != [] {
      assert s == [s[0]] + s[1..];
      CountZero(p, s[1..]);
    }
  }

  ghost predicate TotalPreorder<T(!new)>(le: (T, T) -> bool) {
    && (forall a, b :: le(a, b) || le(b, a))
    && (forall a, b, c :: le(a, b) && le(b, c) ==> le(a, c))
  }

  ghost predicate Distinct<T>(s: seq<T>) {
    forall i, j :: 0 <= i < j < |s| ==> s[i] != s[j]
  }
}
