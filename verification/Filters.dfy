/** `Array.prototype.filter` and what it keeps, and dropping elements at the ends. */
module Filters {
  /** The elements that `keep` holds of, in order. */
  function Filter<T>(keep: T -> bool, xs: seq<T>): seq<T> {
    if xs == [] then []
    else Filter(keep, xs[..|xs| - 1]) + if keep(xs[|xs| - 1]) then [xs[|xs| - 1]] else []
  }

  function DropFirst<T>(drop: T -> bool, xs: seq<T>): (rest: seq<T>)
    ensures |rest| <= |xs|
    ensures rest == xs <==> xs == [] || !drop(xs[0])
  {
    if xs != [] && drop(xs[0]) then DropFirst(drop, xs[1..]) else xs
  }

  function DropLast<T>(drop: T -> bool, xs: seq<T>): seq<T> {
    if xs != [] && drop(xs[|xs| - 1]) then DropLast(drop, xs[..|xs| - 1]) else xs
  }

  lemma FilterNext<T>(keep: T -> bool, xs: seq<T>, i: nat)
    requires i < |xs|
    ensures Filter(keep, xs[..i + 1]) == Filter(keep, xs[..i]) + if keep(xs[i]) then [xs[i]] else []
  {
    assert xs[..i + 1][..i] == xs[..i];
  }

  lemma {:induction false} FilterCons<T>(keep: T -> bool, x: T, xs: seq<T>)
    ensures Filter(keep, [x] + xs) == (if keep(x) then [x] else []) + Filter(keep, xs)
  {
    if xs == [] {
      assert [x] + xs == [x] && [x][..0] == [];
    } else {
      FilterCons(keep, x, xs[..|xs| - 1]);
      assert ([x] + xs)[..|xs|] == [x] + xs[..|xs| - 1];
    }
  }

  lemma {:induction false} FilterAppend<T>(keep: T -> bool, a: seq<T>, b: seq<T>)
    ensures Filter(keep, a + b) == Filter(keep, a) + Filter(keep, b)
  {
    if b == [] {
      assert a + b == a;
    } else {
      FilterAppend(keep, a, b[..|b| - 1]);
      assert (a + b)[..|a + b| - 1] == a + b[..|b| - 1];
    }
  }

  lemma {:induction false} FilterNone<T>(keep: T -> bool, xs: seq<T>)
    requires forall x :: x in xs ==> !keep(x)
    ensures Filter(keep, xs) == []
  {
    if xs != [] {
      assert xs[|xs| - 1] in xs && forall x :: x in xs[..|xs| - 1] ==> x in xs;
      FilterNone(keep, xs[..|xs| - 1]);
    }
  }

  /** The kept elements stand at an ascending list of positions, which holds exactly
      the positions of what is to be kept. */
  lemma {:induction false} FilterPicks<T>(keep: T -> bool, xs: seq<T>) returns (at: seq<nat>)
    ensures |at| == |Filter(keep, xs)|
    ensures forall k :: 0 <= k < |at| ==> at[k] < |xs| && Filter(keep, xs)[k] == xs[at[k]]
    ensures forall k, l :: 0 <= k < l < |at| ==> at[k] < at[l]
    ensures forall j :: 0 <= j < |xs| ==> (j in at <==> keep(xs[j]))
  {
    at := [];
    if xs != [] {
      at := FilterPicks(keep, xs[..|xs| - 1]);
      if keep(xs[|xs| - 1]) {
        at := at + [|xs| - 1];
      }
    }
  }

  /** Dropping at the ends takes away a front and a back that are to be dropped, and
      stops at what is not. */
  lemma {:induction false} DropFirstStops<T>(drop: T -> bool, xs: seq<T>)
    ensures var n := |xs| - |DropFirst(drop, xs)|;
            && 0 <= n && DropFirst(drop, xs) == xs[n..]
            && (forall k :: 0 <= k < n ==> drop(xs[k]))
            && (n < |xs| ==> !drop(xs[n]))
  {
    if xs != [] && drop(xs[0]) {
      DropFirstStops(drop, xs[1..]);
      assert forall k :: 0 < k < |xs| ==> xs[k] == xs[1..][k - 1];
      assert xs[1..][|xs[1..]| - |DropFirst(drop, xs)|..] == xs[|xs| - |DropFirst(drop, xs)|..];
    }
  }

  lemma {:induction false} DropLastStops<T>(drop: T -> bool, xs: seq<T>)
    ensures var n := |DropLast(drop, xs)|;
            && n <= |xs| && DropLast(drop, xs) == xs[..n]
            && (forall k :: n <= k < |xs| ==> drop(xs[k]))
            && (n > 0 ==> !drop(xs[n - 1]))
  {
    if xs != [] && drop(xs[|xs| - 1]) {
      DropLastStops(drop, xs[..|xs| - 1]);
      assert forall k :: 0 <= k < |xs| - 1 ==> xs[k] == xs[..|xs| - 1][k];
      assert xs[..|xs| - 1][..|DropLast(drop, xs)|] == xs[..|DropLast(drop, xs)|];
    }
  }

  /** What is kept is kept as often as it was given. */
  lemma {:induction false} FilterCounts<T>(keep: T -> bool, xs: seq<T>, x: T)
    ensures multiset(Filter(keep, xs))[x] == if keep(x) then multiset(xs)[x] else 0
  {
    if xs != [] {
      var front, last := xs[..|xs| - 1], xs[|xs| - 1];
      FilterCounts(keep, front, x);
      assert xs == front + [last];
    }
  }

  lemma {:induction false} FilterAlike<T>(p: T -> bool, q: T -> bool, xs: seq<T>)
    requires forall x :: x in xs ==> p(x) == q(x)
    ensures Filter(p, xs) == Filter(q, xs)
  {
    if xs != [] {
      var front, last := xs[..|xs| - 1], xs[|xs| - 1];
      assert last in xs && forall x :: x in front ==> x in xs;
      FilterAlike(p, q, front);
    }
  }

  /** A first filter makes no difference exactly when it passes all the second one keeps. */
  lemma FilterAfter<T(!new)>(p: T -> bool, q: T -> bool, xs: seq<T>)
    ensures Filter(p, Filter(q, xs)) == Filter(p, xs) <==> forall x :: x in xs && p(x) ==> q(x)
  {
    if forall x :: x in xs && p(x) ==> q(x) {
      FilterPassed(p, q, xs);
    } else {
      var x :| x in xs && p(x) && !q(x);
      FilterCounts(p, xs, x);
      FilterCounts(q, xs, x);
      FilterCounts(p, Filter(q, xs), x);
      assert multiset(xs)[x] > 0;
    }
  }

  lemma {:induction false} FilterPassed<T>(p: T -> bool, q: T -> bool, xs: seq<T>)
    requires forall x :: x in xs && p(x) ==> q(x)
    ensures Filter(p, Filter(q, xs)) == Filter(p, xs)
  {
    if xs != [] {
      var front, last := xs[..|xs| - 1], xs[|xs| - 1];
      assert last in xs && forall x :: x in front ==> x in xs;
      FilterPassed(p, q, front);
      if q(last) {
        assert Filter(q, xs)[..|Filter(q, front)|] == Filter(q, front);
      } else {
        assert Filter(q, xs) == Filter(q, front);
      }
    }
  }
}
