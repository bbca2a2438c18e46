/** `Array.prototype.sort` with a comparator: a stable sort, here an insertion
    sort, together with the proof that there is only one stable sort. */
module StableSort {
  ghost predicate TotalPreorder<T(!new)>(le: (T, T) -> bool) {
    && (forall x, y :: le(x, y) || le(y, x))
    && (forall x, y, z :: le(x, y) && le(y, z) ==> le(x, z))
  }

  ghost predicate Sorted<T>(le: (T, T) -> bool, xs: seq<T>) {
    forall i, j :: 0 <= i < j < |xs| ==> le(xs[i], xs[j])
  }

  /** The elements of `xs` that tie with `t`, in order. */
  ghost function Ties<T>(le: (T, T) -> bool, xs: seq<T>, t: T): seq<T> {
    if xs == [] then []
    else (if le(xs[0], t) && le(t, xs[0]) then [xs[0]] else []) + Ties(le, xs[1..], t)
  }

  function Insert<T>(le: (T, T) -> bool, x: T, ys: seq<T>): seq<T> {
    if ys == [] || le(x, ys[0]) then [x] + ys else [ys[0]] + Insert(le, x, ys[1..])
  }

  function Sort<T>(le: (T, T) -> bool, xs: seq<T>): seq<T> {
    if xs == [] then [] else Insert(le, xs[0], Sort(le, xs[1..]))
  }

  lemma {:induction false} InsertPermutes<T>(le: (T, T) -> bool, x: T, ys: seq<T>)
    ensures multiset(Insert(le, x, ys)) == multiset{x} + multiset(ys)
  {
    if ys == [] || le(x, ys[0]) {
    } else {
      InsertPermutes(le, x, ys[1..]);
      assert ys == [ys[0]] + ys[1..];
    }
  }

  lemma {:induction false} InsertSorts<T(!new)>(le: (T, T) -> bool, x: T, ys: seq<T>)
    requires TotalPreorder(le) && Sorted(le, ys)
    ensures Sorted(le, Insert(le, x, ys))
  {
    if ys == [] || le(x, ys[0]) {
    } else {
      var rest := Insert(le, x, ys[1..]);
      InsertSorts(le, x, ys[1..]);
      forall i | 0 <= i < |rest| ensures le(ys[0], rest[i]) {
        InsertPermutes(le, x, ys[1..]);
        assert rest[i] in multiset(rest);
        assert rest[i] == x || rest[i] in ys[1..];
      }
    }
  }

  lemma {:induction false} InsertKeepsTies<T(!new)>(le: (T, T) -> bool, x: T, ys: seq<T>, t: T)
    requires TotalPreorder(le)
    ensures Ties(le, Insert(le, x, ys), t) == Ties(le, [x] + ys, t)
  {
    assert ([x] + ys)[1..] == ys;
    if ys == [] || le(x, ys[0]) {
    } else {
      InsertKeepsTies(le, x, ys[1..], t);
      assert ([x] + ys[1..])[1..] == ys[1..];
      assert ([ys[0]] + Insert(le, x, ys[1..]))[1..] == Insert(le, x, ys[1..]);
      assert !(le(x, t) && le(t, ys[0]));
    }
  }

  lemma {:induction false} SortPermutes<T>(le: (T, T) -> bool, xs: seq<T>)
    ensures multiset(Sort(le, xs)) == multiset(xs)
  {
    if xs != [] {
      SortPermutes(le, xs[1..]);
      InsertPermutes(le, xs[0], Sort(le, xs[1..]));
      assert xs == [xs[0]] + xs[1..];
    }
  }

  /** What the comparator sort promises: the output is ordered, holds the same
      elements, and keeps the relative order of elements that tie. */
  lemma {:induction false} SortIsStable<T(!new)>(le: (T, T) -> bool, xs: seq<T>)
    requires TotalPreorder(le)
    ensures Sorted(le, Sort(le, xs))
    ensures multiset(Sort(le, xs)) == multiset(xs)
    ensures forall t :: Ties(le, Sort(le, xs), t) == Ties(le, xs, t)
  {
    SortPermutes(le, xs);
    if xs != [] {
      var rest := Sort(le, xs[1..]);
      SortIsStable(le, xs[1..]);
      InsertSorts(le, xs[0], rest);
      forall t ensures Ties(le, Sort(le, xs), t) == Ties(le, xs, t) {
        InsertKeepsTies(le, xs[0], rest, t);
        assert ([xs[0]] + rest)[1..] == rest;
      }
    }
  }

  lemma TiesIn<T>(le: (T, T) -> bool, xs: seq<T>, t: T)
    ensures forall y :: y in Ties(le, xs, t) <==> y in xs && le(y, t) && le(t, y)
  {
    if xs != [] {
      TiesIn(le, xs[1..], t);
      assert xs == [xs[0]] + xs[1..];
    }
  }

  /** Two ordered sequences with the same ties are the same sequence. */
  lemma {:induction false} StableSortIsUnique<T(!new)>(le: (T, T) -> bool, xs: seq<T>, ys: seq<T>)
    requires TotalPreorder(le) && Sorted(le, xs) && Sorted(le, ys)
    requires forall t :: Ties(le, xs, t) == Ties(le, ys, t)
    ensures xs == ys
  {
    if xs == [] {
    } else {
      TiesIn(le, xs, xs[0]);
      TiesIn(le, ys, xs[0]);
      assert xs[0] in Ties(le, xs, xs[0]);
      assert xs[0] in ys;
      TiesIn(le, xs, ys[0]);
      TiesIn(le, ys, ys[0]);
      assert ys[0] in Ties(le, ys, ys[0]);
      assert ys[0] in xs;
      HeadsTie(le, xs, ys);
      assert Ties(le, xs, xs[0])[0] == xs[0];
      assert Ties(le, ys, xs[0])[0] == ys[0];
      forall t ensures Ties(le, xs[1..], t) == Ties(le, ys[1..], t) {
        var tie := if le(xs[0], t) && le(t, xs[0]) then [xs[0]] else [];
        assert Ties(le, xs, t) == tie + Ties(le, xs[1..], t);
        assert Ties(le, ys, t) == tie + Ties(le, ys[1..], t);
        assert Ties(le, xs[1..], t) == Ties(le, xs, t)[|tie|..];
      }
      StableSortIsUnique(le, xs[1..], ys[1..]);
      assert xs == [xs[0]] + xs[1..] && ys == [ys[0]] + ys[1..];
    }
  }

  lemma HeadsTie<T(!new)>(le: (T, T) -> bool, xs: seq<T>, ys: seq<T>)
    requires TotalPreorder(le) && Sorted(le, xs) && Sorted(le, ys)
    requires xs != [] && ys != [] && xs[0] in ys && ys[0] in xs
    ensures le(xs[0], ys[0]) && le(ys[0], xs[0])
  {
    var i :| 0 <= i < |ys| && ys[i] == xs[0];
    var j :| 0 <= j < |xs| && xs[j] == ys[0];
  }
}
