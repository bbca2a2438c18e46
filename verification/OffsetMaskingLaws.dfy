/** What `maskSpans` shows and hides, for spans that may be unsorted, overlapping,
    nested, empty, reversed or past the end of the text. */
module OffsetMaskingLaws {
  import opened Utf16
  import opened OffsetMasking
  import StableSort

  /** The original positions a masked text still shows, in output order. */
  function Survivors(pieces: seq<Piece>): seq<nat> {
    if pieces == [] then []
    else
      Survivors(pieces[..|pieces| - 1]) +
      match pieces[|pieces| - 1]
      case Mark => []
      case Kept(p) => [p]
  }

  function Marks(pieces: seq<Piece>): nat {
    if pieces == [] then 0
    else Marks(pieces[..|pieces| - 1]) + if pieces[|pieces| - 1].Mark? then 1 else 0
  }

  /** The positions below `n` that no span covers, in order. */
  function Uncovered(spans: seq<Span>, n: nat): seq<nat> {
    if n == 0 then []
    else Uncovered(spans, n - 1) + if Covered(spans, n - 1) then [] else [n - 1]
  }

  // ---- survivors are the complement of the union ----

  lemma CoveredIsOwned(spans: seq<Span>, i: int)
    ensures Covered(spans, i) <==> Owner(spans, i) >= 0
  {
  }

  lemma SameSpansSameCover(a: seq<Span>, b: seq<Span>, i: int)
    requires multiset(a) == multiset(b)
    requires Covered(a, i)
    ensures Covered(b, i)
  {
    var k :| 0 <= k < |a| && Covers(a[k], i);
    assert a[k] in multiset(b);
    assert a[k] in b;
    var j :| 0 <= j < |b| && b[j] == a[k];
  }

  lemma {:induction false} PiecesKeepUncovered(sorted: seq<Span>, spans: seq<Span>, n: nat)
    requires multiset(sorted) == multiset(spans)
    ensures Survivors(Pieces(sorted, n)) == Uncovered(spans, n)
  {
    if n > 0 {
      assert Pieces(sorted, n) == Pieces(sorted, n - 1) + PieceAt(sorted, n - 1);
      assert Uncovered(spans, n) == Uncovered(spans, n - 1) + if Covered(spans, n - 1) then [] else [n - 1];
      hide *;
      PiecesKeepUncovered(sorted, spans, n - 1);
      KeptWhenUncovered(sorted, spans, n - 1);
      SurvivorsOfNext(Pieces(sorted, n - 1), PieceAt(sorted, n - 1));
    }
  }

  lemma KeptWhenUncovered(sorted: seq<Span>, spans: seq<Span>, i: nat)
    requires multiset(sorted) == multiset(spans)
    ensures var here := PieceAt(sorted, i);
            if Covered(spans, i) then here == [] || here == [Mark] else here == [Kept(i)]
  {
    CoveredIsOwned(sorted, i);
    if Covered(sorted, i) { SameSpansSameCover(sorted, spans, i); }
    if Covered(spans, i) { SameSpansSameCover(spans, sorted, i); }
  }

  lemma SurvivorsOfNext(before: seq<Piece>, here: seq<Piece>)
    requires |here| <= 1
    ensures Survivors(before + here) == Survivors(before) + if here != [] && here[0].Kept? then [here[0].pos] else []
  {
    if here == [] {
      assert before + here == before;
    } else {
      assert (before + here)[..|before|] == before;
    }
  }

  /** The characters that stay visible are, in order, exactly those at the
      positions covered by none of the spans as given. */
  lemma SurvivorsAreTheUncovered(text: Text, spans: seq<Span>)
    ensures Survivors(Masked(text, spans)) == Uncovered(spans, |text|)
  {
    SortedByStart(spans);
    PiecesKeepUncovered(StableSort.Sort(ByStart, spans), spans, |text|);
  }

  /** The characters of `shown` that do not occur in `marker`. */
  function Unmarked(shown: Text, marker: Text): Text {
    if shown == [] then []
    else Unmarked(shown[..|shown| - 1], marker) +
         if shown[|shown| - 1] in marker then [] else [shown[|shown| - 1]]
  }

  function CharsAt(text: Text, positions: seq<nat>): Text
    requires forall k :: 0 <= k < |positions| ==> positions[k] < |text|
  {
    seq(|positions|, k requires 0 <= k < |positions| => text[positions[k]])
  }

  lemma {:induction false} UnmarkedAppend(a: Text, b: Text, marker: Text)
    ensures Unmarked(a + b, marker) == Unmarked(a, marker) + Unmarked(b, marker)
  {
    if b == [] {
      assert a + b == a;
    } else {
      UnmarkedAppend(a, b[..|b| - 1], marker);
      assert (a + b)[..|a + b| - 1] == a + b[..|b| - 1];
    }
  }

  lemma {:induction false} MarkerVanishes(part: Text, marker: Text)
    requires forall k :: 0 <= k < |part| ==> part[k] in marker
    ensures Unmarked(part, marker) == []
  {
    if part != [] { MarkerVanishes(part[..|part| - 1], marker); }
  }

  lemma {:induction false} SpelledSurvivors(text: Text, marker: Text, pieces: seq<Piece>)
    requires forall k :: 0 <= k < |text| ==> text[k] !in marker
    requires forall k :: 0 <= k < |pieces| && pieces[k].Kept? ==> pieces[k].pos < |text|
    ensures forall k :: 0 <= k < |Survivors(pieces)| ==> Survivors(pieces)[k] < |text|
    ensures Unmarked(Spell(text, marker, pieces), marker) == CharsAt(text, Survivors(pieces))
  {
    if pieces != [] {
      var front, last := pieces[..|pieces| - 1], pieces[|pieces| - 1];
      SpelledSurvivors(text, marker, front);
      if last.Mark? {
        UnmarkedAppend(Spell(text, marker, front), marker, marker);
        MarkerVanishes(marker, marker);
      } else {
        UnmarkedAppend(Spell(text, marker, front), [text[last.pos]], marker);
        assert [text[last.pos]][..0] == [];
      }
    }
  }

  lemma {:induction false} PiecesInRange(spans: seq<Span>, n: nat)
    ensures forall k :: 0 <= k < |Pieces(spans, n)| && Pieces(spans, n)[k].Kept? ==> Pieces(spans, n)[k].pos < n
  {
    if n > 0 { PiecesInRange(spans, n - 1); }
  }

  /** The same, read off the output itself: when the text holds no marker
      character, deleting the marker characters from the output leaves exactly
      the characters no span covers. */
  lemma OutputShowsExactlyTheUncovered(text: Text, spans: seq<Span>, marker: Text)
    requires forall k :: 0 <= k < |text| ==> text[k] !in marker
    ensures forall k :: 0 <= k < |Uncovered(spans, |text|)| ==> Uncovered(spans, |text|)[k] < |text|
    ensures Unmarked(Spell(text, marker, Masked(text, spans)), marker) == CharsAt(text, Uncovered(spans, |text|))
  {
    SurvivorsAreTheUncovered(text, spans);
    PiecesInRange(StableSort.Sort(ByStart, spans), |text|);
    SpelledSurvivors(text, marker, Masked(text, spans));
  }

  // ---- order and growth of the span list ----

  lemma {:induction false} UncoveredIgnoresOrder(a: seq<Span>, b: seq<Span>, n: nat)
    requires multiset(a) == multiset(b)
    ensures Uncovered(a, n) == Uncovered(b, n)
  {
    if n > 0 {
      UncoveredIgnoresOrder(a, b, n - 1);
      if Covered(a, n - 1) { SameSpansSameCover(a, b, n - 1); }
      if Covered(b, n - 1) { SameSpansSameCover(b, a, n - 1); }
    }
  }

  /** Reordering the spans never changes which characters survive. */
  lemma ReorderingKeepsSurvivors(text: Text, a: seq<Span>, b: seq<Span>)
    requires multiset(a) == multiset(b)
    ensures Survivors(Masked(text, a)) == Survivors(Masked(text, b))
  {
    SurvivorsAreTheUncovered(text, a);
    SurvivorsAreTheUncovered(text, b);
    UncoveredIgnoresOrder(a, b, |text|);
  }

  /** With a shared start the number of markers can depend on the order: the
      short span first leaves a remainder for the long one. */
  lemma SharedStartsDependOnOrder()
    ensures var short, long := Span(0, 1), Span(0, 2);
            && Masked([0x61, 0x62], [short, long]) == [Mark, Mark]
            && Masked([0x61, 0x62], [long, short]) == [Mark]
  {
    var short, long := Span(0, 1), Span(0, 2);
    forall a: Span, b: Span | a.start == b.start
      ensures StableSort.Sort(ByStart, [a, b]) == [a, b]
    {
      assert [a, b][1..] == [b];
      assert StableSort.Sort(ByStart, [b]) == [b];
    }
    var xs, ys := [short, long], [long, short];
    assert Owner(xs, 0) == 0 && Owner(xs, 1) == 1 by {
      assert Covers(xs[0], 0) && Covers(xs[1], 1) && !Covers(xs[0], 1);
    }
    assert Owner(ys, 0) == 0 && Owner(ys, 1) == 0 by { assert Covers(ys[0], 0) && Covers(ys[0], 1); }
    assert Pieces(xs, 1) == [Mark] && Pieces(ys, 1) == [Mark];
  }

  ghost function Keep(positions: seq<nat>, spans: seq<Span>): seq<nat> {
    if positions == [] then []
    else
      Keep(positions[..|positions| - 1], spans) +
      if Covered(spans, positions[|positions| - 1]) then [] else [positions[|positions| - 1]]
  }

  lemma CoveredByUnion(a: seq<Span>, b: seq<Span>, i: int)
    ensures Covered(a + b, i) <==> Covered(a, i) || Covered(b, i)
  {
    if Covered(a, i) {
      var k :| 0 <= k < |a| && Covers(a[k], i);
      assert (a + b)[k] == a[k];
    } else if Covered(b, i) {
      var k :| 0 <= k < |b| && Covers(b[k], i);
      assert (a + b)[|a| + k] == b[k];
    }
  }

  lemma {:induction false} UncoveredOfUnion(a: seq<Span>, b: seq<Span>, n: nat)
    ensures Uncovered(a + b, n) == Keep(Uncovered(a, n), b)
  {
    if n > 0 {
      UncoveredOfUnion(a, b, n - 1);
      var before := Uncovered(a, n - 1);
      assert (before + [n - 1])[..|before|] == before;
      CoveredByUnion(a, b, n - 1);
      assert before + [] == before;
    }
  }

  /** More spans only remove survivors, and remove exactly the ones they cover. */
  lemma AddingSpansOnlyHides(text: Text, a: seq<Span>, b: seq<Span>)
    ensures Survivors(Masked(text, a + b)) == Keep(Survivors(Masked(text, a)), b)
  {
    SurvivorsAreTheUncovered(text, a);
    SurvivorsAreTheUncovered(text, a + b);
    UncoveredOfUnion(a, b, |text|);
  }

  // ---- markers ----

  ghost predicate StartsAscend(spans: seq<Span>) {
    forall i, j :: 0 <= i < j < |spans| ==> spans[i].start <= spans[j].start
  }

  /** The spans that are the first to cover some position below `n`. */
  ghost function Owners(spans: seq<Span>, n: nat): set<int> {
    set i | 0 <= i < n && Owner(spans, i) >= 0 :: Owner(spans, i)
  }

  lemma OwnersAscend(spans: seq<Span>, i: nat, j: nat)
    requires StartsAscend(spans) && i < j && Owner(spans, i) >= 0 && Owner(spans, j) >= 0
    ensures Owner(spans, i) <= Owner(spans, j)
  {
  }

  lemma OwnedStretchIsContiguous(spans: seq<Span>, i: nat, j: nat)
    requires StartsAscend(spans) && i < j && Owner(spans, i) == Owner(spans, j) >= 0
    ensures Owner(spans, j - 1) == Owner(spans, j)
  {
    var k := Owner(spans, i);
    assert Covers(spans[k], j - 1);
    if i < j - 1 { OwnersAscend(spans, i, j - 1); }
  }

  lemma {:induction false} MarksAreOwners(spans: seq<Span>, n: nat)
    requires StartsAscend(spans)
    ensures Marks(Pieces(spans, n)) == |Owners(spans, n)|
  {
    hide PieceAt, Owner, StartsAscend;
    if n > 0 {
      MarksAreOwners(spans, n - 1);
      NextOwner(spans, n);
      MarksOfNext(Pieces(spans, n - 1), PieceAt(spans, n - 1));
    }
  }

  lemma MarksOfNext(before: seq<Piece>, here: seq<Piece>)
    requires |here| <= 1
    ensures Marks(before + here) == Marks(before) + if here == [Mark] then 1 else 0
  {
    if here == [] {
      assert before + here == before;
    } else {
      assert (before + here)[..|before|] == before;
    }
  }

  /** A position shows a marker exactly when it brings in a new owner. */
  lemma NextOwner(spans: seq<Span>, n: nat)
    requires StartsAscend(spans) && n > 0
    ensures |Owners(spans, n)| == |Owners(spans, n - 1)| + if PieceAt(spans, n - 1) == [Mark] then 1 else 0
  {
    hide Owner, StartsAscend;
    var k := Owner(spans, n - 1);
    OwnersOfNext(spans, n);
    if k != -1 {
      if k in Owners(spans, n - 1) {
        var i :| 0 <= i < n - 1 && Owner(spans, i) == k;
        OwnedStretchIsContiguous(spans, i, n - 1);
        assert Owners(spans, n - 1) + {k} == Owners(spans, n - 1);
      } else {
        assert n == 1 || Owner(spans, n - 2) in Owners(spans, n - 1) || Owner(spans, n - 2) == -1;
      }
    }
  }

  lemma OwnersOfNext(spans: seq<Span>, n: nat)
    requires n > 0
    ensures Owners(spans, n) == Owners(spans, n - 1) +
                                if Owner(spans, n - 1) == -1 then {} else {Owner(spans, n - 1)}
  {
  }

  lemma {:induction false} CountBelow(s: set<int>, n: nat)
    requires forall k :: k in s ==> 0 <= k < n
    ensures |s| <= n
  {
    if n == 0 {
      assert forall k :: k !in s;
      assert s == {};
    } else {
      CountBelow(s - {n - 1}, n - 1);
    }
  }

  /** There is one marker for each span that covers some position no span sorted
      before it covers, so never more markers than spans. */
  lemma OneMarkerPerContributingSpan(text: Text, spans: seq<Span>)
    ensures Marks(Masked(text, spans)) == |Owners(StableSort.Sort(ByStart, spans), |text|)|
    ensures Marks(Masked(text, spans)) <= |spans|
  {
    SortedByStart(spans);
    var sorted := StableSort.Sort(ByStart, spans);
    MarksAreOwners(sorted, |text|);
    CountBelow(Owners(sorted, |text|), |sorted|);
    assert |multiset(sorted)| == |sorted| && |multiset(spans)| == |spans|;
  }
}
