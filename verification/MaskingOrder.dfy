/** When the order in which `maskSpans` is given its spans matters, exactly. */
module MaskingOrder {
  import opened Options
  import opened Utf16
  import opened OffsetMasking
  import opened OffsetMaskingLaws
  import StableSort

  /** Some span and a longer one with the same start are in `spans`, the shorter
      one ends inside the text, and no span that starts earlier covers all of it.
      Whichever of the two is given first then takes the stretch they share. */
  ghost predicate Contested(spans: seq<Span>, n: nat) {
    exists short, long, i ::
      && short in spans && long in spans
      && short.start == long.start && short.end < long.end && short.end < n
      && 0 <= i < n && Free(spans, short, i)
  }

  /** The span covers position `i` and no span that starts earlier does. */
  ghost predicate Free(spans: seq<Span>, span: Span, i: int) {
    Covers(span, i) && forall other :: other in spans && other.start < span.start ==> !Covers(other, i)
  }

  // ---- the owner of a position, read off the spans as given ----

  /** Of the spans covering `i`, the first as given of those with the smallest start. */
  function Winner(spans: seq<Span>, i: int): Option<Span> {
    if spans == [] then None
    else
      var rest := Winner(spans[1..], i);
      if Covers(spans[0], i) && (rest.None? || spans[0].start <= rest.value.start) then Some(spans[0]) else rest
  }

  lemma {:induction false} WinnerCovers(spans: seq<Span>, i: int)
    ensures Winner(spans, i).None? ==> forall s :: s in spans ==> !Covers(s, i)
    ensures Winner(spans, i).Some? ==> Winner(spans, i).value in spans && Free(spans, Winner(spans, i).value, i)
  {
    if spans != [] {
      WinnerCovers(spans[1..], i);
      assert forall s :: s in spans ==> s == spans[0] || s in spans[1..];
    }
  }

  lemma WinnerOfCons(span: Span, spans: seq<Span>, i: int)
    ensures Winner([span] + spans, i) ==
            var rest := Winner(spans, i);
            if Covers(span, i) && (rest.None? || span.start <= rest.value.start) then Some(span) else rest
  {
    assert ([span] + spans)[1..] == spans;
  }

  lemma {:induction false} WinnerOfInsert(span: Span, spans: seq<Span>, i: int)
    ensures Winner(StableSort.Insert(ByStart, span, spans), i) == Winner([span] + spans, i)
  {
    if spans == [] || span.start <= spans[0].start {
    } else {
      var rest := StableSort.Insert(ByStart, span, spans[1..]);
      WinnerOfInsert(span, spans[1..], i);
      WinnerOfCons(span, spans[1..], i);
      WinnerOfCons(span, spans, i);
      WinnerOfCons(spans[0], rest, i);
    }
  }

  lemma {:induction false} WinnerOfSort(spans: seq<Span>, i: int)
    ensures Winner(StableSort.Sort(ByStart, spans), i) == Winner(spans, i)
  {
    if spans != [] {
      WinnerOfSort(spans[1..], i);
      WinnerOfInsert(spans[0], StableSort.Sort(ByStart, spans[1..]), i);
      WinnerOfCons(spans[0], StableSort.Sort(ByStart, spans[1..]), i);
    }
  }

  lemma {:induction false} FirstCoverWins(sorted: seq<Span>, i: int, k: nat)
    requires StartsAscend(sorted) && k < |sorted| && Covers(sorted[k], i)
    requires forall j :: 0 <= j < k ==> !Covers(sorted[j], i)
    ensures Winner(sorted, i) == Some(sorted[k])
  {
    WinnerCovers(sorted[1..], i);
    if k > 0 {
      FirstCoverWins(sorted[1..], i, k - 1);
    }
  }

  lemma OwnerWins(sorted: seq<Span>, i: int)
    requires StartsAscend(sorted)
    ensures Winner(sorted, i) == if Owner(sorted, i) == -1 then None else Some(sorted[Owner(sorted, i)])
  {
    WinnerCovers(sorted, i);
    if Owner(sorted, i) >= 0 { FirstCoverWins(sorted, i, Owner(sorted, i)); }
  }

  /** What shows at a position, in terms of its winner and the one before. */
  function WonPiece(spans: seq<Span>, i: nat): (here: seq<Piece>)
    ensures |here| <= 1
  {
    if Winner(spans, i).None? then [Kept(i)]
    else if i > 0 && Winner(spans, i - 1) == Winner(spans, i) then []
    else [Mark]
  }

  lemma PieceIsWon(spans: seq<Span>, i: nat)
    ensures PieceAt(StableSort.Sort(ByStart, spans), i) == WonPiece(spans, i)
  {
    var sorted := StableSort.Sort(ByStart, spans);
    SortedByStart(spans);
    OwnerWins(sorted, i);
    OwnerWins(sorted, i - 1);
    WinnerOfSort(spans, i);
    WinnerOfSort(spans, i - 1);
  }

  function WonPieces(spans: seq<Span>, n: nat): seq<Piece> {
    if n == 0 then [] else WonPieces(spans, n - 1) + WonPiece(spans, n - 1)
  }

  lemma {:induction false} PiecesAreWon(spans: seq<Span>, n: nat)
    ensures Pieces(StableSort.Sort(ByStart, spans), n) == WonPieces(spans, n)
  {
    if n > 0 {
      PiecesAreWon(spans, n - 1);
      PieceIsWon(spans, n - 1);
    }
  }

  // ---- no contest: the order does not matter ----

  lemma {:induction false} WinnersAgree(spans: seq<Span>, i: int, j: int)
    requires Winner(spans, i).Some? && Winner(spans, j).Some?
    requires Winner(spans, i).value.start == Winner(spans, j).value.start
    requires Covers(Winner(spans, i).value, j) && Covers(Winner(spans, j).value, i)
    ensures Winner(spans, i) == Winner(spans, j)
  {
    if Winner(spans, i).value != spans[0] && Winner(spans, j).value != spans[0] {
      WinnersAgree(spans[1..], i, j);
    }
  }

  lemma SameElements(a: seq<Span>, b: seq<Span>)
    requires multiset(a) == multiset(b)
    ensures forall s :: s in a <==> s in b
  {
    assert forall s :: s in a <==> s in multiset(a);
  }

  /** Where one order joins two positions under one span, every order does. */
  lemma JoinedAlike(a: seq<Span>, b: seq<Span>, n: nat, i: nat)
    requires multiset(a) == multiset(b) && !Contested(a, n) && 0 < i < n
    requires Winner(a, i - 1).Some? && Winner(a, i - 1) == Winner(a, i)
    ensures Winner(b, i - 1) == Winner(b, i)
  {
    SameElements(a, b);
    WinnerCovers(a, i - 1);
    WinnerCovers(a, i);
    WinnerCovers(b, i - 1);
    WinnerCovers(b, i);
    var here, before := Winner(b, i).value, Winner(b, i - 1).value;
    assert before.start == here.start == Winner(a, i).value.start;
    if before.end == i {
      assert Free(a, before, i - 1);
      assert Contested(a, n);
    } else {
      WinnersAgree(b, i - 1, i);
    }
  }

  lemma PieceIgnoresOrder(a: seq<Span>, b: seq<Span>, n: nat, i: nat)
    requires multiset(a) == multiset(b) && !Contested(a, n) && i < n
    ensures WonPiece(a, i) == WonPiece(b, i)
  {
    SameElements(a, b);
    WinnerCovers(a, i);
    WinnerCovers(b, i);
    ContestIgnoresOrder(a, b, n);
    if i > 0 && Winner(a, i).Some? {
      if Winner(a, i - 1) == Winner(a, i) { JoinedAlike(a, b, n, i); }
      if Winner(b, i - 1) == Winner(b, i) { JoinedAlike(b, a, n, i); }
    }
  }

  lemma ContestIgnoresOrder(a: seq<Span>, b: seq<Span>, n: nat)
    requires multiset(a) == multiset(b) && !Contested(a, n)
    ensures !Contested(b, n)
  {
    SameElements(a, b);
    if Contested(b, n) {
      var short, long, i :|
        && short in b && long in b
        && short.start == long.start && short.end < long.end && short.end < n
        && 0 <= i < n && Free(b, short, i);
      assert Free(a, short, i);
    }
  }

  lemma {:induction false} UncontestedPieces(a: seq<Span>, b: seq<Span>, n: nat, m: nat)
    requires multiset(a) == multiset(b) && !Contested(a, n) && m <= n
    ensures WonPieces(a, m) == WonPieces(b, m)
  {
    if m > 0 {
      UncontestedPieces(a, b, n, m - 1);
      PieceIgnoresOrder(a, b, n, m - 1);
    }
  }

  // ---- a contest: two orders with different outputs ----

  /** Giving the short span first or the long one first. */
  ghost function ShortFirst(short: Span, long: Span, rest: seq<Span>): seq<Span> { [short] + ([long] + rest) }
  ghost function LongFirst(short: Span, long: Span, rest: seq<Span>): seq<Span> { [long] + ([short] + rest) }

  /** The two orders have different winners only where the short span is free. */
  lemma WinnersDiffer(short: Span, long: Span, rest: seq<Span>, i: int)
    requires short.start == long.start && short.end < long.end
    ensures var first, second := Winner(ShortFirst(short, long, rest), i), Winner(LongFirst(short, long, rest), i);
            if Free(rest, short, i) then first == Some(short) && second == Some(long)
            else first == second && (first == Some(long) ==> short.end <= i) && first != Some(short)
  {
    WinnerCovers(rest, i);
    WinnerOfCons(long, rest, i);
    WinnerOfCons(short, rest, i);
    WinnerOfCons(short, [long] + rest, i);
    WinnerOfCons(long, [short] + rest, i);
  }

  lemma PiecesAgree(short: Span, long: Span, rest: seq<Span>, i: nat)
    requires short.start == long.start && short.end < long.end && i != short.end
    ensures WonPiece(ShortFirst(short, long, rest), i) == WonPiece(LongFirst(short, long, rest), i)
  {
    WinnersDiffer(short, long, rest, i);
    WinnersDiffer(short, long, rest, i - 1);
  }

  /** If the short span is free somewhere it is free at its last position, and
      the long one owns the next. */
  lemma FreeToTheEnd(short: Span, long: Span, rest: seq<Span>, i: nat)
    requires short.start == long.start && short.end < long.end && Free(rest, short, i)
    ensures Free(rest, short, short.end - 1)
    ensures Winner(LongFirst(short, long, rest), short.end) == Some(long)
  {
    WinnerCovers(rest, short.end);
    WinnerOfCons(short, rest, short.end);
    WinnerOfCons(long, [short] + rest, short.end);
  }

  /** With the short span first, the rest of the long one shows as a marker of its own. */
  lemma ExtraMark(short: Span, long: Span, rest: seq<Span>, i: nat)
    requires short.start == long.start && short.end < long.end && Free(rest, short, i)
    ensures short.end > 0
    ensures WonPiece(ShortFirst(short, long, rest), short.end) == [Mark]
    ensures WonPiece(LongFirst(short, long, rest), short.end) == []
  {
    FreeToTheEnd(short, long, rest, i);
    WinnersDiffer(short, long, rest, short.end);
    WinnersDiffer(short, long, rest, short.end - 1);
  }

  /** The length of the first `m` positions as shown. */
  ghost function ShownLength(text: Text, marker: Text, spans: seq<Span>, m: nat): nat {
    if m == 0 then 0
    else ShownLength(text, marker, spans, m - 1) + |Spell(text, marker, WonPiece(spans, m - 1))|
  }

  lemma {:induction false} LengthIsShown(text: Text, marker: Text, spans: seq<Span>, m: nat)
    ensures ShownLength(text, marker, spans, m) == |Spell(text, marker, WonPieces(spans, m))|
  {
    hide WonPiece;
    if m > 0 {
      LengthIsShown(text, marker, spans, m - 1);
      SpelledLength(text, marker, WonPieces(spans, m - 1), WonPiece(spans, m - 1));
    }
  }

  lemma SpelledLength(text: Text, marker: Text, before: seq<Piece>, here: seq<Piece>)
    requires |here| <= 1
    ensures |Spell(text, marker, before + here)| == |Spell(text, marker, before)| + |Spell(text, marker, here)|
  {
    if here == [] {
      assert before + here == before;
    } else {
      SpellSnoc(text, marker, before, here[0]);
      SpellSnoc(text, marker, [], here[0]);
      assert before + here == before + [here[0]] && [] + here == [here[0]];
    }
  }

  lemma OneMarkLonger(text: Text, marker: Text, short: Span, long: Span, rest: seq<Span>, i: nat, j: nat)
    requires short.start == long.start && short.end < long.end && Free(rest, short, i)
    ensures |Spell(text, marker, WonPiece(ShortFirst(short, long, rest), j))| ==
            |Spell(text, marker, WonPiece(LongFirst(short, long, rest), j))| + if j == short.end then |marker| else 0
  {
    SpellSnoc(text, marker, [], Mark);
    assert [] + [Mark] == [Mark];
    hide *;
    if j == short.end {
      ExtraMark(short, long, rest, i);
    } else {
      PiecesAgree(short, long, rest, j);
    }
  }

  lemma {:induction false} ShortFirstIsLonger(
    text: Text, marker: Text, short: Span, long: Span, rest: seq<Span>, i: nat, m: nat)
    requires short.start == long.start && short.end < long.end && Free(rest, short, i)
    ensures ShownLength(text, marker, ShortFirst(short, long, rest), m) ==
            ShownLength(text, marker, LongFirst(short, long, rest), m) + if m > short.end then |marker| else 0
  {
    hide Winner, WonPiece, Spell, ShortFirst, LongFirst;
    if m > 0 {
      ShortFirstIsLonger(text, marker, short, long, rest, i, m - 1);
      OneMarkLonger(text, marker, short, long, rest, i, m - 1);
    }
  }

  lemma Extract(spans: seq<Span>, s: Span) returns (rest: seq<Span>)
    requires s in spans
    ensures multiset([s] + rest) == multiset(spans)
    ensures forall t :: t in spans <==> t == s || t in rest
  {
    var k :| 0 <= k < |spans| && spans[k] == s;
    rest := spans[..k] + spans[k + 1..];
    assert spans == spans[..k] + [s] + spans[k + 1..];
  }

  /** A contest has two orders of the same spans whose outputs differ in length. */
  lemma ContestShows(text: Text, marker: Text, spans: seq<Span>) returns (a: seq<Span>, b: seq<Span>)
    requires Contested(spans, |text|) && marker != []
    ensures multiset(a) == multiset(spans) && multiset(b) == multiset(spans)
    ensures Spell(text, marker, Masked(text, a)) != Spell(text, marker, Masked(text, b))
  {
    var short, long, i :|
      && short in spans && long in spans
      && short.start == long.start && short.end < long.end && short.end < |text|
      && 0 <= i < |text| && Free(spans, short, i);
    var others := Extract(spans, short);
    var rest := Extract(others, long);
    a, b := ShortFirst(short, long, rest), LongFirst(short, long, rest);
    assert multiset([long] + ([short] + rest)) == multiset([short] + ([long] + rest));
    ShortFirstIsLonger(text, marker, short, long, rest, i, |text|);
    LengthIsShown(text, marker, a, |text|);
    LengthIsShown(text, marker, b, |text|);
    PiecesAreWon(a, |text|);
    PiecesAreWon(b, |text|);
  }

  // ---- the exact condition ----

  /** Every order of the spans masks a text alike, if and only if the spans are
      not contested within it. */
  lemma OrderMattersExactlyWhenContested(text: Text, spans: seq<Span>)
    ensures (forall other :: multiset(other) == multiset(spans) ==> Masked(text, other) == Masked(text, spans))
            <==> !Contested(spans, |text|)
  {
    if Contested(spans, |text|) {
      var a, b := ContestShows(text, MARKER, spans);
      assert Masked(text, a) != Masked(text, b);
    } else {
      forall other | multiset(other) == multiset(spans) ensures Masked(text, other) == Masked(text, spans) {
        UncontestedPieces(spans, other, |text|, |text|);
        PiecesAreWon(spans, |text|);
        PiecesAreWon(other, |text|);
      }
    }
  }

  /** The same for the output itself, with any marker that is not empty. */
  lemma OutputDependsOnOrderExactlyWhenContested(text: Text, spans: seq<Span>, marker: Text)
    requires marker != []
    ensures (forall other :: multiset(other) == multiset(spans) ==>
              Spell(text, marker, Masked(text, other)) == Spell(text, marker, Masked(text, spans)))
            <==> !Contested(spans, |text|)
  {
    if Contested(spans, |text|) {
      var a, b := ContestShows(text, marker, spans);
      assert Spell(text, marker, Masked(text, a)) != Spell(text, marker, Masked(text, b));
    } else {
      OrderMattersExactlyWhenContested(text, spans);
    }
  }

  /** Reordering leaves the whole output alone when no two different spans share
      a start. */
  lemma ReorderingKeepsOutput(text: Text, a: seq<Span>, b: seq<Span>)
    requires multiset(a) == multiset(b)
    requires forall s, t :: s in a && t in a && s.start == t.start ==> s == t
    ensures Masked(text, a) == Masked(text, b)
  {
    OrderMattersExactlyWhenContested(text, a);
  }
}
