/** Offset masking: every sensitive span becomes one marker
    (libs/contracts/src/sensitivity.ts). */
module OffsetMasking {
  import opened Utf16
  import StableSort

  /** A half-open character range; nothing forces start <= end or end <= |text|. */
  datatype Span = Span(start: int, end: int)

  const MARKER: Text := [0x2022, 0x2022, 0x2022, 0x2022, 0x2022, 0x2022]

  predicate ByStart(a: Span, b: Span) {
    a.start <= b.start
  }

  predicate Covers(span: Span, i: int) {
    span.start <= i < span.end
  }

  predicate Covered(spans: seq<Span>, i: int) {
    exists k :: 0 <= k < |spans| && Covers(spans[k], i)
  }

  /** The index of the first span covering position `i`, or -1. */
  function Owner(spans: seq<Span>, i: int): (k: int)
    ensures -1 <= k < |spans|
    ensures k >= 0 ==> Covers(spans[k], i)
    ensures forall j :: 0 <= j < (if k == -1 then |spans| else k) ==> !Covers(spans[j], i)
  {
    if spans == [] then -1
    else
      var k := Owner(spans[..|spans| - 1], i);
      if k >= 0 then k
      else if Covers(spans[|spans| - 1], i) then |spans| - 1
      else -1
  }

  /** What the reader sees: a character of the original, or a marker. */
  datatype Piece = Kept(pos: nat) | Mark

  /** The reference meaning of masking, one position at a time: an uncovered
      position stays, and each stretch of positions with one owner shows as a
      single marker at its first position. */
  function PieceAt(spans: seq<Span>, i: nat): (here: seq<Piece>)
    ensures |here| <= 1
  {
    if Owner(spans, i) == -1 then [Kept(i)]
    else if i > 0 && Owner(spans, i - 1) == Owner(spans, i) then []
    else [Mark]
  }

  function Pieces(spans: seq<Span>, n: nat): seq<Piece> {
    if n == 0 then [] else Pieces(spans, n - 1) + PieceAt(spans, n - 1)
  }

  function Spell(text: Text, marker: Text, pieces: seq<Piece>): Text {
    if pieces == [] then []
    else
      Spell(text, marker, pieces[..|pieces| - 1]) +
      match pieces[|pieces| - 1]
      case Mark => marker
      case Kept(p) => if p < |text| then [text[p]] else []
  }

  function Masked(text: Text, spans: seq<Span>): seq<Piece> {
    Pieces(StableSort.Sort(ByStart, spans), |text|)
  }

  function Min(a: int, b: int): int { if a < b then a else b }
  function Max(a: int, b: int): int { if a < b then b else a }

  method MaskSpans(text: Text, spans: seq<Span>, marker: Text) returns (out: Text)
    ensures out == Spell(text, marker, Masked(text, spans))
  {
    if |spans| == 0 {
      SweepEnd(text, marker, [], 0);
      return text;
    }
    var sorted := StableSort.Sort(ByStart, spans);
    SortedByStart(spans);
    out := [];
    var cursor := 0;
    for k := 0 to |sorted|
      invariant SweptTo(sorted[..k], |text|, cursor)
      invariant out == Spell(text, marker, Pieces(sorted[..k], cursor))
    {
      var span := sorted[k];
      var start := Max(cursor, Min(span.start, |text|));
      var end := Max(start, Min(span.end, |text|));
      TakeSnoc(sorted, k);
      SweepStep(text, marker, sorted[..k], span, cursor, start, end);
      if start > cursor {
        out := out + text[cursor..start];
      }
      if end > start {
        out := out + marker;
      }
      cursor := Max(cursor, end);
    }
    assert sorted[..|sorted|] == sorted;
    SweepEnd(text, marker, sorted, cursor);
    if cursor < |text| {
      out := out + text[cursor..];
    }
  }

  // ---- the sweep computes the reference ----

  /** All that the spans seen so far cover of the text lies before the cursor, and
      some span seen so far starts or ends at or past it. */
  ghost predicate SweptTo(spans: seq<Span>, n: nat, cursor: int) {
    && 0 <= cursor <= n
    && (forall k, i :: 0 <= k < |spans| && 0 <= i < n && Covers(spans[k], i) ==> i < cursor)
    && (cursor == 0 || exists k :: 0 <= k < |spans| && cursor <= Max(spans[k].start, spans[k].end))
  }

  lemma SortedByStart(spans: seq<Span>)
    ensures var sorted := StableSort.Sort(ByStart, spans);
            forall i, j :: 0 <= i < j < |sorted| ==> sorted[i].start <= sorted[j].start
    ensures multiset(StableSort.Sort(ByStart, spans)) == multiset(spans)
  {
    StableSort.SortIsStable(ByStart, spans);
    var sorted := StableSort.Sort(ByStart, spans);
    forall i, j | 0 <= i < j < |sorted| ensures sorted[i].start <= sorted[j].start {
      assert ByStart(sorted[i], sorted[j]);
    }
  }

  lemma OwnerOfSnoc(spans: seq<Span>, span: Span, i: int)
    ensures Owner(spans + [span], i) ==
            if Owner(spans, i) >= 0 then Owner(spans, i) else if Covers(span, i) then |spans| else -1
  {
    assert (spans + [span])[..|spans|] == spans;
  }

  lemma SpellSnoc(text: Text, marker: Text, pieces: seq<Piece>, last: Piece)
    ensures Spell(text, marker, pieces + [last]) == Spell(text, marker, pieces) +
            match last
            case Mark => marker
            case Kept(p) => if p < |text| then [text[p]] else []
  {
    assert (pieces + [last])[..|pieces|] == pieces;
  }

  lemma {:induction false} UncoveredRun(text: Text, marker: Text, spans: seq<Span>, lo: nat, hi: nat)
    requires lo <= hi <= |text|
    requires forall i :: lo <= i < hi ==> Owner(spans, i) == -1
    ensures Spell(text, marker, Pieces(spans, hi)) == Spell(text, marker, Pieces(spans, lo)) + text[lo..hi]
    decreases hi
  {
    hide *;
    if lo < hi {
      UncoveredRun(text, marker, spans, lo, hi - 1);
      KeptNext(text, marker, spans, lo, hi);
    } else {
      NothingKept(text, lo, Spell(text, marker, Pieces(spans, lo)));
    }
  }

  lemma NothingKept(text: Text, lo: nat, before: Text)
    requires lo <= |text|
    ensures before == before + text[lo..lo]
  {
  }

  lemma KeptNext(text: Text, marker: Text, spans: seq<Span>, lo: nat, hi: nat)
    requires lo < hi <= |text| && Owner(spans, hi - 1) == -1
    requires Spell(text, marker, Pieces(spans, hi - 1)) == Spell(text, marker, Pieces(spans, lo)) + text[lo..hi - 1]
    ensures Spell(text, marker, Pieces(spans, hi)) == Spell(text, marker, Pieces(spans, lo)) + text[lo..hi]
  {
    var before := Spell(text, marker, Pieces(spans, lo));
    assert Pieces(spans, hi) == Pieces(spans, hi - 1) + [Kept(hi - 1)];
    hide *;
    calc {
      Spell(text, marker, Pieces(spans, hi));
      { SpellSnoc(text, marker, Pieces(spans, hi - 1), Kept(hi - 1)); }
      Spell(text, marker, Pieces(spans, hi - 1)) + [text[hi - 1]];
      (before + text[lo..hi - 1]) + [text[hi - 1]];
      { Assoc(before, text[lo..hi - 1], [text[hi - 1]]); }
      before + (text[lo..hi - 1] + [text[hi - 1]]);
      { SliceSnoc(text, lo, hi); }
      before + text[lo..hi];
    }
  }

  lemma {:induction false} OwnedRun(spans: seq<Span>, k: int, lo: nat, hi: nat)
    requires 0 <= k && lo < hi
    requires forall i :: lo <= i < hi ==> Owner(spans, i) == k
    requires lo > 0 ==> Owner(spans, lo - 1) != k
    ensures Pieces(spans, hi) == Pieces(spans, lo) + [Mark]
    decreases hi
  {
    if lo + 1 < hi {
      OwnedRun(spans, k, lo, hi - 1);
      assert Owner(spans, hi - 2) == k && Owner(spans, hi - 1) == k;
    }
  }

  lemma {:induction false} SamePieces(a: seq<Span>, b: seq<Span>, n: nat)
    requires forall i :: 0 <= i < n ==> Owner(a, i) == Owner(b, i)
    ensures Pieces(a, n) == Pieces(b, n)
  {
    if n > 0 {
      SamePieces(a, b, n - 1);
      assert Owner(a, n - 1) == Owner(b, n - 1);
      if n > 1 { assert Owner(a, n - 2) == Owner(b, n - 2); }
    }
  }

  /** What one turn of the loop makes of the output so far. */
  ghost function Turn(out: Text, text: Text, marker: Text, cursor: nat, start: int, end: int): Text
    requires cursor <= start <= |text|
  {
    var kept := if start > cursor then out + text[cursor..start] else out;
    if end > start then kept + marker else kept
  }

  ghost predicate Clipped(span: Span, n: nat, cursor: nat, start: int, end: int) {
    start == Max(cursor, Min(span.start, n)) && end == Max(start, Min(span.end, n))
  }

  lemma SweepOwner(seen: seq<Span>, span: Span, n: nat, cursor: nat, start: int, end: int, i: nat)
    requires SweptTo(seen, n, cursor) && Clipped(span, n, cursor, start, end) && i < n
    requires forall k :: 0 <= k < |seen| ==> seen[k].start <= span.start
    ensures Owner(seen + [span], i) ==
            if i < cursor then Owner(seen, i) else if start <= i < end then |seen| else -1
  {
    OwnerOfSnoc(seen, span, i);
    if Covers(span, i) && i < cursor {
      var k :| 0 <= k < |seen| && cursor <= Max(seen[k].start, seen[k].end);
      assert Covers(seen[k], i);
    }
  }

  lemma SweepOwners(seen: seq<Span>, span: Span, n: nat, cursor: nat, start: int, end: int)
    requires SweptTo(seen, n, cursor) && Clipped(span, n, cursor, start, end)
    requires forall k :: 0 <= k < |seen| ==> seen[k].start <= span.start
    ensures forall i: nat :: i < n ==>
              Owner(seen + [span], i) == if i < cursor then Owner(seen, i) else if start <= i < end then |seen| else -1
  {
    forall i: nat | i < n
      ensures Owner(seen + [span], i) == if i < cursor then Owner(seen, i) else if start <= i < end then |seen| else -1
    {
      SweepOwner(seen, span, n, cursor, start, end, i);
    }
  }

  lemma SweepCursor(seen: seq<Span>, span: Span, n: nat, cursor: nat, start: int, end: int)
    requires SweptTo(seen, n, cursor) && Clipped(span, n, cursor, start, end)
    ensures cursor <= start <= end && SweptTo(seen + [span], n, end)
  {
    var now := seen + [span];
    assert now[|seen|] == span;
    if end > Max(span.start, span.end) && end > 0 {
      var k :| 0 <= k < |seen| && cursor <= Max(seen[k].start, seen[k].end);
      assert now[k] == seen[k];
    }
    forall k, i | 0 <= k < |now| && 0 <= i < n && Covers(now[k], i) ensures i < end {
      if k < |seen| { assert now[k] == seen[k]; }
    }
  }

  /** One turn of the loop: the gap before the span is kept and what the span
      newly covers becomes one marker, if there is any. */
  lemma SweepStep(text: Text, marker: Text, seen: seq<Span>, span: Span, cursor: nat, start: int, end: int)
    requires SweptTo(seen, |text|, cursor) && Clipped(span, |text|, cursor, start, end)
    requires forall k :: 0 <= k < |seen| ==> seen[k].start <= span.start
    ensures cursor <= start <= end && SweptTo(seen + [span], |text|, end)
    ensures Spell(text, marker, Pieces(seen + [span], end)) ==
            Turn(Spell(text, marker, Pieces(seen, cursor)), text, marker, cursor, start, end)
  {
    var now := seen + [span];
    SweepCursor(seen, span, |text|, cursor, start, end);
    SweepOwners(seen, span, |text|, cursor, start, end);
    SamePieces(seen, now, cursor);
    UncoveredRun(text, marker, now, cursor, start);
    if end > start {
      OwnedRun(now, |seen|, start, end);
      SpellSnoc(text, marker, Pieces(now, start), Mark);
    }
  }

  lemma SweepEnd(text: Text, marker: Text, spans: seq<Span>, cursor: nat)
    requires SweptTo(spans, |text|, cursor)
    ensures Spell(text, marker, Pieces(spans, |text|)) == Spell(text, marker, Pieces(spans, cursor)) + text[cursor..]
    ensures cursor == |text| ==>
              Spell(text, marker, Pieces(spans, |text|)) == Spell(text, marker, Pieces(spans, cursor))
    ensures cursor == 0 ==> Spell(text, marker, Pieces(spans, |text|)) == text
  {
    forall i | cursor <= i < |text| ensures Owner(spans, i) == -1 {
    }
    UncoveredRun(text, marker, spans, cursor, |text|);
    assert text[cursor..|text|] == text[cursor..];
  }
}
