/** An answer as the citation regexes of the server read it
    (libs/backend/citations/src/citation-coverage.ts). */
module CitationTokens {
  import opened Utf16
  import opened Digits
  import opened Citations

  type Numeral = s: Text | 1 <= |s| <= 3 && forall k :: 0 <= k < |s| ==> IsDigit(s[k]) witness [0x30]

  /** An answer as the regexes see it: markers at a citation position, and the rest. */
  datatype Token = Char(c: CodeUnit) | Mark(digits: Numeral)

  /** Every match of the marker regex inside a match of the run regex is a mark.
      `open` says that a run may start or go on here. */
  function Scan(open: bool, w: Text): seq<Token>
    decreases |w|
  {
    if w == [] then []
    else
      var e := GroupEnd(w, 0);
      if open && e != -1 then [Mark(w[1..e - 1])] + Scan(true, w[e..])
      else [Char(w[0])] + Scan(!Blocks(w[0]), w[1..])
  }

  function Boxed(inner: Text): Text {
    [OPEN] + (inner + [CLOSE])
  }

  function Written(t: Token): Text {
    match t
    case Char(c) => [c]
    case Mark(digits) => Boxed(digits)
  }

  function Print(ts: seq<Token>): Text {
    if ts == [] then [] else Written(ts[0]) + Print(ts[1..])
  }

  function Numbers(ts: seq<Token>): seq<nat> {
    if ts == [] then [] else (if ts[0].Mark? then [Number(ts[0].digits)] else []) + Numbers(ts[1..])
  }

  // ---- tokens and text ----

  lemma GroupIsBoxed(w: Text)
    requires GroupEnd(w, 0) != -1
    ensures var e := GroupEnd(w, 0); w == Boxed(w[1..e - 1]) + w[e..]
  {
  }

  lemma PrintFirst(t: Token, ts: seq<Token>)
    ensures Print([t] + ts) == Written(t) + Print(ts)
  {
    assert ([t] + ts)[1..] == ts;
  }

  lemma {:induction false} ScanPrints(open: bool, w: Text)
    ensures Print(Scan(open, w)) == w
    decreases |w|
  {
    hide Print, GroupEnd;
    if w == [] {
      NothingPrinted();
    } else {
      var e := GroupEnd(w, 0);
      if open && e != -1 {
        GroupIsBoxed(w);
        ScanPrints(true, w[e..]);
        PrintFirst(Mark(w[1..e - 1]), Scan(true, w[e..]));
      } else {
        assert w == [w[0]] + w[1..];
        ScanPrints(!Blocks(w[0]), w[1..]);
        PrintFirst(Char(w[0]), Scan(!Blocks(w[0]), w[1..]));
      }
    }
  }

  lemma NothingPrinted()
    ensures Print([]) == []
  {
  }

  lemma BoxedIsGroup(digits: Numeral, w: Text)
    ensures GroupEnd(Boxed(digits) + w, 0) == |digits| + 2
    ensures (Boxed(digits) + w)[1..|digits| + 1] == digits && (Boxed(digits) + w)[|digits| + 2..] == w
  {
    var v := Boxed(digits) + w;
    assert GroupAt(v, 0, |digits| + 2) by {
      forall k | 0 < k < |digits| + 1 ensures IsDigit(v[k]) { assert v[k] == digits[k - 1]; }
    }
  }

  lemma ScanMark(digits: Numeral, w: Text)
    ensures Scan(true, Boxed(digits) + w) == [Mark(digits)] + Scan(true, w)
  {
    BoxedIsGroup(digits, w);
  }

  lemma ScanChar(open: bool, c: CodeUnit, w: Text)
    requires open ==> GroupEnd([c] + w, 0) == -1
    ensures Scan(open, [c] + w) == [Char(c)] + Scan(!Blocks(c), w)
  {
    assert ([c] + w)[1..] == w;
  }

  /** No character outside the marks completes a marker that could be one. */
  ghost predicate Canonical(open: bool, ts: seq<Token>)
    decreases |ts|
  {
    ts == [] ||
    match ts[0]
    case Mark(_) => open && Canonical(true, ts[1..])
    case Char(c) => !(open && GroupEnd(Print(ts), 0) != -1) && Canonical(!Blocks(c), ts[1..])
  }

  /** Printed tokens are read back exactly when they are canonical. */
  lemma {:induction false} RescansExactlyWhenCanonical(open: bool, ts: seq<Token>)
    ensures Scan(open, Print(ts)) == ts <==> Canonical(open, ts)
    decreases |ts|
  {
    if ts != [] {
      var rest := ts[1..];
      assert ts == [ts[0]] + rest;
      match ts[0]
      case Mark(digits) =>
        BoxedIsGroup(digits, Print(rest));
        if open {
          RescansExactlyWhenCanonical(true, rest);
          ScanMark(digits, Print(rest));
          assert (Scan(open, Print(ts)))[1..] == Scan(true, Print(rest));
        }
      case Char(c) =>
        if !(open && GroupEnd(Print(ts), 0) != -1) {
          RescansExactlyWhenCanonical(!Blocks(c), rest);
          ScanChar(open, c, Print(rest));
          assert (Scan(open, Print(ts)))[1..] == Scan(!Blocks(c), Print(rest));
        }
    }
  }

  /** The plain characters before the first mark, and what follows them. */
  function CharsAhead(ts: seq<Token>): Text {
    if ts == [] || ts[0].Mark? then [] else [ts[0].c] + CharsAhead(ts[1..])
  }

  function Behind(ts: seq<Token>): (rest: seq<Token>)
    ensures rest == [] || rest[0].Mark?
  {
    if ts == [] || ts[0].Mark? then ts else Behind(ts[1..])
  }

  lemma GroupInPrefix(x: Text, w: Text, e: int)
    requires x <= w && e <= |x|
    ensures GroupAt(x, 0, e) <==> GroupAt(w, 0, e)
  {
    assert forall k :: 0 <= k < |x| ==> x[k] == w[k];
  }

  lemma GroupAhead(x: Text, y: Text)
    requires x != [] && (y == [] || y[0] == OPEN)
    ensures GroupEnd(x + y, 0) == GroupEnd(x, 0)
  {
    var w := x + y;
    assert y != [] ==> w[|x|] == OPEN;
    forall e | GroupAt(w, 0, e) ensures GroupAt(x, 0, e) {
      GroupInPrefix(x, w, e);
    }
    forall e | GroupAt(x, 0, e) ensures GroupAt(w, 0, e) {
      GroupInPrefix(x, w, e);
    }
  }

  lemma {:induction false} PrintAhead(ts: seq<Token>)
    ensures Print(ts) == CharsAhead(ts) + Print(Behind(ts))
  {
    if ts != [] && ts[0].Char? {
      PrintAhead(ts[1..]);
      Assoc([ts[0].c], CharsAhead(ts[1..]), Print(Behind(ts[1..])));
    }
  }

  lemma HeadGroup(ts: seq<Token>)
    requires ts != [] && ts[0].Char?
    ensures GroupEnd(Print(ts), 0) == GroupEnd(CharsAhead(ts), 0)
  {
    PrintAhead(ts);
    GroupAhead(CharsAhead(ts), Print(Behind(ts)));
  }

  // ---- the numbers of the citations ----

  lemma NumbersFirst(t: Token, ts: seq<Token>)
    ensures Numbers([t] + ts) == (if t.Mark? then [Number(t.digits)] else []) + Numbers(ts)
  {
    assert ([t] + ts)[1..] == ts;
  }

  lemma NumbersStep(open: bool, w: Text)
    requires w != []
    ensures var e := GroupEnd(w, 0);
            Numbers(Scan(open, w)) ==
            if open && e != -1 then [Number(w[1..e - 1])] + Numbers(Scan(true, w[e..]))
            else Numbers(Scan(!Blocks(w[0]), w[1..]))
  {
    hide Number, GroupEnd;
    var e := GroupEnd(w, 0);
    if open && e != -1 {
      NumbersFirst(Mark(w[1..e - 1]), Scan(true, w[e..]));
    } else {
      NumbersFirst(Char(w[0]), Scan(!Blocks(w[0]), w[1..]));
    }
  }

  /** Characters that are no bracket only pass the scan on. */
  lemma {:induction false} ScanInert(open: bool, x: Text, w: Text)
    requires x != [] && OPEN !in x
    ensures Numbers(Scan(open, x + w)) == Numbers(Scan(!Blocks(x[|x| - 1]), w))
    decreases |x|
  {
    var rest := x[1..] + w;
    assert x + w == [x[0]] + rest;
    assert GroupEnd(x + w, 0) == -1;
    ScanChar(open, x[0], rest);
    if |x| > 1 {
      ScanInert(!Blocks(x[0]), x[1..], w);
    } else {
      assert rest == w;
    }
  }

  /** A box that is no marker, or stands where none can, is just text. */
  lemma ScanBox(open: bool, inner: Text, w: Text)
    requires OPEN !in inner
    requires open ==> GroupEnd(Boxed(inner) + w, 0) == -1
    ensures Numbers(Scan(open, Boxed(inner) + w)) == Numbers(Scan(false, w))
  {
    var x := inner + [CLOSE];
    assert Boxed(inner) + w == [OPEN] + (x + w);
    ScanChar(open, OPEN, x + w);
    ScanInert(!Blocks(OPEN), x, w);
  }

  lemma {:induction false} PrintLast(ts: seq<Token>, t: Token)
    ensures Print(ts + [t]) == Print(ts) + Written(t)
    ensures Numbers(ts + [t]) == Numbers(ts) + if t.Mark? then [Number(t.digits)] else []
  {
    if ts == [] {
      assert ts + [t] == [t] && [t][1..] == [];
    } else {
      PrintLast(ts[1..], t);
      assert (ts + [t])[1..] == ts[1..] + [t];
      Assoc(Written(ts[0]), Print(ts[1..]), Written(t));
    }
  }

  // ---- the same citations as the page's ----

  function TextTokens(x: Text): seq<Token> {
    if x == [] then [] else [Char(x[0])] + TextTokens(x[1..])
  }

  function RunTokens(run: Text): seq<Token>
    decreases |run|
  {
    if run == [] then []
    else
      var e := GroupEnd(run, 0);
      if e == -1 then TextTokens(run) else [Mark(run[1..e - 1])] + RunTokens(run[e..])
  }

  /** Text and captured runs in turn, as the page splits an answer. */
  function PartTokens(parts: seq<Text>): seq<Token>
    decreases |parts|
  {
    if parts == [] then []
    else if |parts| == 1 then TextTokens(parts[0])
    else TextTokens(parts[0]) + (RunTokens(parts[1]) + PartTokens(parts[2..]))
  }

  lemma GroupFromHere(v: Text, p: nat)
    requires p <= |v|
    ensures GroupEnd(v[p..], 0) == if GroupEnd(v, p) == -1 then -1 else GroupEnd(v, p) - p
  {
    assert v[p..] == v[p..|v|];
    forall e | GroupAt(v, p, e) ensures GroupAt(v[p..], 0, e - p) { GroupInSlice(v, p, |v|, 0, e - p); }
    forall e | GroupAt(v[p..], 0, e) ensures GroupAt(v, p, p + e) { GroupInSlice(v, p, |v|, 0, e); }
  }

  lemma {:induction false} ScanStretch(v: Text, lo: nat, hi: nat, open: bool)
    requires lo <= hi <= |v| && (open ==> !Blocked(v, lo) || GroupEnd(v, lo) == -1)
    requires forall p :: lo <= p < hi ==> !RunStarts(v, p)
    ensures Scan(open, v[lo..]) == TextTokens(v[lo..hi]) + Scan(if lo == hi then open else !Blocked(v, hi), v[hi..])
    decreases hi - lo
  {
    hide GroupEnd;
    if lo < hi {
      GroupFromHere(v, lo);
      assert !RunStarts(v, lo);
      assert v[lo..] == [v[lo]] + v[lo + 1..] && v[lo..hi] == [v[lo]] + v[lo + 1..hi];
      ScanChar(open, v[lo], v[lo + 1..]);
      ScanStretch(v, lo + 1, hi, !Blocks(v[lo]));
      Assoc([Char(v[lo])], TextTokens(v[lo + 1..hi]), Scan(!Blocked(v, hi), v[hi..]));
    } else {
      assert v[lo..hi] == [];
    }
  }

  lemma {:induction false} ScanRun(v: Text, q: nat)
    requires q <= |v|
    ensures Scan(true, v[q..]) == RunTokens(v[q..RunEnd(v, q)]) + Scan(true, v[RunEnd(v, q)..])
    decreases |v| - q
  {
    hide Scan, RunTokens, GroupEnd;
    var e, end := GroupEnd(v, q), RunEnd(v, q);
    if e == -1 {
      EmptyRun(v, q);
    } else {
      GroupStaysInRun(v, q, q);
      FirstOfRun(v, q, end);
      FirstScanned(v, q);
      ScanRun(v, e);
      Assoc([Mark(v[q + 1..e - 1])], RunTokens(v[e..end]), Scan(true, v[end..]));
    }
  }

  lemma EmptyRun(v: Text, q: nat)
    requires q <= |v|
    ensures RunTokens(v[q..q]) + Scan(true, v[q..]) == Scan(true, v[q..])
  {
    assert v[q..q] == [];
  }

  lemma FirstScanned(v: Text, q: nat)
    requires q <= |v| && GroupEnd(v, q) != -1
    ensures q + 3 <= GroupEnd(v, q) <= |v|
    ensures var e := GroupEnd(v, q); Scan(true, v[q..]) == [Mark(v[q + 1..e - 1])] + Scan(true, v[e..])
  {
    var e := GroupEnd(v, q);
    GroupFromHere(v, q);
    hide GroupEnd;
    assert v[q..] == v[q..|v|];
    SliceOfSlice(v, q, |v|, 1, e - q - 1);
    assert v[q..][e - q..] == v[e..];
  }

  lemma FirstOfRun(v: Text, q: nat, end: nat)
    requires q <= |v| && GroupEnd(v, q) != -1 && GroupEnd(v, q) <= end <= |v|
    ensures var e := GroupEnd(v, q); RunTokens(v[q..end]) == [Mark(v[q + 1..e - 1])] + RunTokens(v[e..end])
  {
    var e, run := GroupEnd(v, q), v[q..end];
    GroupInSlice(v, q, end, 0, e - q);
    SliceOfSlice(v, q, end, 1, e - q - 1);
    assert run[e - q..] == v[e..end];
  }

  /** The server's citations are the ones the page captures: scanning an answer is
      splitting it and reading the captured runs marker by marker. */
  lemma {:induction false} ScanIsSplit(v: Text, last: nat, open: bool)
    requires last <= |v| && (GroupEnd(v, last) == -1 || open == !Blocked(v, last))
    ensures Scan(open, v[last..]) == PartTokens(SplitFrom(v, last))
    decreases |v| - last
  {
    var q := NextRun(v, last);
    if q == -1 {
      ScanStretch(v, last, |v|, open);
      assert v[last..|v|] == v[last..] && v[|v|..] == [];
      assert TextTokens(v[last..]) + [] == TextTokens(v[last..]);
    } else {
      var e := RunEnd(v, q);
      ScanStretch(v, last, q, open);
      ScanRun(v, q);
      ScanIsSplit(v, e, true);
      var rest := SplitFrom(v, e);
      assert ([v[last..q], v[q..e]] + rest)[2..] == rest;
    }
  }
}
