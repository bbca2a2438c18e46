/** What the white-space clean-up does, character by character
    (libs/backend/chat/src/citation-enforcer.ts). */
module TidyLaws {
  import opened Utf16
  import opened Filters
  import opened CitationTidy

  predicate Gap(c: CodeUnit) {
    c == ' ' as int || c == '\t' as int
  }

  predicate StopMark(c: CodeUnit) {
    || c == '.' as int || c == ',' as int || c == ';' as int
    || c == ':' as int || c == '!' as int || c == '?' as int
  }

  function Ink(): CodeUnit -> bool {
    (c: CodeUnit) => c !in WHITE
  }

  ghost predicate NoGapPairs(w: Text) {
    forall i :: 0 < i < |w| ==> !(Gap(w[i - 1]) && Gap(w[i]))
  }

  ghost predicate NoSpaceBeforeStop(w: Text) {
    forall i :: 0 < i < |w| ==> !(w[i - 1] == ' ' as int && StopMark(w[i]))
  }

  // ---- the reference: each character by its neighbours ----

  /** A lone blank stays, the first of several becomes a space, the others go. */
  function CollapsedAt(w: Text, i: nat): Text
    requires i < |w|
  {
    if !Gap(w[i]) then [w[i]]
    else if i > 0 && Gap(w[i - 1]) then []
    else if i + 1 < |w| && Gap(w[i + 1]) then [' ' as int]
    else [w[i]]
  }

  function Collapsed(w: Text, i: nat): Text
    requires i <= |w|
    decreases |w| - i
  {
    if i == |w| then [] else CollapsedAt(w, i) + Collapsed(w, i + 1)
  }

  /** A space before a stop goes. */
  function PulledAt(w: Text, i: nat): Text
    requires i < |w|
  {
    if w[i] == ' ' as int && i + 1 < |w| && StopMark(w[i + 1]) then [] else [w[i]]
  }

  function Pulled(w: Text, i: nat): Text
    requires i <= |w|
    decreases |w| - i
  {
    if i == |w| then [] else PulledAt(w, i) + Pulled(w, i + 1)
  }

  lemma {:induction false} RestOfRun(w: Text, i: nat, j: nat)
    requires 0 < i <= j <= |w| && forall k :: i - 1 <= k < j ==> Gap(w[k])
    ensures Collapsed(w, i) == Collapsed(w, j)
    decreases j - i
  {
    if i < j {
      RestOfRun(w, i + 1, j);
    }
  }

  lemma RunAhead(w: Text, i: nat)
    requires i <= |w|
    ensures var n := BlanksAhead(Blanks, w[i..]);
            && i + n <= |w|
            && (forall k :: i <= k < i + n ==> Gap(w[k]))
            && (i + n < |w| ==> !Gap(w[i + n]))
  {
    var v, n := w[i..], BlanksAhead(Blanks, w[i..]);
    forall k | i <= k < i + n ensures Gap(w[k]) { assert Blank(Blanks, v[k - i]); }
    assert n < |v| ==> v[n] == w[i + n];
  }

  lemma ShrinkBlanksStep(w: Text, i: nat)
    requires i < |w|
    ensures var n := BlanksAhead(Blanks, w[i..]);
            && i + n <= |w|
            && Shrink(Blanks, w[i..]) ==
               if n >= 2 then [' ' as int] + Shrink(Blanks, w[i + n..]) else [w[i]] + Shrink(Blanks, w[i + 1..])
  {
    var v, n := w[i..], BlanksAhead(Blanks, w[i..]);
    assert v[0] == w[i] && v[1..] == w[i + 1..] && v[n..] == w[i + n..];
    hide BlanksAhead;
  }

  lemma {:induction false} ShrinkCollapses(w: Text, i: nat)
    requires i <= |w| && (0 < i < |w| ==> !(Gap(w[i - 1]) && Gap(w[i])))
    ensures Shrink(Blanks, w[i..]) == Collapsed(w, i)
    decreases |w| - i
  {
    hide *;
    if i < |w| {
      var n := BlanksAhead(Blanks, w[i..]);
      RunAhead(w, i);
      ShrinkBlanksStep(w, i);
      CollapsedStep(w, i, n);
      if n >= 2 {
        ShrinkCollapses(w, i + n);
      } else {
        ShrinkCollapses(w, i + 1);
      }
    } else {
      NothingShrinks(w);
    }
  }

  lemma CollapsedStep(w: Text, i: nat, n: nat)
    requires i < |w| && i + n <= |w| && (0 < i ==> !(Gap(w[i - 1]) && Gap(w[i])))
    requires (forall k :: i <= k < i + n ==> Gap(w[k])) && (i + n < |w| ==> !Gap(w[i + n]))
    ensures Collapsed(w, i) == if n >= 2 then [' ' as int] + Collapsed(w, i + n) else [w[i]] + Collapsed(w, i + 1)
  {
    hide Gap, Collapsed;
    CollapsedNext(w, i);
    if n >= 2 {
      RestOfRun(w, i + 1, i + n);
      assert Gap(w[i]) && Gap(w[i + 1]);
    }
  }

  lemma CollapsedNext(w: Text, i: nat)
    requires i < |w|
    ensures Collapsed(w, i) == CollapsedAt(w, i) + Collapsed(w, i + 1)
  {
    hide CollapsedAt;
  }

  lemma NothingShrinks(w: Text)
    ensures Shrink(Blanks, w[|w|..]) == [] == Collapsed(w, |w|)
  {
  }

  lemma {:induction false} ShrinkPulls(w: Text, i: nat)
    requires i <= |w| && NoGapPairs(w)
    ensures Shrink(Stops, w[i..]) == Pulled(w, i)
    decreases |w| - i
  {
    if i < |w| {
      var v, n := w[i..], Hit(Stops, w[i..]);
      assert forall k :: 0 <= k < |v| ==> v[k] == w[i + k];
      LoneSpace(w, i);
      if n > 0 {
        ShrinkPulls(w, i + 2);
        assert v[2..] == w[i + 2..];
      } else {
        ShrinkPulls(w, i + 1);
        assert v[1..] == w[i + 1..];
      }
    }
  }

  lemma LoneSpace(w: Text, i: nat)
    requires i < |w| && NoGapPairs(w)
    ensures Hit(Stops, w[i..]) == if w[i] == ' ' as int && i + 1 < |w| && StopMark(w[i + 1]) then 2 else 0
  {
    var v := w[i..];
    assert v[0] == w[i] && (|v| > 1 ==> v[1] == w[i + 1]);
    if w[i] == ' ' as int && |v| > 1 {
      assert !(Gap(w[i]) && Gap(w[i + 1]));
      assert v[1..][0] == v[1];
    }
    assert BlanksAhead(Stops, v) == if w[i] == ' ' as int then 1 else 0;
  }

  // ---- no pairs, no space before a stop ----

  lemma {:induction false} CollapsedHasNoPairs(w: Text, i: nat)
    requires i <= |w|
    ensures NoGapPairs(Collapsed(w, i))
    ensures Collapsed(w, i) != [] && Gap(Collapsed(w, i)[0]) && 0 < i ==> i < |w| && (Gap(w[i - 1]) || Gap(w[i]))
    ensures 0 < i && Gap(w[i - 1]) && Collapsed(w, i) != [] ==> !Gap(Collapsed(w, i)[0])
    decreases |w| - i
  {
    if i < |w| {
      CollapsedHasNoPairs(w, i + 1);
      var here, rest := CollapsedAt(w, i), Collapsed(w, i + 1);
      if here == [] {
        assert here + rest == rest;
      }
    }
  }

  lemma PulledNext(w: Text, i: nat)
    requires i < |w|
    ensures Pulled(w, i) ==
            if w[i] == ' ' as int && i + 1 < |w| && StopMark(w[i + 1]) then Pulled(w, i + 1)
            else [w[i]] + Pulled(w, i + 1)
  {
    assert [] + Pulled(w, i + 1) == Pulled(w, i + 1);
  }

  lemma NothingPulled(w: Text)
    ensures Pulled(w, |w|) == [] && NoGapPairs([]) && NoSpaceBeforeStop([])
  {
  }

  lemma {:induction false} PulledIsTight(w: Text, i: nat)
    requires i <= |w| && NoGapPairs(w)
    ensures NoGapPairs(Pulled(w, i)) && NoSpaceBeforeStop(Pulled(w, i))
    ensures i < |w| ==> Pulled(w, i) != []
    ensures i < |w| && w[i] != ' ' as int ==> Pulled(w, i)[0] == w[i]
    ensures i < |w| && w[i] == ' ' as int ==>
              Pulled(w, i)[0] == if i + 1 < |w| && StopMark(w[i + 1]) then w[i + 1] else w[i]
    decreases |w| - i
  {
    hide Pulled, NoGapPairs, NoSpaceBeforeStop, Gap, StopMark;
    NothingPulled(w);
    if i < |w| {
      var rest := Pulled(w, i + 1);
      PulledIsTight(w, i + 1);
      PulledNext(w, i);
      if !(w[i] == ' ' as int && i + 1 < |w| && StopMark(w[i + 1])) {
        if i + 1 < |w| {
          HeadsMeet(w, i, rest[0]);
        }
        TightCons(w[i], rest);
      } else {
        StopIsNoSpace(w[i + 1]);
      }
    }
  }

  lemma StopIsNoSpace(c: CodeUnit)
    requires StopMark(c)
    ensures c != ' ' as int
  {
  }

  lemma HeadsMeet(w: Text, i: nat, c: CodeUnit)
    requires i + 1 < |w| && NoGapPairs(w) && !(w[i] == ' ' as int && StopMark(w[i + 1]))
    requires c == w[i + 1] || (w[i + 1] == ' ' as int && StopMark(c))
    ensures !(Gap(w[i]) && Gap(c)) && !(w[i] == ' ' as int && StopMark(c))
  {
    assert !(Gap(w[i]) && Gap(w[i + 1]));
  }

  lemma TightCons(c: CodeUnit, rest: Text)
    requires NoGapPairs(rest) && NoSpaceBeforeStop(rest)
    requires rest != [] ==> !(Gap(c) && Gap(rest[0])) && !(c == ' ' as int && StopMark(rest[0]))
    ensures NoGapPairs([c] + rest) && NoSpaceBeforeStop([c] + rest)
  {
    hide Gap, StopMark;
  }

  // ---- ink ----

  lemma GapsAreWhite(c: CodeUnit)
    requires Gap(c)
    ensures c in WHITE
  {
  }

  lemma {:induction false} CollapsedKeepsInk(w: Text, i: nat)
    requires i <= |w|
    ensures Filter(Ink(), Collapsed(w, i)) == Filter(Ink(), w[i..])
    decreases |w| - i
  {
    if i < |w| {
      CollapsedKeepsInk(w, i + 1);
      assert w[i..] == [w[i]] + w[i + 1..];
      InkHere(CollapsedAt(w, i), w[i], Collapsed(w, i + 1), w[i + 1..]);
    } else {
      assert w[i..] == [];
    }
  }

  lemma {:induction false} PulledKeepsInk(w: Text, i: nat)
    requires i <= |w|
    ensures Filter(Ink(), Pulled(w, i)) == Filter(Ink(), w[i..])
    decreases |w| - i
  {
    if i < |w| {
      PulledKeepsInk(w, i + 1);
      assert w[i..] == [w[i]] + w[i + 1..];
      InkHere(PulledAt(w, i), w[i], Pulled(w, i + 1), w[i + 1..]);
    } else {
      assert w[i..] == [];
    }
  }

  lemma InkHere(here: Text, c: CodeUnit, a: Text, b: Text)
    requires Filter(Ink(), a) == Filter(Ink(), b)
    requires here == [c] || (Gap(c) && (here == [] || here == [' ' as int]))
    ensures Filter(Ink(), here + a) == Filter(Ink(), [c] + b)
  {
    FilterAppend(Ink(), here, a);
    FilterAppend(Ink(), [c], b);
    if here != [c] {
      GapsAreWhite(c);
      FilterNone(Ink(), here);
      FilterNone(Ink(), [c]);
    }
  }

  /** Trimming takes white space off both ends and nothing else. */
  lemma TrimIsSlice(w: Text) returns (lo: nat, hi: nat)
    ensures lo <= hi <= |w| && Trim(w) == w[lo..hi]
    ensures forall k :: 0 <= k < lo || hi <= k < |w| ==> w[k] in WHITE
    ensures lo < hi ==> w[lo] !in WHITE && w[hi - 1] !in WHITE
  {
    lo, hi := TrimDrops(w);
    hide Space, Trim;
    forall k | 0 <= k < |w| ensures Space(w[k]) <==> w[k] in WHITE {
      SpaceIsWhite(w[k]);
    }
  }

  lemma SpaceIsWhite(c: CodeUnit)
    ensures Space(c) <==> c in WHITE
  {
    SpacesAreWhite(c);
  }

  lemma TrimDrops(w: Text) returns (lo: nat, hi: nat)
    ensures lo <= hi <= |w| && Trim(w) == w[lo..hi]
    ensures forall k :: 0 <= k < lo || hi <= k < |w| ==> Space(w[k])
    ensures lo < hi ==> !Space(w[lo]) && !Space(w[hi - 1])
  {
    hide Space;
    var v := DropFirst(Space, w);
    DropFirstStops(Space, w);
    DropLastStops(Space, v);
    lo := |w| - |v|;
    hi := lo + |DropLast(Space, v)|;
    assert forall k :: 0 <= k < |v| ==> v[k] == w[lo + k];
    assert forall k :: hi <= k < |w| ==> w[k] == v[k - lo];
    assert v[..hi - lo] == w[lo..hi];
  }

  lemma TrimKeepsInk(w: Text)
    ensures Filter(Ink(), Trim(w)) == Filter(Ink(), w)
  {
    var lo, hi := TrimIsSlice(w);
    assert w == w[..lo] + (w[lo..hi] + w[hi..]);
    FilterAppend(Ink(), w[..lo], w[lo..hi] + w[hi..]);
    FilterAppend(Ink(), w[lo..hi], w[hi..]);
    FilterNone(Ink(), w[..lo]);
    FilterNone(Ink(), w[hi..]);
  }

  // ---- the whole clean-up ----

  /** The clean-up is the reference: blanks collapsed, then spaces pulled to the
      stops, each by its neighbours, then the ends trimmed. */
  lemma TidyIsLocal(w: Text)
    ensures Tidy(w) == Trim(Pulled(Collapsed(w, 0), 0))
    ensures NoGapPairs(Collapsed(w, 0))
  {
    hide Shrink, Trim, Collapsed, Pulled, NoGapPairs;
    assert w[0..] == w && Collapsed(w, 0)[0..] == Collapsed(w, 0);
    ShrinkCollapses(w, 0);
    CollapsedHasNoPairs(w, 0);
    ShrinkPulls(Collapsed(w, 0), 0);
  }

  /** Tidied text has no two blanks together, no space right before a stop and no
      white space at its ends, and keeps every other character in order. */
  lemma TidyIsTidy(w: Text)
    ensures var t := Tidy(w);
            && (forall i :: 0 < i < |t| ==> !(Gap(t[i - 1]) && Gap(t[i])))
            && (forall i :: 0 < i < |t| ==> !(t[i - 1] == ' ' as int && StopMark(t[i])))
            && (t != [] ==> t[0] !in WHITE && t[|t| - 1] !in WHITE)
            && Filter(Ink(), t) == Filter(Ink(), w)
  {
    hide *;
    var u := Collapsed(w, 0);
    var v := Pulled(u, 0);
    TidyIsLocal(w);
    CollapsedKeepsInk(w, 0);
    PulledKeepsInk(u, 0);
    assert w[0..] == w && u[0..] == u;
    PulledIsTight(u, 0);
    TrimKeepsInk(v);
    var lo, hi := TrimIsSlice(v);
    SliceIsTight(v, lo, hi);
  }

  lemma SliceIsTight(v: Text, lo: nat, hi: nat)
    requires lo <= hi <= |v| && NoGapPairs(v) && NoSpaceBeforeStop(v)
    ensures var t := v[lo..hi];
            && (forall k :: 0 <= k < |t| ==> t[k] == v[lo + k])
            && (forall i :: 0 < i < |t| ==> !(Gap(t[i - 1]) && Gap(t[i])))
            && (forall i :: 0 < i < |t| ==> !(t[i - 1] == ' ' as int && StopMark(t[i])))
  {
    hide Gap, StopMark;
    var t := v[lo..hi];
    forall i | 0 < i < |t|
      ensures !(Gap(t[i - 1]) && Gap(t[i])) && !(t[i - 1] == ' ' as int && StopMark(t[i]))
    {
      assert t[i] == v[lo + i] && t[i - 1] == v[lo + i - 1];
    }
  }
}
