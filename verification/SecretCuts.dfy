/** Replacing secrets one after another, seen as cutting the original text: which
    stretches go, and which stay visible between them
    (apps/web/src/components/SpeakerTranscript.tsx). */
module SecretCuts {
  import opened Utf16
  import opened OffsetMasking
  import opened SubstringMasking

  /** A hidden stretch of the original and the visible text after it. */
  datatype Cut = Cut(secret: Text, after: Text)

  /** The original text, split into a visible head and a run of cuts. */
  datatype Cutting = Cutting(head: Text, cuts: seq<Cut>)

  ghost function Flat(head: Text, cuts: seq<Cut>): Text {
    if cuts == [] then head
    else
      var last := cuts[|cuts| - 1];
      Flat(head, cuts[..|cuts| - 1]) + last.secret + last.after
  }

  ghost function Shown(head: Text, cuts: seq<Cut>, marker: Text): Text {
    if cuts == [] then head
    else
      Shown(head, cuts[..|cuts| - 1], marker) + marker + cuts[|cuts| - 1].after
  }

  /** Where the hidden stretches lie in the original. */
  ghost function Intervals(head: Text, cuts: seq<Cut>): seq<Span> {
    if cuts == [] then []
    else
      var n := |Flat(head, cuts[..|cuts| - 1])|;
      Intervals(head, cuts[..|cuts| - 1]) + [Span(n, n + |cuts[|cuts| - 1].secret|)]
  }

  ghost predicate SecretsFrom(cuts: seq<Cut>, secrets: seq<Text>) {
    forall k :: 0 <= k < |cuts| ==> cuts[k].secret != [] && cuts[k].secret in secrets
  }

  ghost predicate Disjoint(spans: seq<Span>, n: nat) {
    && (forall k :: 0 <= k < |spans| ==> 0 <= spans[k].start < spans[k].end <= n)
    && (forall i, j :: 0 <= i < j < |spans| ==> spans[i].end <= spans[j].start)
  }

  ghost predicate Spells(spans: seq<Span>, text: Text, secrets: seq<Text>)
    requires Disjoint(spans, |text|)
  {
    forall k :: 0 <= k < |spans| ==> text[spans[k].start..spans[k].end] in secrets
  }

  lemma {:induction false} IntervalsAreDisjoint(head: Text, cuts: seq<Cut>, secrets: seq<Text>)
    requires SecretsFrom(cuts, secrets)
    ensures Disjoint(Intervals(head, cuts), |Flat(head, cuts)|)
    ensures Spells(Intervals(head, cuts), Flat(head, cuts), secrets)
  {
    if cuts != [] {
      var front, last := cuts[..|cuts| - 1], cuts[|cuts| - 1];
      IntervalsAreDisjoint(head, front, secrets);
      var before, spans := Flat(head, front), Intervals(head, front);
      hide Flat, Intervals, Disjoint, Spells;
      LastCut(head, cuts, []);
      OneMoreInterval(before, last, spans, secrets);
    }
  }

  lemma OneMoreInterval(before: Text, cut: Cut, spans: seq<Span>, secrets: seq<Text>)
    requires Disjoint(spans, |before|) && Spells(spans, before, secrets) && cut.secret != [] && cut.secret in secrets
    ensures var text, more := before + cut.secret + cut.after, spans + [Span(|before|, |before| + |cut.secret|)];
            Disjoint(more, |text|) && Spells(more, text, secrets)
  {
    var text := before + cut.secret + cut.after;
    assert text[|before|..|before| + |cut.secret|] == cut.secret;
    forall k | 0 <= k < |spans| ensures text[spans[k].start..spans[k].end] in secrets {
      assert text[spans[k].start..spans[k].end] == before[spans[k].start..spans[k].end];
    }
  }

  lemma LastCut(head: Text, cuts: seq<Cut>, marker: Text)
    requires cuts != []
    ensures var front, last := cuts[..|cuts| - 1], cuts[|cuts| - 1];
            && Flat(head, cuts) == Flat(head, front) + last.secret + last.after
            && |Flat(head, cuts)| == |Flat(head, front)| + |last.secret| + |last.after|
            && Shown(head, cuts, marker) == Shown(head, front, marker) + marker + last.after
            && Intervals(head, cuts) == Intervals(head, front) +
                                        [Span(|Flat(head, front)|, |Flat(head, front)| + |last.secret|)]
  {
  }

  // ---- replacing distributes over the markers already placed ----

  lemma FirstIn(a: Text, rest: Text, s: Text, p: nat)
    requires FirstAt(s, a, p)
    ensures FirstAt(s, a + rest, p)
  {
    assert (a + rest)[p..p + |s|] == a[p..p + |s|];
    forall q | 0 <= q < p ensures !OccursAt(s, a + rest, q) {
      assert (a + rest)[q..q + |s|] == a[q..q + |s|];
      assert !OccursAt(s, a, q);
    }
  }

  lemma FirstAfter(a: Text, marker: Text, b: Text, s: Text, p: nat)
    requires Uniform(marker) && s != [] && Detached(s, marker) && !Occurs(s, a) && FirstAt(s, b, p)
    ensures FirstAt(s, a + marker + b, |a| + |marker| + p)
  {
    var t, at := a + marker + b, |a| + |marker| + p;
    assert t[at..at + |s|] == b[p..p + |s|];
    forall q | 0 <= q < at ensures !OccursAt(s, t, q) {
      if OccursAt(s, t, q) {
        NoStraddle(a, marker, b, s, q);
      }
    }
  }

  lemma NowhereAround(a: Text, marker: Text, b: Text, s: Text)
    requires Uniform(marker) && s != [] && Detached(s, marker) && !Occurs(s, a) && !Occurs(s, b)
    ensures !Occurs(s, a + marker + b)
  {
    if q :| OccursAt(s, a + marker + b, q) {
      NoStraddle(a, marker, b, s, q);
    }
  }

  lemma {:induction false} ReplaceAcross(a: Text, marker: Text, b: Text, s: Text)
    requires Uniform(marker) && s != [] && Detached(s, marker)
    ensures Replace(a + marker + b, s, marker) == Replace(a, s, marker) + marker + Replace(b, s, marker)
    decreases |a|
  {
    var p, q := IndexOf(s, a, 0), IndexOf(s, b, 0);
    if p != -1 {
      ReplaceAcross(a[p + |s|..], marker, b, s);
      AcrossHit(a, marker, b, s, p);
    } else if q != -1 {
      AcrossLater(a, marker, b, s, q);
    } else {
      NowhereAround(a, marker, b, s);
      ReplaceMiss(a + marker + b, s, marker);
      ReplaceMiss(a, s, marker);
      ReplaceMiss(b, s, marker);
    }
  }

  lemma AcrossHit(a: Text, marker: Text, b: Text, s: Text, p: nat)
    requires s != [] && FirstAt(s, a, p)
    requires Replace(a[p + |s|..] + marker + b, s, marker) ==
             Replace(a[p + |s|..], s, marker) + marker + Replace(b, s, marker)
    ensures Replace(a + marker + b, s, marker) == Replace(a, s, marker) + marker + Replace(b, s, marker)
  {
    var x, y := Replace(a[p + |s|..], s, marker), Replace(b, s, marker);
    calc {
      Replace(a + marker + b, s, marker);
      { CutBefore(a, marker, b, p, |s|); FirstIn(a, marker + b, s, p); ReplaceHit(a + marker + b, s, marker, p); }
      a[..p] + marker + (x + marker + y);
      { GlueText(a[..p], marker, x, marker, y); }
      (a[..p] + marker + x) + marker + y;
      { ReplaceHit(a, s, marker, p); }
      Replace(a, s, marker) + marker + y;
    }
  }

  lemma CutBefore(a: Text, marker: Text, b: Text, p: nat, n: nat)
    requires p + n <= |a|
    ensures var t := a + marker + b;
            t == a + (marker + b) && t[..p] == a[..p] && t[p + n..] == a[p + n..] + marker + b
  {
  }

  lemma AcrossLater(a: Text, marker: Text, b: Text, s: Text, q: nat)
    requires Uniform(marker) && s != [] && Detached(s, marker) && !Occurs(s, a) && FirstAt(s, b, q)
    ensures Replace(a + marker + b, s, marker) == Replace(a, s, marker) + marker + Replace(b, s, marker)
  {
    hide Replace, Detached, Uniform, Occurs;
    FirstAfter(a, marker, b, s, q);
    ReplaceLater(a, marker, b, s, q);
    ReplaceHit(b, s, marker, q);
    ReplaceMiss(a, s, marker);
  }

  lemma ReplaceLater(a: Text, marker: Text, b: Text, s: Text, q: nat)
    requires s != [] && q + |s| <= |b| && FirstAt(s, a + marker + b, |a| + |marker| + q)
    ensures Replace(a + marker + b, s, marker) == a + marker + (b[..q] + marker + Replace(b[q + |s|..], s, marker))
  {
    hide *;
    ReplaceHit(a + marker + b, s, marker, |a| + |marker| + q);
    CutAfter(a, marker, b, q, |s|, Replace(b[q + |s|..], s, marker));
  }

  lemma CutAfter(a: Text, marker: Text, b: Text, q: nat, n: nat, tail: Text)
    requires q + n <= |b|
    ensures var at := |a| + |marker| + q;
            && (a + marker + b)[at + n..] == b[q + n..]
            && (a + marker + b)[..at] + marker + tail == a + marker + (b[..q] + marker + tail)
  {
    assert (a + marker + b)[..|a| + |marker| + q] == a + marker + b[..q];
  }

  lemma GlueText(a: Text, b: Text, c: Text, d: Text, e: Text)
    ensures (a + b + c) + d + e == a + b + (c + d + e)
  {
  }

  // ---- carrying the cuts through one more replacement ----

  /** Cutting one visible stretch at the occurrences of `s`. */
  ghost function Recut(text: Text, s: Text): Cutting
    requires s != []
    decreases |text|
  {
    var p := IndexOf(s, text, 0);
    if p == -1 then Cutting(text, [])
    else
      var rest := Recut(text[p + |s|..], s);
      Cutting(text[..p], [Cut(s, rest.head)] + rest.cuts)
  }

  ghost function RecutAll(head: Text, cuts: seq<Cut>, s: Text): Cutting
    requires s != []
  {
    if cuts == [] then Recut(head, s)
    else
      var front, last := RecutAll(head, cuts[..|cuts| - 1], s), cuts[|cuts| - 1];
      var tail := Recut(last.after, s);
      Cutting(front.head, front.cuts + [Cut(last.secret, tail.head)] + tail.cuts)
  }

  lemma {:induction false} Glue(head: Text, cuts: seq<Cut>, cut: Cut, more: seq<Cut>, marker: Text)
    ensures Flat(head, cuts + [cut] + more) == Flat(head, cuts) + cut.secret + Flat(cut.after, more)
    ensures Shown(head, cuts + [cut] + more, marker) ==
            Shown(head, cuts, marker) + marker + Shown(cut.after, more, marker)
  {
    var all := cuts + [cut] + more;
    if more == [] {
      assert all[..|all| - 1] == cuts && all[|all| - 1] == cut;
    } else {
      var front, last := more[..|more| - 1], more[|more| - 1];
      Glue(head, cuts, cut, front, marker);
      assert all[..|all| - 1] == cuts + [cut] + front && all[|all| - 1] == last;
      GlueText(Flat(head, cuts), cut.secret, Flat(cut.after, front), last.secret, last.after);
      GlueText(Shown(head, cuts, marker), marker, Shown(cut.after, front, marker), marker, last.after);
    }
  }

  lemma RecutStep(text: Text, s: Text)
    requires s != []
    ensures var p := IndexOf(s, text, 0);
            if p == -1 then Recut(text, s) == Cutting(text, [])
            else
              var (front, back) := (text[..p], text[p + |s|..]);
              && text == front + s + back
              && Recut(text, s) == Cutting(front, [Cut(s, Recut(back, s).head)] + Recut(back, s).cuts)
  {
    var p := IndexOf(s, text, 0);
    if p != -1 {
      ThreeSlices(text, p, p + |s|);
    }
  }

  lemma ThreeSlices(text: Text, lo: nat, hi: nat)
    requires lo <= hi <= |text|
    ensures text == text[..lo] + text[lo..hi] + text[hi..]
  {
  }

  lemma {:induction false} RecutShows(text: Text, s: Text, marker: Text)
    requires s != []
    ensures var c := Recut(text, s);
            Flat(c.head, c.cuts) == text && Shown(c.head, c.cuts, marker) == Replace(text, s, marker)
    decreases |text|
  {
    hide Flat, Shown, Replace, Recut;
    var p := IndexOf(s, text, 0);
    RecutStep(text, s);
    ReplaceStep(text, s, marker);
    if p == -1 {
      NothingCut(text, marker);
    } else {
      var rest := Recut(text[p + |s|..], s);
      RecutShows(text[p + |s|..], s, marker);
      CutInFront(text[..p], Cut(s, rest.head), rest.cuts, marker);
    }
  }

  lemma {:induction false} RecutSecrets(text: Text, s: Text, secrets: seq<Text>)
    requires s != [] && s in secrets
    ensures SecretsFrom(Recut(text, s).cuts, secrets)
    decreases |text|
  {
    hide Recut;
    var p := IndexOf(s, text, 0);
    RecutStep(text, s);
    if p != -1 {
      RecutSecrets(text[p + |s|..], s, secrets);
    }
  }

  lemma NothingCut(text: Text, marker: Text)
    ensures Flat(text, []) == text == Shown(text, [], marker)
  {
  }

  lemma CutInFront(head: Text, cut: Cut, more: seq<Cut>, marker: Text)
    ensures Flat(head, [cut] + more) == head + cut.secret + Flat(cut.after, more)
    ensures Shown(head, [cut] + more, marker) == head + marker + Shown(cut.after, more, marker)
  {
    Glue(head, [], cut, more, marker);
    NothingCut(head, marker);
    assert [] + [cut] + more == [cut] + more;
  }

  lemma {:induction false} RecutAllShows(head: Text, cuts: seq<Cut>, s: Text, marker: Text, secrets: seq<Text>)
    requires Uniform(marker) && s != [] && Detached(s, marker) && s in secrets && SecretsFrom(cuts, secrets)
    ensures var c := RecutAll(head, cuts, s);
            && Flat(c.head, c.cuts) == Flat(head, cuts)
            && Shown(c.head, c.cuts, marker) == Replace(Shown(head, cuts, marker), s, marker)
            && SecretsFrom(c.cuts, secrets)
  {
    if cuts == [] {
      RecutShows(head, s, marker);
      RecutSecrets(head, s, secrets);
    } else {
      var before, last := cuts[..|cuts| - 1], cuts[|cuts| - 1];
      var front, tail := RecutAll(head, before, s), Recut(last.after, s);
      var cut := Cut(last.secret, tail.head);
      assert RecutAll(head, cuts, s) == Cutting(front.head, front.cuts + [cut] + tail.cuts);
      assert SecretsFrom(before, secrets);
      LastCut(head, cuts, marker);
      RecutAllShows(head, before, s, marker, secrets);
      RecutShows(last.after, s, marker);
      RecutSecrets(last.after, s, secrets);
      assert SecretsFrom(front.cuts + [cut] + tail.cuts, secrets);
      hide *;
      Glue(front.head, front.cuts, cut, tail.cuts, marker);
      ReplaceAcross(Shown(head, before, marker), marker, last.after, s);
    }
  }

  // ---- which stretches are cut ----

  /** The spans moved on by `d`. */
  ghost function Shift(spans: seq<Span>, d: int): seq<Span> {
    seq(|spans|, k requires 0 <= k < |spans| => Span(spans[k].start + d, spans[k].end + d))
  }

  lemma {:induction false} GlueIntervals(head: Text, cuts: seq<Cut>, cut: Cut, more: seq<Cut>)
    ensures var n := |Flat(head, cuts)|;
            Intervals(head, cuts + [cut] + more) ==
            Intervals(head, cuts) + [Span(n, n + |cut.secret|)] + Shift(Intervals(cut.after, more), n + |cut.secret|)
  {
    var all, n := cuts + [cut] + more, |Flat(head, cuts)|;
    hide Flat, Shift;
    if more == [] {
      assert all[..|all| - 1] == cuts && all[|all| - 1] == cut;
      NothingShifted(n + |cut.secret|);
      var spans := Intervals(head, cuts) + [Span(n, n + |cut.secret|)];
      assert spans + [] == spans;
    } else {
      var front, last := more[..|more| - 1], more[|more| - 1];
      GlueIntervals(head, cuts, cut, front);
      assert all[..|all| - 1] == cuts + [cut] + front && all[|all| - 1] == last;
      Glue(head, cuts, cut, front, []);
      var d, m := n + |cut.secret|, |Flat(cut.after, front)|;
      ShiftLast(Intervals(cut.after, front), m, |last.secret|, d);
      Assoc(Intervals(head, cuts) + [Span(n, d)], Shift(Intervals(cut.after, front), d),
            [Span(m + d, m + |last.secret| + d)]);
    }
  }

  lemma NothingShifted(d: int)
    ensures Shift([], d) == []
  {
  }

  lemma ShiftLast(spans: seq<Span>, n: nat, len: nat, d: int)
    ensures Shift(spans + [Span(n, n + len)], d) == Shift(spans, d) + [Span(n + d, n + len + d)]
  {
  }

  /** The stretch at `p` that spells `s`. */
  function At(p: int, s: Text): Span {
    Span(p, p + |s|)
  }

  ghost predicate Overlaps(a: Span, b: Span) {
    a.start < b.end && b.start < a.end
  }

  /** Every occurrence of `s` is cut, or overlaps one that starts before it and is. */
  ghost predicate Greedy(spans: seq<Span>, text: Text, s: Text) {
    forall p :: OccursAt(s, text, p) ==>
      At(p, s) in spans || exists q :: q < p < q + |s| && OccursAt(s, text, q) && At(q, s) in spans
  }

  lemma OccursAfter(s: Text, text: Text, d: nat, p: int)
    requires d <= |text| && d <= p
    ensures OccursAt(s, text, p) <==> OccursAt(s, text[d..], p - d)
  {
    if p + |s| <= |text| {
      assert text[p..p + |s|] == text[d..][p - d..p - d + |s|];
    }
  }

  lemma InShifted(spans: seq<Span>, d: int, t: Span)
    ensures t in Shift(spans, d) <==> Span(t.start - d, t.end - d) in spans
  {
    if Span(t.start - d, t.end - d) in spans {
      var k :| 0 <= k < |spans| && spans[k] == Span(t.start - d, t.end - d);
      assert Shift(spans, d)[k] == t;
    }
  }

  lemma {:induction false} RecutIsGreedy(text: Text, s: Text)
    requires s != []
    ensures var c := Recut(text, s); Greedy(Intervals(c.head, c.cuts), text, s)
    decreases |text|
  {
    hide Recut, Intervals, OccursAt;
    var c, p0 := Recut(text, s), IndexOf(s, text, 0);
    RecutStep(text, s);
    FirstOccurrence(text, s);
    if p0 != -1 {
      var d := p0 + |s|;
      var rest := Recut(text[d..], s);
      RecutIsGreedy(text[d..], s);
      IntervalsInFront(text[..p0], Cut(s, rest.head), rest.cuts);
      GreedyFurther(Intervals(rest.head, rest.cuts), text, s, p0);
    }
  }

  lemma FirstOccurrence(text: Text, s: Text)
    requires s != []
    ensures var p := IndexOf(s, text, 0);
            && (p == -1 ==> forall q :: !OccursAt(s, text, q))
            && (p != -1 ==> 0 <= p && p + |s| <= |text| && OccursAt(s, text, p))
            && forall q :: OccursAt(s, text, q) ==> p <= q
  {
  }

  lemma IntervalsInFront(head: Text, cut: Cut, more: seq<Cut>)
    ensures var d := |head| + |cut.secret|;
            Intervals(head, [cut] + more) == [Span(|head|, d)] + Shift(Intervals(cut.after, more), d)
  {
    hide *;
    GlueIntervals(head, [], cut, more);
    NoIntervals(head);
    EmptyFront([cut], more);
    var d := |head| + |cut.secret|;
    EmptyFront([Span(|head|, d)], Shift(Intervals(cut.after, more), d));
  }

  lemma EmptyFront<T>(a: seq<T>, b: seq<T>)
    ensures [] + a + b == a + b
  {
    assert [] + a == a;
  }

  lemma NoIntervals(head: Text)
    ensures Flat(head, []) == head && Intervals(head, []) == []
  {
  }

  lemma GreedyFurther(rest: seq<Span>, text: Text, s: Text, p0: nat)
    requires s != [] && p0 + |s| <= |text| && OccursAt(s, text, p0)
    requires forall q :: OccursAt(s, text, q) ==> p0 <= q
    requires Greedy(rest, text[p0 + |s|..], s)
    ensures Greedy([Span(p0, p0 + |s|)] + Shift(rest, p0 + |s|), text, s)
  {
    hide OccursAt, Shift;
    var d := p0 + |s|;
    var spans := [Span(p0, d)] + Shift(rest, d);
    forall p | OccursAt(s, text, p)
      ensures At(p, s) in spans || exists q :: q < p < q + |s| && OccursAt(s, text, q) && At(q, s) in spans
    {
      if p < d {
        assert At(p0, s) in spans;
      } else {
        OccursAfter(s, text, d, p);
        InShifted(rest, d, At(p, s));
        if q :| q < p - d < q + |s| && OccursAt(s, text[d..], q) && At(q, s) in rest {
          OccursWithin(s, text, d, q);
          InShifted(rest, d, At(q + d, s));
          assert At(q + d, s) in spans;
        }
      }
    }
  }

  lemma OccursWithin(s: Text, text: Text, d: nat, q: int)
    requires d <= |text| && OccursAt(s, text[d..], q)
    ensures OccursAt(s, text, q + d)
  {
    OccursAfter(s, text, d, q + d);
  }

  /** Every occurrence of `s` is newly cut, or overlaps an old cut or one of `s` that
      starts before it. */
  ghost predicate Resolves(spans: seq<Span>, was: seq<Span>, text: Text, s: Text) {
    && (forall t :: t in was ==> t in spans)
    && forall p :: OccursAt(s, text, p) ==>
         || At(p, s) in spans
         || (exists t :: t in was && Overlaps(t, At(p, s)))
         || exists q :: q < p < q + |s| && OccursAt(s, text, q) && At(q, s) in spans
  }

  lemma OccursBefore(s: Text, a: Text, b: Text, p: int)
    requires p + |s| <= |a|
    ensures OccursAt(s, a + b, p) <==> OccursAt(s, a, p)
  {
    if 0 <= p {
      assert (a + b)[p..p + |s|] == a[p..p + |s|];
    }
  }

  lemma ResolvesFurther(spans: seq<Span>, was: seq<Span>, a: Text, secret: Text, after: Text, rest: seq<Span>, s: Text)
    requires s != [] && secret != [] && Resolves(spans, was, a, s) && Greedy(rest, after, s)
    ensures var d := |a| + |secret|;
            Resolves(spans + [At(|a|, secret)] + Shift(rest, d), was + [At(|a|, secret)], a + secret + after, s)
  {
    hide OccursAt, Shift, Overlaps;
    var d, text := |a| + |secret|, a + secret + after;
    var now, old' := spans + [At(|a|, secret)] + Shift(rest, d), was + [At(|a|, secret)];
    assert text == a + (secret + after) && text[d..] == after;
    forall p | OccursAt(s, text, p)
      ensures || At(p, s) in now || (exists t :: t in old' && Overlaps(t, At(p, s)))
              || exists q :: q < p < q + |s| && OccursAt(s, text, q) && At(q, s) in now
    {
      if p + |s| <= |a| {
        OccursBefore(s, a, secret + after, p);
        if q :| q < p < q + |s| && OccursAt(s, a, q) && At(q, s) in spans {
          OccursBefore(s, a, secret + after, q);
        } else if t :| t in was && Overlaps(t, At(p, s)) {
          assert t in old';
        }
      } else if d <= p {
        OccursAfter(s, text, d, p);
        InShifted(rest, d, At(p, s));
        if q :| q < p - d < q + |s| && OccursAt(s, after, q) && At(q, s) in rest {
          OccursWithin(s, text, d, q);
          InShifted(rest, d, At(q + d, s));
          assert At(q + d, s) in now;
        }
      } else {
        Meets(|a|, secret, p, s);
        assert At(|a|, secret) in old';
      }
    }
  }

  lemma Meets(n: nat, secret: Text, p: int, s: Text)
    requires n < p + |s| && p < n + |secret| && s != [] && secret != []
    ensures Overlaps(At(n, secret), At(p, s))
  {
  }

  lemma {:induction false} RecutAllResolves(head: Text, cuts: seq<Cut>, s: Text, secrets: seq<Text>)
    requires s != [] && SecretsFrom(cuts, secrets)
    ensures var c := RecutAll(head, cuts, s);
            && |Flat(c.head, c.cuts)| == |Flat(head, cuts)|
            && Resolves(Intervals(c.head, c.cuts), Intervals(head, cuts), Flat(head, cuts), s)
  {
    hide *;
    if cuts == [] {
      FirstRecutResolves(head, s);
    } else {
      var before, last := cuts[..|cuts| - 1], cuts[|cuts| - 1];
      var front, tail := RecutAll(head, before, s), Recut(last.after, s);
      var cut := Cut(last.secret, tail.head);
      LastRecut(head, cuts, s, secrets);
      LastCut(head, cuts, []);
      RecutAllResolves(head, before, s, secrets);
      RecutShows(last.after, s, []);
      RecutIsGreedy(last.after, s);
      Glue(front.head, front.cuts, cut, tail.cuts, []);
      GlueIntervals(front.head, front.cuts, cut, tail.cuts);
      RecutResolves(head, before, last, front, tail, s);
    }
  }

  lemma FirstRecutResolves(head: Text, s: Text)
    requires s != []
    ensures var c := RecutAll(head, [], s);
            && |Flat(c.head, c.cuts)| == |Flat(head, [])|
            && Resolves(Intervals(c.head, c.cuts), Intervals(head, []), Flat(head, []), s)
  {
    hide Recut, OccursAt, Overlaps;
    NoIntervals(head);
    RecutIsGreedy(head, s);
    RecutShows(head, s, []);
    hide Intervals, Flat;
  }

  lemma LastRecut(head: Text, cuts: seq<Cut>, s: Text, secrets: seq<Text>)
    requires s != [] && cuts != [] && SecretsFrom(cuts, secrets)
    ensures var before, last := cuts[..|cuts| - 1], cuts[|cuts| - 1];
            var front, tail := RecutAll(head, before, s), Recut(last.after, s);
            && SecretsFrom(before, secrets) && last.secret != []
            && RecutAll(head, cuts, s) ==
               Cutting(front.head, front.cuts + [Cut(last.secret, tail.head)] + tail.cuts)
  {
    hide Recut;
  }

  lemma RecutResolves(head: Text, before: seq<Cut>, last: Cut, front: Cutting, tail: Cutting, s: Text)
    requires s != [] && last.secret != []
    requires Resolves(Intervals(front.head, front.cuts), Intervals(head, before), Flat(head, before), s)
    requires Greedy(Intervals(tail.head, tail.cuts), last.after, s)
    ensures var n := |Flat(head, before)|;
            var d := n + |last.secret|;
            Resolves(Intervals(front.head, front.cuts) + [Span(n, d)] + Shift(Intervals(tail.head, tail.cuts), d),
                     Intervals(head, before) + [Span(n, d)], Flat(head, before) + last.secret + last.after, s)
  {
    hide *;
    ResolvesFurther(Intervals(front.head, front.cuts), Intervals(head, before), Flat(head, before),
                    last.secret, last.after, Intervals(tail.head, tail.cuts), s);
    AtIsSpan(|Flat(head, before)|, last.secret);
  }

  lemma AtIsSpan(n: nat, secret: Text)
    ensures At(n, secret) == Span(n, n + |secret|)
  {
  }

  /** An occurrence of secret `i` is masked, or overlaps a masked one of an earlier
      secret, or a masked one of the same secret that starts before it. */
  ghost predicate Taken(spans: seq<Span>, text: Text, secrets: seq<Text>, i: int, p: int)
    requires 0 <= i < |secrets|
  {
    var s := secrets[i];
    || At(p, s) in spans
    || (exists j, q :: 0 <= j < i && Masks(spans, text, secrets[j], q) && Overlaps(At(q, secrets[j]), At(p, s)))
    || (exists q :: q < p < q + |s| && Masks(spans, text, s, q))
  }

  ghost predicate Masks(spans: seq<Span>, text: Text, s: Text, q: int) {
    s != [] && OccursAt(s, text, q) && At(q, s) in spans
  }

  /** The first `n` secrets have been masked in their order, each from the left. */
  ghost predicate InTurn(spans: seq<Span>, text: Text, secrets: seq<Text>, n: int)
    requires 0 <= n <= |secrets|
  {
    forall i, p :: 0 <= i < n && secrets[i] != [] && OccursAt(secrets[i], text, p) ==> Taken(spans, text, secrets, i, p)
  }

  lemma NextInTurn(spans: seq<Span>, was: seq<Span>, text: Text, secrets: seq<Text>, n: nat)
    requires n < |secrets| && secrets[n] != [] && InTurn(was, text, secrets, n)
    requires Resolves(spans, was, text, secrets[n])
    requires Disjoint(was, |text|) && Spells(was, text, secrets[..n])
    ensures InTurn(spans, text, secrets, n + 1)
  {
    hide OccursAt, Overlaps;
    forall i, p | 0 <= i < n + 1 && secrets[i] != [] && OccursAt(secrets[i], text, p)
      ensures Taken(spans, text, secrets, i, p)
    {
      var s := secrets[i];
      if i < n {
        StillTaken(spans, was, text, secrets, i, p);
      } else if t :| t in was && Overlaps(t, At(p, s)) {
        var j := SpelledBy(was, text, secrets, n, t);
        assert Masks(spans, text, secrets[j], t.start);
      } else if q :| q < p < q + |s| && OccursAt(s, text, q) && At(q, s) in spans {
        assert Masks(spans, text, s, q);
      }
    }
  }

  lemma StillTaken(spans: seq<Span>, was: seq<Span>, text: Text, secrets: seq<Text>, i: nat, p: int)
    requires i < |secrets| && Taken(was, text, secrets, i, p) && forall t :: t in was ==> t in spans
    ensures Taken(spans, text, secrets, i, p)
  {
    hide OccursAt, Overlaps;
    var s := secrets[i];
    if At(p, s) !in was {
      if j, q :| 0 <= j < i && Masks(was, text, secrets[j], q) && Overlaps(At(q, secrets[j]), At(p, s)) {
        assert Masks(spans, text, secrets[j], q);
      } else {
        var q :| q < p < q + |s| && Masks(was, text, s, q);
        assert Masks(spans, text, s, q);
      }
    }
  }

  /** A span spells one of the secrets so far, and is where it does. */
  lemma SpelledBy(spans: seq<Span>, text: Text, secrets: seq<Text>, n: nat, t: Span) returns (j: nat)
    requires n <= |secrets| && Disjoint(spans, |text|) && Spells(spans, text, secrets[..n]) && t in spans
    ensures j < n && secrets[j] != [] && OccursAt(secrets[j], text, t.start) && t == At(t.start, secrets[j])
  {
    var k :| 0 <= k < |spans| && spans[k] == t;
    var part := text[t.start..t.end];
    assert part in secrets[..n];
    j :| 0 <= j < n && secrets[..n][j] == part;
  }

  lemma FewerSecrets(cuts: seq<Cut>, secrets: seq<Text>, n: nat)
    requires n < |secrets| && SecretsFrom(cuts, secrets[..n])
    ensures SecretsFrom(cuts, secrets[..n + 1])
  {
    forall s | s in secrets[..n] ensures s in secrets[..n + 1] {
      var k :| 0 <= k < n && secrets[..n][k] == s;
      assert secrets[..n + 1][k] == s;
    }
  }

  lemma SkipEmpty(spans: seq<Span>, text: Text, secrets: seq<Text>, n: nat)
    requires n < |secrets| && secrets[n] == [] && InTurn(spans, text, secrets, n)
    ensures InTurn(spans, text, secrets, n + 1)
  {
    hide Taken;
  }

  /** All the secrets in turn, as cuts of the original text. */
  lemma {:induction false} MaskAllIsACutting(head: Text, cuts: seq<Cut>, n: nat, marker: Text, secrets: seq<Text>)
    returns (c: Cutting)
    requires Uniform(marker) && n <= |secrets| && SecretsFrom(cuts, secrets[..n])
    requires forall s :: s in secrets && s != [] ==> Detached(s, marker)
    requires InTurn(Intervals(head, cuts), Flat(head, cuts), secrets, n)
    ensures Flat(c.head, c.cuts) == Flat(head, cuts) && SecretsFrom(c.cuts, secrets)
    ensures Shown(c.head, c.cuts, marker) == MaskAll(Shown(head, cuts, marker), secrets[n..], marker)
    ensures InTurn(Intervals(c.head, c.cuts), Flat(head, cuts), secrets, |secrets|)
    decreases |secrets| - n
  {
    hide InTurn, SecretsFrom, Flat, Shown, Intervals, Detached, RecutAll;
    if n == |secrets| {
      assert secrets[..n] == secrets && secrets[n..] == [];
      c := Cutting(head, cuts);
    } else {
      assert secrets[n..][0] == secrets[n] && secrets[n..][1..] == secrets[n + 1..];
      FewerSecrets(cuts, secrets, n);
      if secrets[n] == [] {
        SkipEmpty(Intervals(head, cuts), Flat(head, cuts), secrets, n);
        c := MaskAllIsACutting(head, cuts, n + 1, marker, secrets);
      } else {
        var next := RecutAll(head, cuts, secrets[n]);
        assert secrets[n] in secrets && secrets[..n + 1][n] == secrets[n];
        RecutAllShows(head, cuts, secrets[n], marker, secrets[..n + 1]);
        RecutAllResolves(head, cuts, secrets[n], secrets[..n]);
        IntervalsAreDisjoint(head, cuts, secrets[..n]);
        NextInTurn(Intervals(next.head, next.cuts), Intervals(head, cuts), Flat(head, cuts), secrets, n);
        c := MaskAllIsACutting(next.head, next.cuts, n + 1, marker, secrets);
      }
    }
  }
}
