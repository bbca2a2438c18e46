/** The two maskers agree: substituting secrets one after another is one
    simultaneous offset masking of the original text. */
module MaskersAgree {
  import opened Utf16
  import opened OffsetMasking
  import opened SubstringMasking
  import opened SecretCuts
  import opened Filters
  import StableSort

  // ---- masking the intervals of a cutting shows the cutting ----

  lemma OwnersWithLast(spans: seq<Span>, n: nat, len: nat)
    requires Disjoint(spans, n)
    ensures forall i :: Owner(spans + [Span(n, n + len)], i) ==
                        if i < n then Owner(spans, i) else if i < n + len then |spans| else -1
  {
    forall i
      ensures Owner(spans + [Span(n, n + len)], i) ==
              if i < n then Owner(spans, i) else if i < n + len then |spans| else -1
    {
      OwnerOfSnoc(spans, Span(n, n + len), i);
    }
  }

  lemma {:induction false} CuttingIsMasked(head: Text, cuts: seq<Cut>, text: Text, marker: Text, secrets: seq<Text>)
    requires SecretsFrom(cuts, secrets) && Flat(head, cuts) <= text
    ensures Spell(text, marker, Pieces(Intervals(head, cuts), |Flat(head, cuts)|)) == Shown(head, cuts, marker)
  {
    hide Spell, Pieces, PieceAt, Owner, Flat, Shown, Intervals;
    if cuts == [] {
      NoCut(head, text, marker);
    } else {
      var front, last := cuts[..|cuts| - 1], cuts[|cuts| - 1];
      LastCut(head, cuts, marker);
      PrefixParts(Flat(head, front), last.secret, last.after, text);
      CuttingIsMasked(head, front, text, marker, secrets);
      IntervalsAreDisjoint(head, front, secrets);
      NextCutIsMasked(text, last, marker, Intervals(head, front), |Flat(head, front)|);
    }
  }

  lemma NoCut(head: Text, text: Text, marker: Text)
    requires Flat(head, []) <= text
    ensures Spell(text, marker, Pieces(Intervals(head, []), |Flat(head, [])|)) == Shown(head, [], marker)
  {
    UncoveredRun(text, marker, [], 0, |head|);
  }

  lemma PrefixParts(a: Text, b: Text, c: Text, text: Text)
    requires a + b + c <= text
    ensures a <= text && |a| + |b| + |c| <= |text|
    ensures text[|a| + |b|..|a| + |b| + |c|] == c
  {
    assert text[..|a|] == (a + b + c)[..|a|];
    assert text[|a| + |b|..|a| + |b| + |c|] == (a + b + c)[|a| + |b|..];
  }

  lemma NextCutIsMasked(text: Text, cut: Cut, marker: Text, spans: seq<Span>, n: nat)
    requires Disjoint(spans, n) && cut.secret != [] && n + |cut.secret| + |cut.after| <= |text|
    requires text[n + |cut.secret|..n + |cut.secret| + |cut.after|] == cut.after
    ensures Spell(text, marker, Pieces(spans + [Span(n, n + |cut.secret|)], n + |cut.secret| + |cut.after|)) ==
            Spell(text, marker, Pieces(spans, n)) + marker + cut.after
  {
    hide *;
    SpellSnoc(text, marker, Pieces(spans, n), Mark);
    NextCutSpelled(text, marker, spans, n, |cut.secret|, |cut.after|);
  }

  lemma NextCutSpelled(text: Text, marker: Text, spans: seq<Span>, n: nat, len: nat, more: nat)
    requires Disjoint(spans, n) && len > 0 && n + len + more <= |text|
    ensures Spell(text, marker, Pieces(spans + [Span(n, n + len)], n + len + more)) ==
            Spell(text, marker, Pieces(spans, n) + [Mark]) + text[n + len..n + len + more]
  {
    hide *;
    NextCutPieces(spans, n, len);
    UncoveredRun(text, marker, spans + [Span(n, n + len)], n + len, n + len + more);
  }

  lemma NextCutPieces(spans: seq<Span>, n: nat, len: nat)
    requires Disjoint(spans, n) && len > 0
    ensures Pieces(spans + [Span(n, n + len)], n + len) == Pieces(spans, n) + [Mark]
    ensures var now := spans + [Span(n, n + len)]; forall i :: n + len <= i ==> Owner(now, i) == -1
  {
    var now := spans + [Span(n, n + len)];
    hide Pieces, PieceAt;
    OwnersWithLast(spans, n, len);
    SamePieces(now, spans, n);
    OwnedRun(now, |spans|, n, n + len);
  }

  lemma SortedAlready(spans: seq<Span>, n: nat)
    requires Disjoint(spans, n)
    ensures StableSort.Sort(ByStart, spans) == spans
  {
    StableSort.SortIsStable(ByStart, spans);
    StableSort.StableSortIsUnique(ByStart, StableSort.Sort(ByStart, spans), spans);
  }

  /** Masking the secrets one by one is masking, all at once, some pairwise disjoint
      stretches of the original text that each spell one of the secrets: every
      occurrence of a secret, unless an earlier secret, or the same one further left,
      was there first. */
  lemma SecretMaskingIsSpanMasking(text: Text, secrets: seq<Text>, marker: Text) returns (spans: seq<Span>)
    requires Uniform(marker)
    requires forall s :: s in secrets && s != [] ==> Detached(s, marker)
    ensures Disjoint(spans, |text|) && Spells(spans, text, secrets)
    ensures forall i, p :: 0 <= i < |secrets| && secrets[i] != [] && OccursAt(secrets[i], text, p) ==>
              Taken(spans, text, secrets, i, p)
    ensures MaskAll(text, secrets, marker) == Spell(text, marker, Masked(text, spans))
  {
    NoIntervals(text);
    assert secrets[0..] == secrets;
    var c := MaskAllIsACutting(text, [], 0, marker, secrets);
    hide Taken;
    spans := Intervals(c.head, c.cuts);
    IntervalsAreDisjoint(c.head, c.cuts, secrets);
    assert text[..|text|] == text;
    CuttingIsMasked(c.head, c.cuts, text, marker, secrets);
    SortedAlready(spans, |text|);
  }

  lemma OverlapIsEqual(spans: seq<Span>, n: nat, t: Span, u: Span)
    requires Disjoint(spans, n) && t in spans && u in spans && Overlaps(t, u)
    ensures t == u
  {
    var k :| 0 <= k < |spans| && spans[k] == t;
    var l :| 0 <= l < |spans| && spans[l] == u;
  }

  /** The spans are the only ones: what one such list masks, so does another. */
  lemma {:induction false} MaskedInBoth(a: seq<Span>, b: seq<Span>, text: Text, secrets: seq<Text>, i: nat, p: int)
    requires Disjoint(a, |text|) && Disjoint(b, |text|)
    requires InTurn(a, text, secrets, |secrets|) && InTurn(b, text, secrets, |secrets|)
    requires i < |secrets| && Masks(a, text, secrets[i], p)
    ensures At(p, secrets[i]) in b
    decreases i, p
  {
    var s := secrets[i];
    assert Taken(b, text, secrets, i, p);
    hide InTurn, Taken, Disjoint, OccursAt;
    OccursFits(s, text, p);
    if At(p, s) !in b {
      if j, q :| 0 <= j < i && Masks(b, text, secrets[j], q) && Overlaps(At(q, secrets[j]), At(p, s)) {
        MaskedInBoth(b, a, text, secrets, j, q);
        OverlapIsEqual(a, |text|, At(q, secrets[j]), At(p, s));
      } else {
        var q := MaskedBefore(b, text, secrets, i, p);
        OccursFits(s, text, q);
        MaskedInBoth(b, a, text, secrets, i, q);
        OverlapIsEqual(a, |text|, At(q, s), At(p, s));
      }
    }
  }

  lemma OccursFits(s: Text, text: Text, p: int)
    requires OccursAt(s, text, p)
    ensures 0 <= p
  {
  }

  lemma MaskedBefore(spans: seq<Span>, text: Text, secrets: seq<Text>, i: nat, p: int) returns (q: int)
    requires i < |secrets| && Taken(spans, text, secrets, i, p) && At(p, secrets[i]) !in spans
    requires forall j, q :: 0 <= j < i && Masks(spans, text, secrets[j], q) ==>
               !Overlaps(At(q, secrets[j]), At(p, secrets[i]))
    ensures q < p < q + |secrets[i]| && Masks(spans, text, secrets[i], q)
  {
    hide Masks, Overlaps;
    q :| q < p < q + |secrets[i]| && Masks(spans, text, secrets[i], q);
  }

  /** Disjoint stretches that spell the secrets and take every occurrence in turn are
      determined by the text and the list of secrets. */
  lemma SpansAreDetermined(a: seq<Span>, b: seq<Span>, text: Text, secrets: seq<Text>)
    requires Disjoint(a, |text|) && Spells(a, text, secrets) && InTurn(a, text, secrets, |secrets|)
    requires Disjoint(b, |text|) && Spells(b, text, secrets) && InTurn(b, text, secrets, |secrets|)
    ensures forall t :: t in a <==> t in b
  {
    assert secrets[..|secrets|] == secrets;
    forall t ensures t in a <==> t in b {
      hide InTurn, Disjoint, Spells;
      if t in a {
        var j := SpelledBy(a, text, secrets, |secrets|, t);
        MaskedInBoth(a, b, text, secrets, j, t.start);
      } else if t in b {
        var j := SpelledBy(b, text, secrets, |secrets|, t);
        MaskedInBoth(b, a, text, secrets, j, t.start);
      }
    }
  }

  // ---- the secrets of a transcript ----

  /** `content.slice(start, end)` (section 15.5.4.13 of ECMA-262 5.1). */
  function Slice(content: Text, start: int, end: int): Text {
    var n := |content|;
    var lo := if start < 0 then Max(n + start, 0) else Min(start, n);
    var hi := if end < 0 then Max(n + end, 0) else Min(end, n);
    if lo < hi then content[lo..hi] else []
  }

  function NotEmpty(): Text -> bool {
    (s: Text) => s != []
  }

  function Slices(content: Text, spans: seq<Span>): seq<Text> {
    seq(|spans|, k requires 0 <= k < |spans| => Slice(content, spans[k].start, spans[k].end))
  }

  /** `spans.map((s) => content.slice(s.start, s.end)).filter(Boolean)`. */
  function SecretsOf(content: Text, spans: seq<Span>): seq<Text> {
    Filter(NotEmpty(), Slices(content, spans))
  }

  /** The secrets are the texts under the spans that are not empty, in the order of
      the spans. */
  lemma SecretsInOrder(content: Text, spans: seq<Span>) returns (at: seq<nat>)
    ensures |at| == |SecretsOf(content, spans)|
    ensures forall k :: 0 <= k < |at| ==>
              at[k] < |spans| && SecretsOf(content, spans)[k] == Slice(content, spans[at[k]].start, spans[at[k]].end)
    ensures forall k, l :: 0 <= k < l < |at| ==> at[k] < at[l]
    ensures forall j :: 0 <= j < |spans| ==> (j in at <==> Slice(content, spans[j].start, spans[j].end) != [])
  {
    hide Slice, Filter;
    at := FilterPicks(NotEmpty(), Slices(content, spans));
    assert forall j :: 0 <= j < |spans| ==>
      NotEmpty()(Slices(content, spans)[j]) == (Slice(content, spans[j].start, spans[j].end) != []);
  }

  lemma SpanIsListed(content: Text, spans: seq<Span>, k: nat)
    requires k < |spans| && Slice(content, spans[k].start, spans[k].end) != []
    ensures Slice(content, spans[k].start, spans[k].end) in SecretsOf(content, spans)
  {
    hide Slice, SecretsOf;
    var at := SecretsInOrder(content, spans);
    var i :| 0 <= i < |at| && at[i] == k;
  }

  lemma MarkerIsSixBullets()
    ensures MARKER == seq(6, _ => 0x2022)
  {
  }

  /** Within the content a span's secret is the text under it; negative ends count
      from the end, and ends beyond it are cut. */
  lemma SliceIsTextUnderSpan(content: Text, start: int, end: int)
    ensures 0 <= start <= end <= |content| ==> Slice(content, start, end) == content[start..end]
    ensures end < start && (start >= 0) == (end >= 0) ==> Slice(content, start, end) == []
    ensures -|content| <= start < 0 ==> Slice(content, start, end) == Slice(content, |content| + start, end)
    ensures -|content| <= end < 0 ==> Slice(content, start, end) == Slice(content, start, |content| + end)
    ensures start < -|content| ==> Slice(content, start, end) == Slice(content, 0, end)
    ensures end > |content| ==> Slice(content, start, end) == Slice(content, start, |content|)
    ensures start > |content| || end < -|content| ==> Slice(content, start, end) == []
  {
  }

  /** Whatever text the speaker view re-joins, the sensitive part of the content
      under a span never shows in it, as long as that part is detached. */
  lemma SpeakerViewHidesSpans(content: Text, spans: seq<Span>, view: Text, k: nat)
    requires k < |spans|
    requires var s := Slice(content, spans[k].start, spans[k].end); s != [] && Detached(s, MARKER)
    ensures !Occurs(Slice(content, spans[k].start, spans[k].end), MaskAll(view, SecretsOf(content, spans), MARKER))
  {
    var s := Slice(content, spans[k].start, spans[k].end);
    SpanIsListed(content, spans, k);
    DetachedSecretsAreGone(view, SecretsOf(content, spans), MARKER, s);
  }
}
