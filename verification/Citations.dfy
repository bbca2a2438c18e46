/** Inline `[n]` citation markers in a chat answer
    (apps/web/src/pages/ChatPage.tsx, `AnswerText`). */
module Citations {
  import opened Utf16
  import opened Digits

  const OPEN: CodeUnit := 0x5B
  const CLOSE: CodeUnit := 0x5D

  /** `v[p..e]` matches `\[\d{1,3}\]`. */
  predicate GroupAt(v: Text, p: int, e: int) {
    && 0 <= p && p + 3 <= e <= p + 5 && e <= |v|
    && v[p] == OPEN && v[e - 1] == CLOSE
    && forall k :: p < k < e - 1 ==> IsDigit(v[k])
  }

  /** Where the group starting at `p` ends, or -1. */
  function GroupEnd(v: Text, p: nat): (e: int)
    ensures e != -1 ==> GroupAt(v, p, e)
    ensures e == -1 ==> forall x :: !GroupAt(v, p, x)
    ensures forall x :: GroupAt(v, p, x) ==> x == e
  {
    if GroupAt(v, p, p + 3) then p + 3
    else if GroupAt(v, p, p + 4) then p + 4
    else if GroupAt(v, p, p + 5) then p + 5
    else
      assert forall x :: GroupAt(v, p, x) ==> x == p + 3 || x == p + 4 || x == p + 5;
      -1
  }

  /** An identifier character, `]` or `)`. */
  predicate Blocks(c: CodeUnit) {
    0x41 <= c <= 0x5A || 0x61 <= c <= 0x7A || IsDigit(c) || c == 0x5F || c == CLOSE || c == 0x29
  }

  /** The lookbehind fails. */
  predicate Blocked(v: Text, p: nat)
    requires p <= |v|
  {
    p > 0 && Blocks(v[p - 1])
  }

  /** The end of the longest run of groups starting at `p`. */
  function RunEnd(v: Text, p: nat): (e: nat)
    requires p <= |v|
    ensures p <= e <= |v| && GroupEnd(v, e) == -1
    ensures e > p <==> GroupEnd(v, p) != -1
    decreases |v| - p
  {
    if GroupEnd(v, p) == -1 then p else RunEnd(v, GroupEnd(v, p))
  }

  /** The splitting regex matches at `p`. */
  predicate RunStarts(v: Text, p: nat)
    requires p <= |v|
  {
    GroupEnd(v, p) != -1 && !Blocked(v, p)
  }

  function NextRun(v: Text, lo: nat): (q: int)
    requires lo <= |v|
    ensures q == -1 || (lo <= q < |v| && RunStarts(v, q))
    ensures forall p :: lo <= p <= |v| && (q == -1 || p < q) ==> !RunStarts(v, p)
    decreases |v| - lo
  {
    if RunStarts(v, lo) then lo
    else if lo == |v| then -1
    else NextRun(v, lo + 1)
  }

  /** The captured stretches of the answer. */
  function Runs(v: Text, last: nat): seq<(nat, nat)>
    requires last <= |v|
    decreases |v| - last
  {
    var q := NextRun(v, last);
    if q == -1 then [] else [(q, RunEnd(v, q))] + Runs(v, RunEnd(v, q))
  }

  /** `content.split(/(...)/g)`: text and captured separators alternate
      (section 15.5.4.14 of ECMA-262 5.1). */
  function SplitFrom(v: Text, last: nat): seq<Text>
    requires last <= |v|
    decreases |v| - last
  {
    var q := NextRun(v, last);
    if q == -1 then [v[last..]]
    else [v[last..q], v[q..RunEnd(v, q)]] + SplitFrom(v, RunEnd(v, q))
  }

  function Flatten(parts: seq<Text>): Text {
    if parts == [] then [] else parts[0] + Flatten(parts[1..])
  }

  /** The language of `(?:\[\d{1,3}\])*`. */
  ghost predicate Groups(s: Text)
    decreases |s|
  {
    s == [] || exists k :: 0 <= k <= |s| && GroupAt(s, 0, k) && Groups(s[k..])
  }

  /** The whole-part re-test `/^(?:\[\d{1,3}\])+$/`. */
  ghost predicate Retest(part: Text) {
    part != [] && Groups(part)
  }

  // ---- the two regexes agree ----

  lemma GroupInSlice(v: Text, lo: nat, hi: nat, p: int, e: int)
    requires lo <= hi <= |v|
    ensures GroupAt(v[lo..hi], p, e) <==> 0 <= p && lo + e <= hi && GroupAt(v, lo + p, lo + e)
  {
    if 0 <= p && p + 3 <= e && lo + e <= hi {
      forall k | p <= k < e ensures v[lo..hi][k] == v[lo + k] {}
      forall k | lo + p <= k < lo + e ensures v[k] == v[lo..hi][k - lo] {}
    }
  }

  lemma {:induction false} RunIsGroups(v: Text, p: nat)
    requires p <= |v|
    ensures Groups(v[p..RunEnd(v, p)])
    decreases |v| - p
  {
    var e, end := GroupEnd(v, p), RunEnd(v, p);
    if e != -1 {
      RunIsGroups(v, e);
      GroupInSlice(v, p, end, 0, e - p);
      assert v[p..end][e - p..] == v[e..end];
    }
  }

  /** A non-empty stretch of groups begins with a group. */
  lemma {:induction false} GroupsStartRun(v: Text, lo: nat, hi: nat)
    requires lo < hi <= |v| && Groups(v[lo..hi])
    ensures GroupEnd(v, lo) != -1
  {
    var k :| 0 <= k <= hi - lo && GroupAt(v[lo..hi], 0, k) && Groups(v[lo..hi][k..]);
    GroupInSlice(v, lo, hi, 0, k);
  }

  /** The split loses nothing, and a part passes the re-test exactly when the split
      captured it: text parts and captured parts are never confused. */
  lemma {:induction false} SplitClassifies(v: Text, last: nat)
    requires last <= |v| && (last == 0 || GroupEnd(v, last) == -1)
    ensures Flatten(SplitFrom(v, last)) == v[last..]
    ensures forall i :: 0 <= i < |SplitFrom(v, last)| ==> (Retest(SplitFrom(v, last)[i]) <==> i % 2 == 1)
    decreases |v| - last
  {
    hide Groups, GroupEnd, RunEnd, NextRun, Retest, Flatten;
    var q := NextRun(v, last);
    if q == -1 {
      TextFailsRetest(v, last, |v|);
      assert v[last..|v|] == v[last..];
      FlattenOne(v[last..]);
    } else {
      var e := RunEnd(v, q);
      SplitClassifies(v, e);
      TextFailsRetest(v, last, q);
      RunIsGroups(v, q);
      FlattenTwo(v[last..q], v[q..e], SplitFrom(v, e));
      SliceSplit(v, last, q);
      SliceSplit(v, q, e);
      GroupsAreRetested(v[q..e]);
      Alternate(v[last..q], v[q..e], SplitFrom(v, e));
    }
  }

  lemma Alternate(a: Text, b: Text, rest: seq<Text>)
    requires !Retest(a) && Retest(b)
    requires forall i :: 0 <= i < |rest| ==> (Retest(rest[i]) <==> i % 2 == 1)
    ensures var parts := [a, b] + rest; forall i :: 0 <= i < |parts| ==> (Retest(parts[i]) <==> i % 2 == 1)
  {
    hide Retest;
    var parts := [a, b] + rest;
    forall i | 0 <= i < |parts| ensures Retest(parts[i]) <==> i % 2 == 1 {
      if i >= 2 { assert parts[i] == rest[i - 2]; }
    }
  }

  lemma GroupsAreRetested(part: Text)
    requires part != [] && Groups(part)
    ensures Retest(part)
  {
    hide Groups;
  }

  lemma FlattenOne(a: Text)
    ensures Flatten([a]) == a
  {
    assert [a][1..] == [];
  }

  lemma FlattenTwo(a: Text, b: Text, rest: seq<Text>)
    ensures Flatten([a, b] + rest) == a + (b + Flatten(rest))
  {
    assert ([a, b] + rest)[1..] == [b] + rest;
    assert ([b] + rest)[1..] == rest;
  }

  lemma TextFailsRetest(v: Text, last: nat, q: nat)
    requires last <= q <= |v| && (last == 0 || GroupEnd(v, last) == -1)
    requires forall p :: last <= p < q ==> !RunStarts(v, p)
    ensures !Retest(v[last..q])
  {
    assert last < q ==> !RunStarts(v, last);
    if last < q && Groups(v[last..q]) {
      GroupsStartRun(v, last, q);
    }
  }

  // ---- which markers are citations ----

  /** A group is a citation if the lookbehind allows it, or if it directly follows
      a group that is one. */
  ghost predicate Cited(v: Text, p: nat)
    requires p <= |v|
    decreases p
  {
    GroupEnd(v, p) != -1 && (!Blocked(v, p) || exists q :: 0 <= q < p && GroupAt(v, q, p) && Cited(v, q))
  }

  /** `v[p..e]` is a marker, character by character: a bracket, one to three digits,
      a bracket. */
  ghost predicate MarkerAt(v: Text, p: int, e: int) {
    && 0 <= p && p + 3 <= e <= p + 5 && e <= |v|
    && v[p] == '[' as int && v[e - 1] == ']' as int
    && forall k :: p < k < e - 1 ==> '0' as int <= v[k] <= '9' as int
  }

  /** The characters that make a bracket an index and no citation. */
  ghost predicate Indexes(c: CodeUnit) {
    || 'A' as int <= c <= 'Z' as int || 'a' as int <= c <= 'z' as int || '0' as int <= c <= '9' as int
    || c == '_' as int || c == ']' as int || c == ')' as int
  }

  /** A citation: a marker at the start, or after a character that does not make it
      an index, or directly after a citation. */
  ghost predicate CitationAt(v: Text, p: nat)
    requires p <= |v|
    decreases p
  {
    && (exists e :: MarkerAt(v, p, e))
    && (p == 0 || !Indexes(v[p - 1]) || exists q :: 0 <= q < p && MarkerAt(v, q, p) && CitationAt(v, q))
  }

  lemma MarkersAreGroups(v: Text, p: int, e: int)
    ensures MarkerAt(v, p, e) <==> GroupAt(v, p, e)
  {
  }

  lemma MarkerEnds(v: Text, p: nat)
    ensures (exists e :: MarkerAt(v, p, e)) <==> GroupEnd(v, p) != -1
  {
    MarkersAreGroups(v, p, GroupEnd(v, p));
    if e :| MarkerAt(v, p, e) {
      MarkersAreGroups(v, p, e);
    }
    hide MarkerAt;
  }

  lemma {:induction false} CitationsAreCited(v: Text, p: nat)
    requires p <= |v|
    ensures CitationAt(v, p) <==> Cited(v, p)
    decreases p
  {
    MarkerEnds(v, p);
    forall q | 0 <= q < p
      ensures MarkerAt(v, q, p) && CitationAt(v, q) <==> GroupAt(v, q, p) && Cited(v, q)
    {
      MarkersAreGroups(v, q, p);
      CitationsAreCited(v, q);
    }
    hide MarkerAt, GroupAt, GroupEnd;
  }

  ghost predicate Captured(runs: seq<(nat, nat)>, p: nat) {
    exists k :: 0 <= k < |runs| && runs[k].0 <= p < runs[k].1
  }

  /** Inside a run, an opening bracket starts a group of the run. */
  lemma {:induction false} RunMembersAreCited(v: Text, q: nat, p: nat)
    requires q <= p <= |v| && Cited(v, q) && p < RunEnd(v, q) && v[p] == OPEN
    ensures Cited(v, p)
    decreases |v| - q
  {
    var e := GroupEnd(v, q);
    if p != q {
      assert GroupAt(v, q, e);
      assert e <= p;
      RunMembersAreCited(v, e, p);
    }
  }

  lemma {:induction false} RunReachesOn(v: Text, s: nat, q: nat, p: nat)
    requires s <= |v| && s <= q < RunEnd(v, s) && q < p <= |v| && GroupAt(v, q, p) && GroupEnd(v, p) != -1
    ensures p < RunEnd(v, s)
    decreases |v| - s
  {
    var e := GroupEnd(v, s);
    if s == q {
      assert e == p;
    } else {
      assert GroupAt(v, s, e);
      assert e <= q;
      RunReachesOn(v, e, q, p);
    }
  }

  lemma {:induction false} RunsAreMaximal(v: Text, last: nat, k: nat)
    requires last <= |v| && k < |Runs(v, last)|
    ensures var (q, e) := Runs(v, last)[k];
            last <= q < e <= |v| && RunStarts(v, q) && e == RunEnd(v, q)
    decreases |v| - last
  {
    var q := NextRun(v, last);
    if k > 0 {
      RunsAreMaximal(v, RunEnd(v, q), k - 1);
    }
  }

  lemma {:induction false} StartIsCaptured(v: Text, last: nat, p: nat)
    requires last <= p <= |v| && RunStarts(v, p)
    ensures Captured(Runs(v, last), p)
    decreases |v| - last
  {
    var q := NextRun(v, last);
    var e, runs := RunEnd(v, q), Runs(v, last);
    if p < e {
      assert runs[0] == (q, e);
    } else {
      StartIsCaptured(v, e, p);
      var k :| 0 <= k < |Runs(v, e)| && Runs(v, e)[k].0 <= p < Runs(v, e)[k].1;
      assert runs[k + 1] == Runs(v, e)[k];
    }
  }

  lemma {:induction false} CitedIsCaptured(v: Text, p: nat)
    requires p <= |v| && Cited(v, p)
    ensures Captured(Runs(v, 0), p)
    decreases p
  {
    if !Blocked(v, p) {
      StartIsCaptured(v, 0, p);
    } else {
      var q :| 0 <= q < p && GroupAt(v, q, p) && Cited(v, q);
      CitedIsCaptured(v, q);
      var k :| 0 <= k < |Runs(v, 0)| && Runs(v, 0)[k].0 <= q < Runs(v, 0)[k].1;
      RunsAreMaximal(v, 0, k);
      RunReachesOn(v, Runs(v, 0)[k].0, q, p);
    }
  }

  /** The split captures a marker exactly when it is a citation: `data[3]` and
      `arr[1][2]` stay text, and every other marker becomes a chip. */
  lemma CapturedExactlyWhenCited(v: Text, p: nat)
    requires p <= |v| && exists e :: MarkerAt(v, p, e)
    ensures Captured(Runs(v, 0), p) <==> CitationAt(v, p)
  {
    MarkerEnds(v, p);
    CitationsAreCited(v, p);
    hide MarkerAt, CitationAt;
    if Cited(v, p) {
      CitedIsCaptured(v, p);
    }
    if Captured(Runs(v, 0), p) {
      var k :| 0 <= k < |Runs(v, 0)| && Runs(v, 0)[k].0 <= p < Runs(v, 0)[k].1;
      RunsAreMaximal(v, 0, k);
      var q := Runs(v, 0)[k].0;
      RunMembersAreCited(v, q, p);
    }
  }

  // ---- what the reader sees ----

  datatype Citation = Citation(marker: nat, itemId: Text)

  /** `new Map(citations.map((c) => [c.marker, c]))`: the last one wins. */
  function ByMarker(citations: seq<Citation>): (m: map<nat, Citation>)
    ensures forall k :: k in m ==> m[k].marker == k
  {
    if citations == [] then map[]
    else
      var last := citations[|citations| - 1];
      ByMarker(citations[..|citations| - 1])[last.marker := last]
  }

  datatype Shown = Plain(text: Text) | Link(citation: Citation)

  function Bracketed(n: nat): Text {
    [OPEN] + Decimal(n) + [CLOSE]
  }

  function ShownText(shown: seq<Shown>): Text {
    if shown == [] then []
    else
      (match shown[0]
       case Plain(text) => text
       case Link(citation) => Bracketed(citation.marker)) + ShownText(shown[1..])
  }

  function DigitsAt(v: Text, p: nat, e: nat): Text
    requires GroupAt(v, p, e)
  {
    v[p + 1..e - 1]
  }

  function ShowMarker(n: nat, byMarker: map<nat, Citation>): Shown {
    if n in byMarker then Link(byMarker[n]) else Plain(Bracketed(n))
  }

  /** `part.matchAll(/\[(\d{1,3})\]/g)` from position `lo`, each match shown as a
      link if its number has a citation. */
  function ShowMarkers(part: Text, lo: nat, byMarker: map<nat, Citation>): seq<Shown>
    decreases |part| - lo
  {
    if lo >= |part| then []
    else
      var e := GroupEnd(part, lo);
      if e == -1 then ShowMarkers(part, lo + 1, byMarker)
      else [ShowMarker(Number(DigitsAt(part, lo, e)), byMarker)] + ShowMarkers(part, e, byMarker)
  }

  ghost function ShowPart(part: Text, byMarker: map<nat, Citation>): seq<Shown> {
    if !Retest(part) then [Plain(part)] else ShowMarkers(part, 0, byMarker)
  }

  ghost function ShowParts(parts: seq<Text>, byMarker: map<nat, Citation>): seq<Shown> {
    if parts == [] then [] else ShowPart(parts[0], byMarker) + ShowParts(parts[1..], byMarker)
  }

  ghost function AnswerText(content: Text, citations: seq<Citation>): seq<Shown> {
    ShowParts(SplitFrom(content, 0), ByMarker(citations))
  }

  lemma {:induction false} ShownTextAppend(a: seq<Shown>, b: seq<Shown>)
    ensures ShownText(a + b) == ShownText(a) + ShownText(b)
  {
    hide Bracketed;
    if a == [] {
      assert a + b == b;
    } else {
      ShownTextAppend(a[1..], b);
      assert (a + b)[1..] == a[1..] + b && (a + b)[0] == a[0];
      var head := match a[0] case Plain(text) => text case Link(citation) => Bracketed(citation.marker);
      Assoc(head, ShownText(a[1..]), ShownText(b));
    }
  }

  /** The group at `p`, if there is one, has no superfluous leading zero. */
  ghost predicate PlainAt(v: Text, p: nat) {
    GroupEnd(v, p) != -1 ==> !LeadingZero(DigitsAt(v, p, GroupEnd(v, p)))
  }

  lemma MarkerShown(part: Text, p: nat, byMarker: map<nat, Citation>)
    requires GroupEnd(part, p) != -1 && forall k :: k in byMarker ==> byMarker[k].marker == k
    ensures var e := GroupEnd(part, p);
            var text := ShownText([ShowMarker(Number(DigitsAt(part, p, e)), byMarker)]);
            if PlainAt(part, p) then text == part[p..e] else |text| < e - p
  {
    hide GroupEnd, Number, Decimal, LeadingZero;
    var e := GroupEnd(part, p);
    var digits := DigitsAt(part, p, e);
    var n := Number(digits);
    var shown := [ShowMarker(n, byMarker)];
    DecimalOfNumber(digits);
    assert shown[1..] == [];
    assert ShownText(shown) == Bracketed(n);
    assert part[p..e] == [OPEN] + digits + [CLOSE];
  }

  lemma JoinExactly(a: Text, b: Text, x: Text, y: Text)
    requires |a| < |x| || a == x
    requires |b| < |y| || b == y
    ensures |a + b| < |x + y| || a + b == x + y
    ensures a + b == x + y <==> a == x && b == y
  {
  }

  /** A captured run is shown as it was written exactly when no marker in it has a
      leading zero; otherwise it gets shorter. */
  lemma {:induction false} RunShown(part: Text, lo: nat, byMarker: map<nat, Citation>)
    requires lo <= |part| && Groups(part[lo..]) && forall k :: k in byMarker ==> byMarker[k].marker == k
    ensures var text := ShownText(ShowMarkers(part, lo, byMarker));
            (|text| < |part[lo..]| || text == part[lo..]) &&
            (text == part[lo..] <==> forall p :: lo <= p < |part| ==> PlainAt(part, p))
    decreases |part| - lo
  {
    if lo < |part| {
      var e := GroupEnd(part, lo);
      GroupsTail(part, lo);
      RunShown(part, e, byMarker);
      RunShownStep(part, lo, byMarker);
    }
  }

  lemma RunShownStep(part: Text, lo: nat, byMarker: map<nat, Citation>)
    requires lo < |part| && GroupEnd(part, lo) != -1 && forall k :: k in byMarker ==> byMarker[k].marker == k
    requires var e := GroupEnd(part, lo);
             var text := ShownText(ShowMarkers(part, e, byMarker));
             (|text| < |part[e..]| || text == part[e..]) &&
             (text == part[e..] <==> forall p :: e <= p < |part| ==> PlainAt(part, p))
    ensures var text := ShownText(ShowMarkers(part, lo, byMarker));
            (|text| < |part[lo..]| || text == part[lo..]) &&
            (text == part[lo..] <==> forall p :: lo <= p < |part| ==> PlainAt(part, p))
  {
    var e := GroupEnd(part, lo);
    var text, rest := ShownText(ShowMarkers(part, lo, byMarker)), ShownText(ShowMarkers(part, e, byMarker));
    PlainFrom(part, lo);
    hide PlainAt, ShownText, ShowMarkers, GroupEnd;
    FirstShown(part, lo, byMarker);
    SliceSplit(part, lo, e);
    JoinExactly(text[..|text| - |rest|], rest, part[lo..e], part[e..]);
  }

  /** The text of a run is that of its first marker and that of the rest. */
  lemma FirstShown(part: Text, lo: nat, byMarker: map<nat, Citation>)
    requires lo < |part| && GroupEnd(part, lo) != -1 && forall k :: k in byMarker ==> byMarker[k].marker == k
    ensures lo < GroupEnd(part, lo) <= |part|
    ensures var e := GroupEnd(part, lo);
            var text, rest := ShownText(ShowMarkers(part, lo, byMarker)), ShownText(ShowMarkers(part, e, byMarker));
            && |rest| <= |text| && text == text[..|text| - |rest|] + rest
            && if PlainAt(part, lo) then text[..|text| - |rest|] == part[lo..e] else |text| - |rest| < e - lo
  {
    var e := GroupEnd(part, lo);
    var first := [ShowMarker(Number(DigitsAt(part, lo, e)), byMarker)];
    assert ShowMarkers(part, lo, byMarker) == first + ShowMarkers(part, e, byMarker);
    MarkerShown(part, lo, byMarker);
    hide ShownText, ShowMarkers, PlainAt;
    ShownTextAppend(first, ShowMarkers(part, e, byMarker));
  }

  lemma PlainFrom(part: Text, lo: nat)
    requires lo < |part| && GroupEnd(part, lo) != -1
    ensures (forall p :: lo <= p < |part| ==> PlainAt(part, p)) <==>
            PlainAt(part, lo) && forall p :: GroupEnd(part, lo) <= p < |part| ==> PlainAt(part, p)
  {
    PlainInside(part, lo);
    hide PlainAt;
  }

  lemma SliceSplit(part: Text, lo: nat, mid: nat)
    requires lo <= mid <= |part|
    ensures part[lo..mid] + part[mid..] == part[lo..]
  {
  }

  /** No group starts strictly inside another. */
  lemma PlainInside(v: Text, p: nat)
    requires GroupEnd(v, p) != -1
    ensures p < GroupEnd(v, p) <= |v| && forall x :: p < x < GroupEnd(v, p) ==> PlainAt(v, x)
  {
    forall x | p < x < GroupEnd(v, p) ensures PlainAt(v, x) {
      assert GroupAt(v, p, GroupEnd(v, p));
    }
  }

  lemma GroupsTail(part: Text, lo: nat)
    requires lo < |part| && Groups(part[lo..])
    ensures GroupEnd(part, lo) != -1 && Groups(part[GroupEnd(part, lo)..])
  {
    var k :| 0 <= k <= |part[lo..]| && GroupAt(part[lo..], 0, k) && Groups(part[lo..][k..]);
    assert part[lo..|part|] == part[lo..];
    GroupInSlice(part, lo, |part|, 0, k);
    assert part[lo..][k..] == part[lo + k..];
  }

  /** No captured marker at or after `last` has a leading zero. */
  ghost predicate ZeroFree(v: Text, last: nat)
    requires last <= |v|
  {
    forall p :: last <= p <= |v| && Captured(Runs(v, last), p) ==> PlainAt(v, p)
  }

  lemma ZeroFreeStep(v: Text, last: nat)
    requires last <= |v| && NextRun(v, last) != -1
    ensures var q := NextRun(v, last);
            ZeroFree(v, last) <==>
            ZeroFree(v, RunEnd(v, q)) && forall p :: q <= p < RunEnd(v, q) ==> PlainAt(v, p)
  {
    var q := NextRun(v, last);
    var e, runs := RunEnd(v, q), Runs(v, last);
    var rest := Runs(v, e);
    assert runs == [(q, e)] + rest;
    forall p: nat ensures Captured(runs, p) <==> q <= p < e || Captured(rest, p) {
      if q <= p < e { assert runs[0] == (q, e); }
      if Captured(rest, p) {
        var k :| 0 <= k < |rest| && rest[k].0 <= p < rest[k].1;
        assert runs[k + 1] == rest[k];
      }
    }
    forall p: nat | Captured(rest, p) ensures p >= e {
      var k :| 0 <= k < |rest| && rest[k].0 <= p < rest[k].1;
      RunsAreMaximal(v, e, k);
    }
  }

  lemma PlainInSlice(v: Text, q: nat, e: nat)
    requires q <= e <= |v| && e == RunEnd(v, q)
    ensures (forall p :: 0 <= p < e - q ==> PlainAt(v[q..e], p)) <==> (forall p :: q <= p < e ==> PlainAt(v, p))
  {
    forall p | 0 <= p < e - q ensures PlainAt(v[q..e], p) <==> PlainAt(v, q + p) {
      PlainAtInSlice(v, q, e, p);
    }
    hide PlainAt;
    if forall p :: 0 <= p < e - q ==> PlainAt(v[q..e], p) {
      forall p | q <= p < e ensures PlainAt(v, p) {
        assert PlainAt(v[q..e], p - q) <==> PlainAt(v, q + (p - q));
      }
    }
  }

  lemma PlainAtInSlice(v: Text, q: nat, e: nat, p: nat)
    requires q <= e <= |v| && e == RunEnd(v, q) && p < e - q
    ensures PlainAt(v[q..e], p) <==> PlainAt(v, q + p)
  {
    hide GroupEnd, LeadingZero, RunEnd;
    GroupStaysInRun(v, q, q + p);
    var x := GroupEnd(v[q..e], p);
    GroupInSlice(v, q, e, p, x);
    GroupInSlice(v, q, e, p, GroupEnd(v, q + p) - q);
    if x != -1 {
      SliceOfSlice(v, q, e, p + 1, x - 1);
    }
  }

  lemma {:induction false} GroupStaysInRun(v: Text, q: nat, p: nat)
    requires q <= |v| && q <= p < RunEnd(v, q)
    ensures GroupEnd(v, p) <= RunEnd(v, q)
    decreases |v| - q
  {
    var e := GroupEnd(v, q);
    if p >= e {
      GroupStaysInRun(v, e, p);
    } else if p > q {
      assert GroupAt(v, q, e);
    }
  }

  lemma {:induction false} PartsShown(v: Text, last: nat, byMarker: map<nat, Citation>)
    requires last <= |v| && (last == 0 || GroupEnd(v, last) == -1)
    requires forall k :: k in byMarker ==> byMarker[k].marker == k
    ensures var text := ShownText(ShowParts(SplitFrom(v, last), byMarker));
            (|text| < |v[last..]| || text == v[last..]) &&
            (text == v[last..] <==> ZeroFree(v, last))
    decreases |v| - last
  {
    var q := NextRun(v, last);
    if q == -1 {
      LastPartShown(v, last, byMarker);
    } else {
      PartsShown(v, RunEnd(v, q), byMarker);
      ZeroFreeStep(v, last);
      RunPartShown(v, q, byMarker);
      TextFailsRetest(v, last, q);
      assert SplitFrom(v, last) == [v[last..q], v[q..RunEnd(v, q)]] + SplitFrom(v, RunEnd(v, q));
      hide *;
      PartsShownStep(v, last, q, RunEnd(v, q), SplitFrom(v, RunEnd(v, q)), byMarker);
    }
  }

  lemma LastPartShown(v: Text, last: nat, byMarker: map<nat, Citation>)
    requires last <= |v| && (last == 0 || GroupEnd(v, last) == -1) && NextRun(v, last) == -1
    ensures ShownText(ShowParts(SplitFrom(v, last), byMarker)) == v[last..] && ZeroFree(v, last)
  {
    TextFailsRetest(v, last, |v|);
    assert v[last..|v|] == v[last..];
    var parts := [v[last..]];
    assert parts[1..] == [] && ShowParts(parts, byMarker) == [Plain(v[last..])];
    assert [Plain(v[last..])][1..] == [];
  }

  lemma PartsShownStep(v: Text, last: nat, q: nat, e: nat, rest: seq<Text>, byMarker: map<nat, Citation>)
    requires last <= q <= e <= |v| && !Retest(v[last..q])
    requires var run := ShownText(ShowPart(v[q..e], byMarker)); |run| < e - q || run == v[q..e]
    requires var tail := ShownText(ShowParts(rest, byMarker)); |tail| < |v[e..]| || tail == v[e..]
    ensures var text := ShownText(ShowParts([v[last..q], v[q..e]] + rest, byMarker));
            (|text| < |v[last..]| || text == v[last..]) &&
            (text == v[last..] <==>
             ShownText(ShowPart(v[q..e], byMarker)) == v[q..e] && ShownText(ShowParts(rest, byMarker)) == v[e..])
  {
    hide *;
    var run, tail := ShownText(ShowPart(v[q..e], byMarker)), ShownText(ShowParts(rest, byMarker));
    ShowTwo(v[last..q], v[q..e], rest, byMarker);
    JoinExactly(run, tail, v[q..e], v[e..]);
    JoinExactly(v[last..q], run + tail, v[last..q], v[q..e] + v[e..]);
    assert v[last..q] + (v[q..e] + v[e..]) == v[last..];
  }

  lemma RunPartShown(v: Text, q: nat, byMarker: map<nat, Citation>)
    requires q <= |v| && GroupEnd(v, q) != -1 && forall k :: k in byMarker ==> byMarker[k].marker == k
    ensures var part := v[q..RunEnd(v, q)];
            var text := ShownText(ShowPart(part, byMarker));
            (|text| < |part| || text == part) &&
            (text == part <==> forall p :: q <= p < RunEnd(v, q) ==> PlainAt(v, p))
  {
    var part := v[q..RunEnd(v, q)];
    RunIsGroups(v, q);
    assert part[0..] == part;
    RunShown(part, 0, byMarker);
    PlainInSlice(v, q, RunEnd(v, q));
  }

  lemma ShowTwo(a: Text, b: Text, rest: seq<Text>, byMarker: map<nat, Citation>)
    requires !Retest(a)
    ensures ShownText(ShowParts([a, b] + rest, byMarker)) ==
            a + (ShownText(ShowPart(b, byMarker)) + ShownText(ShowParts(rest, byMarker)))
  {
    var tail := ShowPart(b, byMarker) + ShowParts(rest, byMarker);
    assert ([a, b] + rest)[1..] == [b] + rest && ([b] + rest)[1..] == rest;
    assert ShowParts([a, b] + rest, byMarker) == [Plain(a)] + tail;
    assert ([Plain(a)] + tail)[1..] == tail;
    ShownTextAppend(ShowPart(b, byMarker), ShowParts(rest, byMarker));
  }

  /** The answer reads exactly as it was written if and only if no citation in it
      is written with a leading zero, whatever citations came with it. */
  lemma AnswerReadsAsWritten(content: Text, citations: seq<Citation>)
    ensures ShownText(AnswerText(content, citations)) == content <==>
            forall p :: 0 <= p <= |content| && CitationAt(content, p) ==> PlainAt(content, p)
  {
    PartsShown(content, 0, ByMarker(citations));
    assert content[0..] == content;
    forall p | 0 <= p <= |content| && GroupEnd(content, p) != -1
      ensures Captured(Runs(content, 0), p) <==> CitationAt(content, p)
    {
      MarkerEnds(content, p);
      CapturedExactlyWhenCited(content, p);
    }
    forall p | 0 <= p <= |content| ensures CitationAt(content, p) ==> GroupEnd(content, p) != -1 {
      CitationsAreCited(content, p);
    }
    hide CitationAt, MarkerAt, GroupEnd;
  }
}
