/** Which markers of an answer the reader can click, and where each leads
    (apps/web/src/pages/ChatPage.tsx, `AnswerText`). */
module CitationLinks {
  import opened Utf16
  import opened Digits
  import opened Filters
  import opened Citations
  import opened CitationTokens

  /** The links of what is shown, in order. */
  function Links(shown: seq<Shown>): seq<Citation> {
    if shown == [] then []
    else
      (match shown[0]
       case Link(citation) => [citation]
       case Plain(_) => []) + Links(shown[1..])
  }

  lemma {:induction false} LinksAppend(a: seq<Shown>, b: seq<Shown>)
    ensures Links(a + b) == Links(a) + Links(b)
  {
    if a == [] {
      assert a + b == b;
    } else {
      LinksAppend(a[1..], b);
      assert (a + b)[1..] == a[1..] + b && (a + b)[0] == a[0];
      Assoc(if a[0].Link? then [a[0].citation] else [], Links(a[1..]), Links(b));
    }
  }

  lemma {:induction false} NumbersAppend(a: seq<Token>, b: seq<Token>)
    ensures Numbers(a + b) == Numbers(a) + Numbers(b)
  {
    hide Number;
    if a == [] {
      assert a + b == b;
    } else {
      NumbersAppend(a[1..], b);
      assert (a + b)[1..] == a[1..] + b && (a + b)[0] == a[0];
      Assoc(if a[0].Mark? then [Number(a[0].digits)] else [], Numbers(a[1..]), Numbers(b));
    }
  }

  /** The citations of the numbers that have one, in order. */
  function Sources(ns: seq<nat>, byMarker: map<nat, Citation>): seq<Citation> {
    if ns == [] then []
    else (if ns[0] in byMarker then [byMarker[ns[0]]] else []) + Sources(ns[1..], byMarker)
  }

  lemma {:induction false} SourcesAppend(a: seq<nat>, b: seq<nat>, byMarker: map<nat, Citation>)
    ensures Sources(a + b, byMarker) == Sources(a, byMarker) + Sources(b, byMarker)
  {
    if a == [] {
      assert a + b == b;
    } else {
      SourcesAppend(a[1..], b, byMarker);
      assert (a + b)[1..] == a[1..] + b && (a + b)[0] == a[0];
      Assoc(if a[0] in byMarker then [byMarker[a[0]]] else [], Sources(a[1..], byMarker), Sources(b, byMarker));
    }
  }

  lemma {:induction false} TextHasNoNumbers(x: Text)
    ensures Numbers(TextTokens(x)) == []
  {
    if x != [] {
      TextHasNoNumbers(x[1..]);
      NumbersFirst(Char(x[0]), TextTokens(x[1..]));
    }
  }

  /** The links of a captured run are those of its markers. */
  lemma {:induction false} RunLinks(part: Text, lo: nat, byMarker: map<nat, Citation>)
    requires lo <= |part| && Groups(part[lo..])
    ensures Links(ShowMarkers(part, lo, byMarker)) == Sources(Numbers(RunTokens(part[lo..])), byMarker)
    decreases |part| - lo
  {
    hide Groups, GroupEnd;
    if lo == |part| {
      assert part[lo..] == [];
    } else {
      GroupsTail(part, lo);
      var e := GroupEnd(part, lo);
      RunLinks(part, e, byMarker);
      MarkerLink(part, lo, byMarker);
    }
  }

  lemma MarkerLink(part: Text, lo: nat, byMarker: map<nat, Citation>)
    requires lo < |part| && GroupEnd(part, lo) != -1
    ensures lo + 3 <= GroupEnd(part, lo) <= |part|
    ensures var e := GroupEnd(part, lo);
            var n := Number(part[lo + 1..e - 1]);
            var here := if n in byMarker then [byMarker[n]] else [];
            && Links(ShowMarkers(part, lo, byMarker)) == here + Links(ShowMarkers(part, e, byMarker))
            && Sources(Numbers(RunTokens(part[lo..])), byMarker) ==
               here + Sources(Numbers(RunTokens(part[e..])), byMarker)
  {
    var e := GroupEnd(part, lo);
    var digits: Numeral := part[lo + 1..e - 1];
    var n, shown := Number(digits), ShowMarkers(part, e, byMarker);
    assert ShowMarkers(part, lo, byMarker) == [ShowMarker(n, byMarker)] + shown;
    assert ([ShowMarker(n, byMarker)] + shown)[1..] == shown;
    FirstOfRun(part, lo, |part|);
    assert part[lo..|part|] == part[lo..] && part[e..|part|] == part[e..];
    var rest := RunTokens(part[e..]);
    NumbersFirst(Mark(digits), rest);
    assert ([n] + Numbers(rest))[1..] == Numbers(rest);
  }

  lemma {:induction false} AnswerLinks(v: Text, last: nat, byMarker: map<nat, Citation>)
    requires last <= |v| && (last == 0 || GroupEnd(v, last) == -1)
    ensures Links(ShowParts(SplitFrom(v, last), byMarker)) ==
            Sources(Numbers(PartTokens(SplitFrom(v, last))), byMarker)
    decreases |v| - last
  {
    hide GroupEnd, Groups, Retest, RunTokens, TextTokens;
    var q := NextRun(v, last);
    if q == -1 {
      TextFailsRetest(v, last, |v|);
      assert v[last..|v|] == v[last..];
      TextLinks(v[last..], byMarker);
    } else {
      var e := RunEnd(v, q);
      AnswerLinks(v, e, byMarker);
      TextFailsRetest(v, last, q);
      RunIsGroups(v, q);
      GroupsAreRetested(v[q..e]);
      TwoPartsLink(v[last..q], v[q..e], SplitFrom(v, e), byMarker);
    }
  }

  lemma TextLinks(text: Text, byMarker: map<nat, Citation>)
    requires !Retest(text)
    ensures Links(ShowParts([text], byMarker)) == [] == Sources(Numbers(PartTokens([text])), byMarker)
  {
    TextHasNoNumbers(text);
    assert [text][1..] == [] && [Plain(text)][1..] == [];
    assert ShowParts([text], byMarker) == [Plain(text)] + [];
    assert [Plain(text)] + [] == [Plain(text)];
  }

  lemma TwoPartsLink(text: Text, run: Text, rest: seq<Text>, byMarker: map<nat, Citation>)
    requires !Retest(text) && Retest(run)
    requires Links(ShowParts(rest, byMarker)) == Sources(Numbers(PartTokens(rest)), byMarker)
    ensures Links(ShowParts([text, run] + rest, byMarker)) ==
            Sources(Numbers(PartTokens([text, run] + rest)), byMarker)
  {
    ShownParts(text, run, rest, byMarker);
    hide *;
    LinksAppend([Plain(text)], ShowMarkers(run, 0, byMarker) + ShowParts(rest, byMarker));
    LinksAppend(ShowMarkers(run, 0, byMarker), ShowParts(rest, byMarker));
    WholeRunLinks(run, byMarker);
    TextHasNoNumbers(text);
    NumbersAppend(TextTokens(text), RunTokens(run) + PartTokens(rest));
    NumbersAppend(RunTokens(run), PartTokens(rest));
    SourcesAppend(Numbers(RunTokens(run)), Numbers(PartTokens(rest)), byMarker);
    NothingLinked(text);
    var ns := Numbers(RunTokens(run)) + Numbers(PartTokens(rest));
    assert [] + ns == ns;
  }

  lemma NothingLinked(text: Text)
    ensures Links([Plain(text)]) == [] && forall links: seq<Citation> :: [] + links == links
  {
    assert [Plain(text)][1..] == [];
  }

  lemma WholeRunLinks(run: Text, byMarker: map<nat, Citation>)
    requires Retest(run)
    ensures Links(ShowMarkers(run, 0, byMarker)) == Sources(Numbers(RunTokens(run)), byMarker)
  {
    assert run[0..] == run;
    RunLinks(run, 0, byMarker);
  }

  lemma ShownParts(text: Text, run: Text, rest: seq<Text>, byMarker: map<nat, Citation>)
    requires !Retest(text) && Retest(run)
    ensures ShowParts([text, run] + rest, byMarker) ==
            [Plain(text)] + (ShowMarkers(run, 0, byMarker) + ShowParts(rest, byMarker))
    ensures PartTokens([text, run] + rest) == TextTokens(text) + (RunTokens(run) + PartTokens(rest))
  {
    hide Retest, ShowMarkers, TextTokens, RunTokens;
    var parts := [text, run] + rest;
    assert parts[1..] == [run] + rest && ([run] + rest)[1..] == rest && parts[2..] == rest;
  }

  // ---- without the map ----

  /** Some citation carries the number. */
  ghost function Carried(citations: seq<Citation>): nat -> bool {
    n => exists k :: 0 <= k < |citations| && citations[k].marker == n
  }

  /** The last citation that carries the number. */
  ghost predicate LastOf(citations: seq<Citation>, n: nat, k: int) {
    && 0 <= k < |citations| && citations[k].marker == n
    && forall j :: k < j < |citations| ==> citations[j].marker != n
  }

  lemma {:induction false} LastOneWins(citations: seq<Citation>, n: nat) returns (k: int)
    ensures n in ByMarker(citations) ==> LastOf(citations, n, k) && ByMarker(citations)[n] == citations[k]
    ensures n !in ByMarker(citations) ==> forall j :: 0 <= j < |citations| ==> citations[j].marker != n
  {
    k := -1;
    if citations != [] {
      var front, last := citations[..|citations| - 1], citations[|citations| - 1];
      k := LastOneWins(front, n);
      assert forall j :: 0 <= j < |front| ==> front[j] == citations[j];
      if last.marker == n {
        k := |citations| - 1;
      }
    }
  }

  lemma KnownFirst(ns: seq<nat>, citations: seq<Citation>) returns (k: int)
    requires ns != []
    ensures var n, m := ns[0], ByMarker(citations);
            if n in m then
              && LastOf(citations, n, k)
              && Filter(Carried(citations), ns) == [n] + Filter(Carried(citations), ns[1..])
              && Sources(ns, m) == [citations[k]] + Sources(ns[1..], m)
            else
              && Filter(Carried(citations), ns) == Filter(Carried(citations), ns[1..])
              && Sources(ns, m) == Sources(ns[1..], m)
  {
    k := LastOneWins(citations, ns[0]);
    assert ns == [ns[0]] + ns[1..];
    hide Filter, ByMarker;
    FilterCons(Carried(citations), ns[0], ns[1..]);
  }

  lemma NothingKnown(citations: seq<Citation>)
    ensures Filter(Carried(citations), []) == [] && Sources([], ByMarker(citations)) == []
  {
  }

  lemma {:induction false} SourcesAreLast(ns: seq<nat>, citations: seq<Citation>) returns (at: seq<nat>)
    ensures var known, links := Filter(Carried(citations), ns), Sources(ns, ByMarker(citations));
            && |at| == |known| == |links|
            && forall i :: 0 <= i < |at| ==> LastOf(citations, known[i], at[i]) && links[i] == citations[at[i]]
  {
    hide Filter, Sources, ByMarker, Carried;
    at := [];
    if ns == [] {
      NothingKnown(citations);
    } else {
      at := SourcesAreLast(ns[1..], citations);
      var k := KnownFirst(ns, citations);
      if ns[0] in ByMarker(citations) {
        at := [k] + at;
      }
    }
  }

  /** The links of the answer are, in order, the citations of the numbers in it that
      a citation carries, and each is the last citation that carries its number. */
  lemma LinksAreTheCitations(content: Text, citations: seq<Citation>) returns (at: seq<nat>)
    ensures var links := Links(AnswerText(content, citations));
            var known := Filter(Carried(citations), Numbers(Scan(true, content)));
            && |at| == |known| == |links|
            && forall i :: 0 <= i < |at| ==>
                 && at[i] < |citations| && links[i] == citations[at[i]] && links[i].marker == known[i]
                 && forall j :: at[i] < j < |citations| ==> citations[j].marker != known[i]
  {
    AnswerLinks(content, 0, ByMarker(citations));
    ScanIsSplit(content, 0, true);
    assert content[0..] == content;
    hide Scan, SplitFrom, PartTokens, ShowParts, Links, Numbers, Sources, ByMarker, Filter;
    at := SourcesAreLast(Numbers(Scan(true, content)), citations);
  }
}
