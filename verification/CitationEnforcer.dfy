/** What the server does to the citations of an answer: strip the markers of sources
    that were never given, then renumber the others densely
    (libs/backend/chat/src/citation-enforcer.ts). */
module CitationEnforcer {
  import opened Utf16
  import opened Digits
  import opened Filters
  import opened Citations
  import opened CitationTokens
  import opened CitationTidy
  import opened TidyLaws

  // ---- stripping ----

  /** `validMarkers.has(n)`, for a mark. */
  function Keeps(valid: set<nat>): Token -> bool {
    (t: Token) => t.Char? || Number(t.digits) in valid
  }

  function Kept(ts: seq<Token>, valid: set<nat>): seq<Token> {
    Filter(Keeps(valid), ts)
  }

  lemma KeptFirst(ts: seq<Token>, valid: set<nat>)
    requires ts != []
    ensures Kept(ts, valid) == (if Keeps(valid)(ts[0]) then [ts[0]] else []) + Kept(ts[1..], valid)
  {
    assert ts == [ts[0]] + ts[1..];
    FilterCons(Keeps(valid), ts[0], ts[1..]);
  }

  /** What follows the marks at the front that are stripped. */
  function Skip(ts: seq<Token>, valid: set<nat>): (rest: seq<Token>)
    ensures |rest| <= |ts|
  {
    if ts != [] && !Keeps(valid)(ts[0]) then Skip(ts[1..], valid) else ts
  }

  /** Up to three digits and a closing bracket come next. */
  predicate Closes(ts: seq<Token>) {
    GroupEnd([OPEN] + CharsAhead(ts), 0) != -1
  }

  /** Where a citation could stand there is an opening bracket, then one or more marks
      that are all stripped, then digits and a closing bracket: `[[99]12]`. */
  predicate Spliced(open: bool, ts: seq<Token>, valid: set<nat>)
    decreases |ts|
  {
    ts != [] &&
    match ts[0]
    case Mark(_) => Spliced(true, ts[1..], valid)
    case Char(c) => (open && c == OPEN && Hollow(ts[1..], valid)) || Spliced(!Blocks(c), ts[1..], valid)
  }

  predicate Hollow(ts: seq<Token>, valid: set<nat>) {
    ts != [] && !Keeps(valid)(ts[0]) && Closes(Skip(ts, valid))
  }

  lemma {:induction false} SkipKeepsRest(ts: seq<Token>, valid: set<nat>)
    requires Canonical(true, ts)
    ensures Kept(Skip(ts, valid), valid) == Kept(ts, valid) && Canonical(true, Skip(ts, valid))
    decreases |ts|
  {
    if ts != [] && !Keeps(valid)(ts[0]) {
      KeptFirst(ts, valid);
      SkipKeepsRest(ts[1..], valid);
    }
  }

  /** Stripping lets the plain characters at the front run on only past a character
      after which a mark can stand. */
  lemma {:induction false} StrippedAhead(open: bool, ts: seq<Token>, valid: set<nat>)
    requires Canonical(open, ts)
    ensures var x, y := CharsAhead(ts), CharsAhead(Kept(ts, valid));
            x == y || (x <= y && (x != [] ==> !Blocks(x[|x| - 1])))
    decreases |ts|
  {
    if ts != [] && ts[0].Char? {
      KeptFirst(ts, valid);
      var rest := ts[1..];
      StrippedAhead(!Blocks(ts[0].c), rest, valid);
      assert Kept(ts, valid)[1..] == Kept(rest, valid);
      var x, y := CharsAhead(rest), CharsAhead(Kept(rest, valid));
      if x != y && x == [] {
        assert rest != [];
      }
    }
  }

  /** A group is made of nothing but characters that a mark cannot follow, the
      bracket that opens it aside. */
  lemma GroupStopsAtMark(x: Text, y: Text)
    requires x != [] && x <= y && !Blocks(x[|x| - 1])
    ensures GroupEnd([OPEN] + y, 0) != -1 <==> GroupEnd([OPEN] + x, 0) != -1
  {
    var v, w := [OPEN] + x, [OPEN] + y;
    assert v[|x|] == x[|x| - 1] && w[|x|] == v[|x|] && v <= w;
    forall e | GroupAt(w, 0, e) ensures GroupAt(v, 0, e) {
      GroupInPrefix(v, w, e);
    }
    forall e | GroupAt(v, 0, e) ensures GroupAt(w, 0, e) {
      GroupInPrefix(v, w, e);
    }
  }

  lemma ClosesUnderStripping(open: bool, ts: seq<Token>, valid: set<nat>)
    requires Canonical(open, ts) && Skip(ts, valid) == ts
    ensures Closes(Kept(ts, valid)) <==> Closes(ts)
  {
    hide GroupEnd, Canonical;
    StrippedAhead(open, ts, valid);
    if CharsAhead(ts) != [] {
      if CharsAhead(ts) != CharsAhead(Kept(ts, valid)) {
        GroupStopsAtMark(CharsAhead(ts), CharsAhead(Kept(ts, valid)));
      }
    } else if ts != [] {
      KeptFirst(ts, valid);
    }
  }

  lemma BracketCloses(ts: seq<Token>)
    requires ts != [] && ts[0] == Char(OPEN)
    ensures GroupEnd(Print(ts), 0) != -1 <==> Closes(ts[1..])
  {
    HeadGroup(ts);
  }

  lemma OnlyBracketsOpen(ts: seq<Token>)
    requires ts != [] && ts[0].Char? && ts[0].c != OPEN
    ensures GroupEnd(Print(ts), 0) == -1
  {
  }

  /** After a bracket where a citation could stand, stripping completes a marker
      exactly when the marks right after it are all stripped and one closes. */
  lemma BracketAfterStripping(ts: seq<Token>, valid: set<nat>)
    requires ts != [] && ts[0] == Char(OPEN) && Canonical(true, ts)
    ensures GroupEnd(Print(Kept(ts, valid)), 0) != -1 <==> Hollow(ts[1..], valid)
  {
    var rest := ts[1..];
    KeptFirst(ts, valid);
    assert Kept(ts, valid)[1..] == Kept(rest, valid);
    BracketCloses(ts);
    BracketCloses(Kept(ts, valid));
    hide GroupEnd, Print, Closes;
    assert !Blocks(OPEN);
    SkipKeepsRest(rest, valid);
    SkipStops(rest, valid);
    ClosesUnderStripping(true, Skip(rest, valid), valid);
  }

  lemma SkipStops(ts: seq<Token>, valid: set<nat>)
    ensures Skip(Skip(ts, valid), valid) == Skip(ts, valid)
    ensures Skip(ts, valid) != ts <==> ts != [] && !Keeps(valid)(ts[0])
  {
  }

  /** Stripping creates no marker at a citation position exactly when nothing is spliced. */
  lemma {:induction false} StrippedIsCanonical(open: bool, ts: seq<Token>, valid: set<nat>)
    requires Canonical(open, ts)
    ensures Canonical(open, Kept(ts, valid)) <==> !Spliced(open, ts, valid)
    decreases |ts|
  {
    if ts != [] {
      var rest := ts[1..];
      KeptFirst(ts, valid);
      match ts[0]
      case Mark(_) =>
        StrippedIsCanonical(true, rest, valid);
        if Keeps(valid)(ts[0]) {
          assert Kept(ts, valid)[1..] == Kept(rest, valid);
        } else {
          assert Kept(ts, valid) == Kept(rest, valid);
        }
      case Char(c) =>
        StrippedIsCanonical(!Blocks(c), rest, valid);
        assert Kept(ts, valid)[1..] == Kept(rest, valid);
        if c != OPEN {
          OnlyBracketsOpen(Kept(ts, valid));
        } else if open {
          BracketAfterStripping(ts, valid);
        }
    }
  }

  /** `answer` after the first pass. */
  function Stripped(answer: Text, valid: set<nat>): Text {
    Print(Kept(Scan(true, answer), valid))
  }

  /** After stripping, the citations are exactly the valid ones that the answer had,
      if and only if nothing is spliced. */
  lemma StrippingIsExact(answer: Text, valid: set<nat>)
    ensures Scan(true, Stripped(answer, valid)) == Kept(Scan(true, answer), valid) <==>
            !Spliced(true, Scan(true, answer), valid)
  {
    hide *;
    ScanPrints(true, answer);
    RescansExactlyWhenCanonical(true, Scan(true, answer));
    RescansExactlyWhenCanonical(true, Kept(Scan(true, answer), valid));
    StrippedIsCanonical(true, Scan(true, answer), valid);
    StrippedDef(answer, valid);
  }

  lemma StrippedDef(answer: Text, valid: set<nat>)
    ensures Stripped(answer, valid) == Print(Kept(Scan(true, answer), valid))
  {
  }

  // ---- renumbering ----

  /** The numbers in order of first appearance. */
  function FirstSeen(ns: seq<nat>): seq<nat> {
    if ns == [] then []
    else
      var seen, n := FirstSeen(ns[..|ns| - 1]), ns[|ns| - 1];
      if n in seen then seen else seen + [n]
  }

  /** One more than the first index of `n`. */
  function Rank(used: seq<nat>, n: nat): (r: nat)
    requires n in used
    ensures 1 <= r <= |used| && used[r - 1] == n
    ensures forall j :: 0 <= j < r - 1 ==> used[j] != n
  {
    if used[0] == n then 1 else 1 + Rank(used[1..], n)
  }

  const UNDEFINED: Text := [0x75, 0x6E, 0x64, 0x65, 0x66, 0x69, 0x6E, 0x65, 0x64]

  /** `String(renumber.get(n))`. */
  function NewNumber(used: seq<nat>, n: nat): Text {
    if n in used then Decimal(Rank(used, n)) else UNDEFINED
  }

  /** The second pass: every mark gets its new number. */
  function Renumbered(ts: seq<Token>, used: seq<nat>): Text {
    if ts == [] then []
    else
      (match ts[0]
       case Char(c) => [c]
       case Mark(digits) => Boxed(NewNumber(used, Number(digits)))) + Renumbered(ts[1..], used)
  }

  lemma {:induction false} RenumberedAhead(ts: seq<Token>, used: seq<nat>)
    ensures Renumbered(ts, used) == CharsAhead(ts) + Renumbered(Behind(ts), used)
    ensures Renumbered(Behind(ts), used) == [] || Renumbered(Behind(ts), used)[0] == OPEN
  {
    hide NewNumber;
    if ts != [] && ts[0].Char? {
      RenumberedAhead(ts[1..], used);
      Assoc([ts[0].c], CharsAhead(ts[1..]), Renumbered(Behind(ts[1..]), used));
    }
  }

  /** Renumbering completes no marker either. */
  lemma RenumberedHead(open: bool, ts: seq<Token>, used: seq<nat>)
    requires Canonical(open, ts) && ts != [] && ts[0].Char? && open
    ensures GroupEnd(Renumbered(ts, used), 0) == -1
  {
    HeadGroup(ts);
    RenumberedAhead(ts, used);
    hide GroupEnd;
    GroupAhead(CharsAhead(ts), Renumbered(Behind(ts), used));
  }

  lemma UndefinedIsNoMarker(w: Text)
    ensures OPEN !in UNDEFINED && GroupEnd(Boxed(UNDEFINED) + w, 0) == -1
  {
    var v := Boxed(UNDEFINED) + w;
    assert v[1] == UNDEFINED[0];
  }

  lemma LongNumberIsNoMarker(n: nat, w: Text)
    requires n >= 1000
    ensures GroupEnd(Boxed(Decimal(n)) + w, 0) == -1
  {
    FigureCount(n);
    var v, d := Boxed(Decimal(n)) + w, Decimal(n);
    assert v[1] == d[0] && v[2] == d[1] && v[3] == d[2] && v[4] == d[3];
  }

  ghost predicate InRange(ns: seq<nat>, k: nat) {
    forall n :: n in ns ==> 1 <= n <= k
  }

  /** Whatever was stripped before, a number at a citation position is one of the new ones. */
  lemma {:induction false} RenumberedInRange(now: bool, open: bool, ts: seq<Token>, used: seq<nat>)
    requires Canonical(open, ts) && (now ==> open)
    ensures InRange(Numbers(Scan(now, Renumbered(ts, used))), |used|)
    decreases |ts|
  {
    if ts != [] {
      var rest := ts[1..];
      match ts[0]
      case Char(c) =>
        if now { RenumberedHead(open, ts, used); }
        ScanChar(now, c, Renumbered(rest, used));
        RenumberedInRange(!Blocks(c), !Blocks(c), rest, used);
      case Mark(digits) =>
        RenumberedInRange(true, true, rest, used);
        RenumberedInRange(false, true, rest, used);
        MarkInRange(now, Number(digits), Renumbered(rest, used), used);
    }
  }

  lemma MarkInRange(now: bool, n: nat, w: Text, used: seq<nat>)
    requires InRange(Numbers(Scan(true, w)), |used|) && InRange(Numbers(Scan(false, w)), |used|)
    ensures InRange(Numbers(Scan(now, Boxed(NewNumber(used, n)) + w)), |used|)
  {
    hide Scan, GroupEnd;
    if n !in used {
      UndefinedIsNoMarker(w);
      ScanBox(now, UNDEFINED, w);
    } else {
      var r := Rank(used, n);
      FigureCount(r);
      if r >= 1000 {
        LongNumberIsNoMarker(r, w);
        ScanBox(now, Decimal(r), w);
      } else if !now {
        ScanBox(now, Decimal(r), w);
      } else {
        ScanMark(Decimal(r), w);
        NumberOfDecimal(r);
        NumbersFirst(Mark(Decimal(r)), Scan(true, w));
      }
    }
  }

  function Ranks(used: seq<nat>, ns: seq<nat>): seq<nat>
    requires forall n :: n in ns ==> n in used
  {
    seq(|ns|, i requires 0 <= i < |ns| => Rank(used, ns[i]))
  }

  lemma RanksFirst(used: seq<nat>, n: nat, ns: seq<nat>)
    requires n in used && forall m :: m in ns ==> m in used
    ensures forall m :: m in [n] + ns ==> m in used
    ensures Ranks(used, [n] + ns) == [Rank(used, n)] + Ranks(used, ns)
  {
  }

  /** With fewer than a thousand sources every known number is written as a marker,
      so the citations stay where they are and get their new numbers. */
  lemma {:induction false} RenumberedNumbers(open: bool, ts: seq<Token>, used: seq<nat>)
    requires Canonical(open, ts) && |used| < 1000 && forall n :: n in Numbers(ts) ==> n in used
    ensures Numbers(Scan(open, Renumbered(ts, used))) == Ranks(used, Numbers(ts))
    decreases |ts|
  {
    hide Scan, GroupEnd, Rank, Boxed, NewNumber, Ranks;
    if ts == [] {
      NothingScanned(open, used);
    } else {
      var rest := ts[1..];
      assert forall n :: n in Numbers(rest) ==> n in Numbers(ts);
      match ts[0]
      case Char(c) =>
        if open { RenumberedHead(open, ts, used); }
        ScanChar(open, c, Renumbered(rest, used));
        RenumberedNumbers(!Blocks(c), rest, used);
        NumbersFirst(Char(c), Scan(!Blocks(c), Renumbered(rest, used)));
        assert [] + Numbers(rest) == Numbers(rest);
      case Mark(digits) =>
        var n := Number(digits);
        assert n in Numbers(ts);
        RenumberedNumbers(true, rest, used);
        KnownMark(n, Renumbered(rest, used), used);
        RanksFirst(used, n, Numbers(rest));
    }
  }

  lemma NothingScanned(open: bool, used: seq<nat>)
    ensures Scan(open, []) == [] && Ranks(used, []) == []
  {
  }

  lemma KnownMark(n: nat, w: Text, used: seq<nat>)
    requires n in used && |used| < 1000
    ensures Numbers(Scan(true, Boxed(NewNumber(used, n)) + w)) == [Rank(used, n)] + Numbers(Scan(true, w))
  {
    hide Scan, GroupEnd;
    var r := Rank(used, n);
    FigureCount(r);
    ScanMark(Decimal(r), w);
    NumberOfDecimal(r);
    NumbersFirst(Mark(Decimal(r)), Scan(true, w));
  }

  /** 1, 2, ..., k. */
  function Counting(k: nat): seq<nat> {
    seq(k, i requires 0 <= i < k => i + 1)
  }

  lemma {:induction false} FirstSeenCovers(ns: seq<nat>)
    ensures forall n :: n in FirstSeen(ns) <==> n in ns
  {
    if ns != [] {
      FirstSeenCovers(ns[..|ns| - 1]);
      assert ns == ns[..|ns| - 1] + [ns[|ns| - 1]];
    }
  }

  /** Numbered by first appearance, the numbers first appear as 1, 2, ..., k. */
  lemma {:induction false} FirstSeenIsDense(used: seq<nat>, ns: seq<nat>)
    requires FirstSeen(ns) <= used
    ensures forall n :: n in ns ==> n in used
    ensures FirstSeen(Ranks(used, ns)) == Counting(|FirstSeen(ns)|)
  {
    hide Rank;
    FirstSeenCovers(ns);
    if ns != [] {
      var front, last := ns[..|ns| - 1], ns[|ns| - 1];
      var seen := FirstSeen(front);
      assert seen <= FirstSeen(ns) && last in FirstSeen(ns);
      FirstSeenIsDense(used, front);
      RanksLast(used, ns);
      NextRank(used, seen, last);
      assert Counting(|seen| + 1) == Counting(|seen|) + [|seen| + 1];
    }
  }

  lemma RanksLast(used: seq<nat>, ns: seq<nat>)
    requires ns != [] && forall n :: n in ns ==> n in used
    ensures forall n :: n in ns[..|ns| - 1] ==> n in used
    ensures Ranks(used, ns)[..|ns| - 1] == Ranks(used, ns[..|ns| - 1])
    ensures Ranks(used, ns)[|ns| - 1] == Rank(used, ns[|ns| - 1])
  {
    hide Rank;
  }

  lemma NextRank(used: seq<nat>, seen: seq<nat>, n: nat)
    requires seen <= used && n in used
    requires n !in seen ==> seen + [n] <= used
    ensures n in seen <==> Rank(used, n) in Counting(|seen|)
    ensures n !in seen ==> Rank(used, n) == |seen| + 1
  {
    var r := Rank(used, n);
    assert r <= |seen| ==> seen[r - 1] == n;
    if r <= |seen| {
      assert Counting(|seen|)[r - 1] == r;
    } else if n !in seen {
      assert used[|seen|] == n;
    }
  }

  // ---- the enforcer ----

  function Used(answer: Text, valid: set<nat>): seq<nat> {
    FirstSeen(Numbers(Kept(Scan(true, answer), valid)))
  }

  function Content(answer: Text, valid: set<nat>): Text {
    Tidy(Renumbered(Scan(true, Stripped(answer, valid)), Used(answer, valid)))
  }

  method EnforceCitations(answer: Text, validMarkers: set<nat>) returns (content: Text, usedMarkers: seq<nat>)
    ensures content == Content(answer, validMarkers) && usedMarkers == Used(answer, validMarkers)
    ensures forall n :: n in Numbers(Scan(true, content)) ==> 1 <= n <= |usedMarkers|
    ensures forall i :: 0 < i < |content| ==>
              && !(Gap(content[i - 1]) && Gap(content[i]))
              && !(content[i - 1] == ' ' as int && StopMark(content[i]))
    ensures content != [] ==> content[0] !in WHITE && content[|content| - 1] !in WHITE
  {
    hide *;
    var tokens := Scan(true, answer);
    var stripped: Text := [];
    usedMarkers := [];
    NothingStripped(validMarkers);
    for i := 0 to |tokens|
      invariant stripped == Print(Kept(tokens[..i], validMarkers))
      invariant usedMarkers == FirstSeen(Numbers(Kept(tokens[..i], validMarkers)))
    {
      NextStripped(tokens, i, validMarkers);
      match tokens[i]
      case Char(c) =>
        stripped := stripped + [c];
      case Mark(digits) =>
        var n := Number(digits);
        if n in validMarkers {
          if n !in usedMarkers {
            usedMarkers := usedMarkers + [n];
          }
          stripped := stripped + Boxed(digits);
        }
    }
    assert tokens[..|tokens|] == tokens;
    var survivors := Scan(true, stripped);
    content := [];
    NothingRenumbered(usedMarkers);
    for i := 0 to |survivors|
      invariant content == Renumbered(survivors[..i], usedMarkers)
    {
      NextRenumbered(survivors, i, usedMarkers);
      match survivors[i]
      case Char(c) =>
        content := content + [c];
      case Mark(digits) =>
        content := content + Boxed(NewNumber(usedMarkers, Number(digits)));
    }
    assert survivors[..|survivors|] == survivors;
    TidyIsTidy(content);
    content := Tidy(content);
    ContentDef(answer, validMarkers);
    CitationsInRange(answer, validMarkers);
  }

  lemma ContentDef(answer: Text, valid: set<nat>)
    ensures var used := FirstSeen(Numbers(Kept(Scan(true, answer), valid)));
            && Used(answer, valid) == used
            && Content(answer, valid) == Tidy(Renumbered(Scan(true, Print(Kept(Scan(true, answer), valid))), used))
  {
  }

  lemma NothingStripped(valid: set<nat>)
    ensures Print(Kept([], valid)) == [] && FirstSeen(Numbers(Kept([], valid))) == []
  {
  }

  lemma NothingRenumbered(used: seq<nat>)
    ensures Renumbered([], used) == []
  {
  }

  lemma NextStripped(ts: seq<Token>, i: nat, valid: set<nat>)
    requires i < |ts|
    ensures var before, after := Kept(ts[..i], valid), Kept(ts[..i + 1], valid);
            var kept := ts[i].Char? || Number(ts[i].digits) in valid;
            && Print(after) == Print(before) + (if kept then Written(ts[i]) else [])
            && FirstSeen(Numbers(after)) ==
               FirstSeen(Numbers(before)) +
               if kept && ts[i].Mark? && Number(ts[i].digits) !in FirstSeen(Numbers(before)) then [Number(ts[i].digits)]
               else []
    ensures Written(ts[i]) == if ts[i].Char? then [ts[i].c] else Boxed(ts[i].digits)
  {
    hide Print, Numbers;
    var before := Kept(ts[..i], valid);
    FilterNext(Keeps(valid), ts, i);
    assert before + [] == before && Print(before) + [] == Print(before) && Numbers(before) + [] == Numbers(before);
    if Keeps(valid)(ts[i]) {
      PrintLast(before, ts[i]);
      if ts[i].Mark? {
        var n := Number(ts[i].digits);
        assert (Numbers(before) + [n])[..|Numbers(before)|] == Numbers(before);
      }
    }
  }

  lemma {:induction false} NextRenumbered(ts: seq<Token>, i: nat, used: seq<nat>)
    requires i < |ts|
    ensures Renumbered(ts[..i + 1], used) ==
            Renumbered(ts[..i], used) +
            match ts[i]
            case Char(c) => [c]
            case Mark(digits) => Boxed(NewNumber(used, Number(digits)))
  {
    hide NewNumber, Boxed;
    if i == 0 {
      assert ts[..1] == [ts[0]] && [ts[0]][1..] == [];
    } else {
      NextRenumbered(ts[1..], i - 1, used);
      assert ts[..i][1..] == ts[1..][..i - 1] && ts[..i + 1][1..] == ts[1..][..i];
    }
  }

  /** Every number at a citation position of the result is one of 1 to k, for any
      answer and any sources. */
  lemma CitationsInRange(answer: Text, valid: set<nat>)
    ensures InRange(Numbers(Scan(true, Content(answer, valid))), |Used(answer, valid)|)
    ensures forall n :: n in Numbers(Scan(true, Content(answer, valid))) ==> 1 <= n <= |Used(answer, valid)|
  {
    var survivors, used := Scan(true, Stripped(answer, valid)), Used(answer, valid);
    hide Scan, Numbers, Print, Stripped, Used, Renumbered, Tidy, Canonical;
    ScanPrints(true, Stripped(answer, valid));
    RescansExactlyWhenCanonical(true, survivors);
    RenumberedInRange(true, true, survivors, used);
    TidyKeepsCitations(Renumbered(survivors, used));
  }

  /** Unless something is spliced, the citations of the result are the valid ones of
      the answer, in order, numbered 1 to k by first appearance. */
  lemma CitationsAreRenumbered(answer: Text, valid: set<nat>)
    requires !Spliced(true, Scan(true, answer), valid) && |Used(answer, valid)| < 1000
    ensures var used, was := Used(answer, valid), Numbers(Kept(Scan(true, answer), valid));
            var now := Numbers(Scan(true, Content(answer, valid)));
            && (forall n :: n in was ==> n in used)
            && now == Ranks(used, was)
            && FirstSeen(now) == Counting(|used|)
  {
    var survivors, used := Scan(true, Stripped(answer, valid)), Used(answer, valid);
    FirstSeenCovers(Numbers(Kept(Scan(true, answer), valid)));
    FirstSeenIsDense(used, Numbers(Kept(Scan(true, answer), valid)));
    hide Scan, Numbers, Print, Stripped, Used, Renumbered, Tidy, Canonical, Spliced, Kept, FirstSeen;
    StrippingIsExact(answer, valid);
    ScanPrints(true, Stripped(answer, valid));
    RescansExactlyWhenCanonical(true, survivors);
    RenumberedNumbers(true, survivors, used);
    TidyKeepsCitations(Renumbered(survivors, used));
  }

  /** When something is spliced the reader can see it: a marker of no known source
      turns up, is not in the renumbering, and is written as `[undefined]`. */
  lemma SplicedShowsUndefined(d: Numeral, n: Numeral, valid: set<nat>)
    requires Number(d) !in valid
    ensures var answer := [OPEN] + (Boxed(d) + (n + [CLOSE]));
            Spliced(true, Scan(true, answer), valid) && Content(answer, valid) == Codes("[undefined]")
  {
    hide *;
    var x := n + [CLOSE];
    var answer, tail := [OPEN] + (Boxed(d) + x), Scan(true, x);
    SplicedTokens(d, n);
    PlainTail(true, x, valid);
    SplicedIsKept(d, n, tail, valid);
    ContentDef(answer, valid);
    NothingSeen();
    ScanMark(n, []);
    OneBox(n, []);
    UndefinedIsSpelled();
  }

  lemma UndefinedIsSpelled()
    ensures Boxed(UNDEFINED) == Codes("[undefined]")
  {
  }

  lemma SplicedTokens(d: Numeral, n: Numeral)
    ensures var x := n + [CLOSE];
            OPEN !in x && Scan(true, [OPEN] + (Boxed(d) + x)) == [Char(OPEN)] + ([Mark(d)] + Scan(true, x))
  {
    var x := n + [CLOSE];
    assert ([OPEN] + (Boxed(d) + x))[1] == OPEN;
    ScanChar(true, OPEN, Boxed(d) + x);
    ScanMark(d, x);
  }

  lemma SplicedIsKept(d: Numeral, n: Numeral, tail: seq<Token>, valid: set<nat>)
    requires Number(d) !in valid && Kept(tail, valid) == tail && Numbers(tail) == []
    requires Print(tail) == n + [CLOSE] == CharsAhead(tail) && (tail == [] || tail[0].Char?)
    ensures var tokens := [Char(OPEN)] + ([Mark(d)] + tail);
            && Spliced(true, tokens, valid)
            && Numbers(Kept(tokens, valid)) == [] && Print(Kept(tokens, valid)) == Boxed(n)
  {
    var tokens := [Char(OPEN)] + ([Mark(d)] + tail);
    assert tokens[1..] == [Mark(d)] + tail && tokens[1..][1..] == tail;
    SplicedHere(d, n, tail, valid);
    KeptFirst(tokens, valid);
    KeptFirst(tokens[1..], valid);
    hide *;
    assert [] + tail == tail;
    PrintFirst(Char(OPEN), tail);
    NumbersFirst(Char(OPEN), tail);
    BoxedParts(n);
  }

  lemma BoxedParts(n: Numeral)
    ensures Written(Char(OPEN)) + (n + [CLOSE]) == Boxed(n)
  {
  }

  lemma SplicedHere(d: Numeral, n: Numeral, tail: seq<Token>, valid: set<nat>)
    requires Number(d) !in valid && CharsAhead(tail) == n + [CLOSE] && (tail == [] || tail[0].Char?)
    ensures Spliced(true, [Char(OPEN)] + ([Mark(d)] + tail), valid)
  {
    var tokens := [Char(OPEN)] + ([Mark(d)] + tail);
    assert tokens[1..] == [Mark(d)] + tail;
    SkippedTail(d, tail, valid);
    BoxedIsGroup(n, []);
    assert Boxed(n) + [] == [OPEN] + CharsAhead(tail);
  }

  lemma NothingSeen()
    ensures FirstSeen([]) == []
  {
  }

  /** A lone marker of no known source. */
  lemma OneBox(n: Numeral, used: seq<nat>)
    requires Number(n) !in used
    ensures Boxed(n) + [] == Boxed(n) && Scan(true, []) == []
    ensures Tidy(Renumbered([Mark(n)] + [], used)) == Boxed(UNDEFINED)
  {
    assert ([Mark(n)] + [])[1..] == [];
    assert Renumbered([Mark(n)] + [], used) == Boxed(UNDEFINED) + [] == Boxed(UNDEFINED);
    UndefinedIsTidy();
  }

  lemma SkippedTail(d: Numeral, tail: seq<Token>, valid: set<nat>)
    requires Number(d) !in valid && (tail == [] || tail[0].Char?)
    ensures Skip([Mark(d)] + tail, valid) == tail
  {
    assert ([Mark(d)] + tail)[1..] == tail;
  }

  lemma {:induction false} PlainTail(open: bool, x: Text, valid: set<nat>)
    requires OPEN !in x
    ensures var ts := Scan(open, x);
            && Kept(ts, valid) == ts && Numbers(ts) == [] && Print(ts) == x && CharsAhead(ts) == x
            && (ts == [] || ts[0].Char?)
    decreases |x|
  {
    if x != [] {
      PlainTail(!Blocks(x[0]), x[1..], valid);
      assert x == [x[0]] + x[1..] && GroupEnd(x, 0) == -1;
      ScanChar(open, x[0], x[1..]);
      var ts := Scan(open, x);
      assert ts[1..] == Scan(!Blocks(x[0]), x[1..]);
      KeptFirst(ts, valid);
    }
  }

  lemma UndefinedIsTidy()
    ensures Tidy(Boxed(UNDEFINED)) == Boxed(UNDEFINED)
  {
    NothingToShrink(Blanks, Boxed(UNDEFINED));
    NothingToShrink(Stops, Boxed(UNDEFINED));
  }
}
