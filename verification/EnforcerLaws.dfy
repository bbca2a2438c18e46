/** What is left of an answer after its citations were enforced
    (libs/backend/chat/src/citation-enforcer.ts). */
module EnforcerLaws {
  import opened Utf16
  import opened Digits
  import opened Filters
  import opened Citations
  import opened CitationTokens
  import opened CitationTidy
  import opened CitationEnforcer

  /** The characters outside the citations. */
  function Prose(ts: seq<Token>): Text {
    if ts == [] then [] else (if ts[0].Char? then [ts[0].c] else []) + Prose(ts[1..])
  }

  ghost function Among(valid: set<nat>): nat -> bool {
    n => n in valid
  }

  lemma ProseFirst(t: Token, ts: seq<Token>)
    ensures Prose([t] + ts) == (if t.Char? then [t.c] else []) + Prose(ts)
  {
    assert ([t] + ts)[1..] == ts;
  }

  /** Stripping leaves the numbers of known sources, in order, and all the prose. */
  lemma {:induction false} StrippedNumbers(ts: seq<Token>, valid: set<nat>)
    ensures Numbers(Kept(ts, valid)) == Filter(Among(valid), Numbers(ts))
    ensures Prose(Kept(ts, valid)) == Prose(ts)
  {
    if ts != [] {
      StrippedNumbers(ts[1..], valid);
      KeptFirst(ts, valid);
      StrippedFirst(ts[0], ts[1..], valid);
      assert ts == [ts[0]] + ts[1..];
    }
  }

  lemma StrippedFirst(t: Token, rest: seq<Token>, valid: set<nat>)
    requires Numbers(Kept(rest, valid)) == Filter(Among(valid), Numbers(rest))
    requires Prose(Kept(rest, valid)) == Prose(rest)
    ensures var kept := (if Keeps(valid)(t) then [t] else []) + Kept(rest, valid);
            Numbers(kept) == Filter(Among(valid), Numbers([t] + rest)) && Prose(kept) == Prose([t] + rest)
  {
    hide Kept, Number, Filter;
    NumbersFirst(t, rest);
    ProseFirst(t, rest);
    NumbersFirst(t, Kept(rest, valid));
    ProseFirst(t, Kept(rest, valid));
    assert [] + Kept(rest, valid) == Kept(rest, valid) && [] + Numbers(rest) == Numbers(rest);
    if t.Mark? {
      FilterCons(Among(valid), Number(t.digits), Numbers(rest));
      assert [] + Filter(Among(valid), Numbers(rest)) == Filter(Among(valid), Numbers(rest));
      assert [] + Prose(rest) == Prose(rest);
    } else {
      assert [] + Numbers(Kept(rest, valid)) == Numbers(Kept(rest, valid));
    }
  }

  /** The used numbers are those that occur, each once, in the order in which they
      first do. */
  lemma {:induction false} FirstSeenPicks(ns: seq<nat>) returns (at: seq<nat>)
    ensures var used := FirstSeen(ns);
            && |at| == |used|
            && (forall k :: 0 <= k < |at| ==> at[k] < |ns| && ns[at[k]] == used[k])
            && (forall k, l :: 0 <= k < l < |at| ==> at[k] < at[l])
            && (forall k, j :: 0 <= k < |at| && 0 <= j < at[k] ==> ns[j] != used[k])
            && (forall j :: 0 <= j < |ns| ==> ns[j] in used)
  {
    at := [];
    if ns != [] {
      var front, last := ns[..|ns| - 1], ns[|ns| - 1];
      at := FirstSeenPicks(front);
      assert forall j :: 0 <= j < |front| ==> front[j] == ns[j];
      FirstSeenCovers(front);
      if last !in FirstSeen(front) {
        at := at + [|ns| - 1];
      }
    }
  }

  /** One token for another: characters as they were, a mark with the place of its
      number among the used ones. */
  ghost predicate Renewed(was: Token, now: Token, used: seq<nat>) {
    match was
    case Char(_) => now == was
    case Mark(digits) =>
      && now.Mark? && 1 <= Number(now.digits) <= |used|
      && used[Number(now.digits) - 1] == Number(digits)
  }

  lemma {:induction false} RenumberedTokens(open: bool, ts: seq<Token>, used: seq<nat>) returns (out: seq<Token>)
    requires Canonical(open, ts) && |used| < 1000 && forall n :: n in Numbers(ts) ==> n in used
    ensures Scan(open, Renumbered(ts, used)) == out && |out| == |ts|
    ensures forall i :: 0 <= i < |ts| ==> Renewed(ts[i], out[i], used)
    decreases |ts|
  {
    hide Scan, GroupEnd, Rank, Boxed, NewNumber, Number;
    if ts == [] {
      NothingScanned(open, used);
      out := [];
    } else {
      var rest := ts[1..];
      assert forall n :: n in Numbers(rest) ==> n in Numbers(ts);
      match ts[0]
      case Char(c) =>
        if open { RenumberedHead(open, ts, used); }
        ScanChar(open, c, Renumbered(rest, used));
        out := RenumberedTokens(!Blocks(c), rest, used);
        out := [Char(c)] + out;
      case Mark(digits) =>
        var n := Number(digits);
        assert n in Numbers(ts);
        out := RenumberedTokens(true, rest, used);
        var now := NewMark(n, Renumbered(rest, used), used);
        out := [now] + out;
    }
  }

  lemma NewMark(n: nat, w: Text, used: seq<nat>) returns (now: Token)
    requires n in used && |used| < 1000
    ensures now.Mark? && 1 <= Number(now.digits) <= |used| && used[Number(now.digits) - 1] == n
    ensures Scan(true, Boxed(NewNumber(used, n)) + w) == [now] + Scan(true, w)
  {
    hide Scan, GroupEnd;
    var r := Rank(used, n);
    FigureCount(r);
    ScanMark(Decimal(r), w);
    NumberOfDecimal(r);
    now := Mark(Decimal(r));
  }

  /** Unless something is spliced, the result is the tidied text of the answer's
      characters and valid citations, in order, each with its new number. */
  lemma ContentIsRenewed(answer: Text, valid: set<nat>) returns (out: seq<Token>)
    requires !Spliced(true, Scan(true, answer), valid) && |Used(answer, valid)| < 1000
    ensures var kept := Kept(Scan(true, answer), valid);
            && Content(answer, valid) == Tidy(Print(out)) && Scan(true, Print(out)) == out
            && |out| == |kept| && forall i :: 0 <= i < |kept| ==> Renewed(kept[i], out[i], Used(answer, valid))
  {
    var kept, used := Kept(Scan(true, answer), valid), Used(answer, valid);
    FirstSeenCovers(Numbers(kept));
    ContentDef(answer, valid);
    StrippedDef(answer, valid);
    hide Scan, Numbers, Print, Stripped, Used, Renumbered, Tidy, Canonical, Spliced, Kept, FirstSeen, Renewed, Content;
    StrippingIsExact(answer, valid);
    ScanPrints(true, Stripped(answer, valid));
    RescansExactlyWhenCanonical(true, kept);
    out := RenumberedTokens(true, kept, used);
    ScanPrints(true, Renumbered(kept, used));
  }
}
