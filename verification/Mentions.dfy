/** The speaker-mention tokeniser: `@[LABEL]` tokens in prose
    (apps/web/src/components/Markdown.tsx). */
module Mentions {
  import opened Utf16

  const AT: CodeUnit := 0x40
  const OPEN: CodeUnit := 0x5B
  const CLOSE: CodeUnit := 0x5D

  predicate LabelChar(c: CodeUnit) {
    c != CLOSE && !IsSpace(c)
  }

  predicate ValidLabel(name: Text) {
    name != [] && forall k :: 0 <= k < |name| ==> LabelChar(name[k])
  }

  function Token(name: Text): Text {
    [AT, OPEN] + name + [CLOSE]
  }

  /** `v[p..e]` is a match of `/@\[([^\]\s]+)\]/`. */
  predicate MentionAt(v: Text, p: int, e: int) {
    && 0 <= p && p + 4 <= e <= |v|
    && v[p] == AT && v[p + 1] == OPEN && v[e - 1] == CLOSE
    && forall k :: p + 2 <= k < e - 1 ==> LabelChar(v[k])
  }

  /** The end of the run of label characters that starts at `i`. */
  function LabelEnd(v: Text, i: nat): (j: nat)
    requires i <= |v|
    ensures i <= j <= |v|
    ensures forall k :: i <= k < j ==> LabelChar(v[k])
    ensures j < |v| ==> !LabelChar(v[j])
    decreases |v| - i
  {
    if i < |v| && LabelChar(v[i]) then LabelEnd(v, i + 1) else i
  }

  /** Where the match starting at `p` ends, or -1. */
  function MatchEnd(v: Text, p: nat): (e: int)
    ensures e != -1 ==> MentionAt(v, p, e)
    ensures e == -1 ==> forall x :: !MentionAt(v, p, x)
  {
    if p + 4 <= |v| && v[p] == AT && v[p + 1] == OPEN then
      var j := LabelEnd(v, p + 2);
      if p + 2 < j < |v| && v[j] == CLOSE then j + 1 else -1
    else -1
  }

  /** The same, character by character: `@`, `[`, then anything but `]` and white
      space, at least once, then `]`. */
  ghost predicate TokenAt(v: Text, p: int, e: int) {
    && 0 <= p && p + 4 <= e <= |v|
    && v[p] == '@' as int && v[p + 1] == '[' as int && v[e - 1] == ']' as int
    && forall k :: p + 2 <= k < e - 1 ==> v[k] != ']' as int && v[k] !in WHITE
  }

  lemma TokensAreMatches(v: Text, p: int, e: int)
    ensures TokenAt(v, p, e) <==> MentionAt(v, p, e)
  {
    forall k | 0 <= k < |v| ensures IsSpace(v[k]) <==> v[k] in WHITE {
      SpacesAreWhite(v[k]);
    }
    hide IsSpace;
  }

  lemma NoMatchNoToken(v: Text)
    ensures (forall p: nat :: MatchEnd(v, p) == -1) <==> (forall p, e :: !TokenAt(v, p, e))
  {
    forall p, e ensures TokenAt(v, p, e) <==> MentionAt(v, p, e) {
      TokensAreMatches(v, p, e);
    }
    hide TokenAt;
    if p: nat :| MatchEnd(v, p) != -1 {
      assert TokenAt(v, p, MatchEnd(v, p));
    }
    if p, e :| TokenAt(v, p, e) {
      assert MentionAt(v, p, e);
      assert MatchEnd(v, p) != -1;
    }
  }

  lemma MatchIsUnique(v: Text, p: nat, e: int)
    requires MentionAt(v, p, e)
    ensures MatchEnd(v, p) == e
  {
  }

  /** `MENTION_RE.exec` from `lastIndex`: the least start of a match, or -1. */
  function NextMention(v: Text, lastIndex: nat): (p: int)
    ensures p == -1 || (lastIndex <= p < |v| && MatchEnd(v, p) != -1)
    ensures forall q :: lastIndex <= q && (p == -1 || q < p) ==> MatchEnd(v, q) == -1
    decreases |v| - lastIndex
  {
    if lastIndex >= |v| then -1
    else if MatchEnd(v, lastIndex) != -1 then lastIndex
    else NextMention(v, lastIndex + 1)
  }

  datatype Part = Prose(value: Text) | Mention(name: Text)

  function Shown(part: Part): Text {
    match part
    case Prose(value) => value
    case Mention(name) => Token(name)
  }

  function Print(parts: seq<Part>): Text {
    if parts == [] then [] else Shown(parts[0]) + Print(parts[1..])
  }

  function SplitFrom(v: Text, last: nat): seq<Part>
    requires last <= |v|
    decreases |v| - last
  {
    var p := NextMention(v, last);
    if p == -1 then
      if last < |v| then [Prose(v[last..])] else []
    else
      var e := MatchEnd(v, p);
      Lead(v, last, p) + [Mention(v[p + 2..e - 1])] + SplitFrom(v, e)
  }

  /** The prose between the last match and the next one, if there is any. */
  function Lead(v: Text, last: nat, p: nat): seq<Part>
    requires last <= p <= |v|
  {
    if p > last then [Prose(v[last..p])] else []
  }

  lemma SplitHit(v: Text, last: nat, p: nat)
    requires last <= |v| && NextMention(v, last) == p
    ensures last <= p && MentionAt(v, p, MatchEnd(v, p))
    ensures var e := MatchEnd(v, p);
            SplitFrom(v, last) == Lead(v, last, p) + [Mention(v[p + 2..e - 1])] + SplitFrom(v, e)
  {
  }

  lemma SplitMiss(v: Text, last: nat)
    requires last <= |v| && NextMention(v, last) == -1
    ensures SplitFrom(v, last) == Lead(v, last, |v|)
  {
    assert v[last..|v|] == v[last..];
  }

  function Split(v: Text): seq<Part> {
    SplitFrom(v, 0)
  }

  method SplitMentions(value: Text) returns (parts: seq<Part>)
    ensures parts == Split(value)
    ensures Print(parts) == value && Canonical(parts)
  {
    hide *;
    parts := [];
    var last := 0;
    var index := NextMention(value, 0);
    NothingSplit(value);
    while index != -1
      invariant last <= |value| && index == NextMention(value, last)
      invariant Split(value) == parts + SplitFrom(value, last)
      decreases |value| - last
    {
      var end := MatchEnd(value, index);
      MatchFits(value, index);
      SplitHit(value, last, index);
      LeadIsProse(value, last, index);
      Regroup(parts, Lead(value, last, index), [Mention(value[index + 2..end - 1])], SplitFrom(value, end));
      if index > last {
        parts := parts + [Prose(value[last..index])];
      }
      parts := parts + [Mention(value[index + 2..end - 1])];
      last := end;
      index := NextMention(value, last);
    }
    SplitMiss(value, last);
    LeadIsProse(value, last, |value|);
    SplitIsCanonical(value, 0);
    assert value[0..] == value && value[last..|value|] == value[last..];
    if last < |value| {
      parts := parts + [Prose(value[last..])];
    }
  }

  lemma NothingSplit(v: Text)
    ensures Split(v) == SplitFrom(v, 0) == [] + SplitFrom(v, 0)
  {
  }

  lemma LeadIsProse(v: Text, last: nat, p: nat)
    requires last <= p <= |v|
    ensures Lead(v, last, p) == if p > last then [Prose(v[last..p])] else []
  {
  }

  lemma Regroup<T>(a: seq<T>, b: seq<T>, c: seq<T>, d: seq<T>)
    ensures a + (b + c + d) == (a + b) + c + d
    ensures b == [] ==> a + b == a
  {
  }

  // ---- matches in a suffix ----

  lemma MentionInSuffix(v: Text, k: nat, p: nat, e: int)
    requires k <= |v|
    ensures MentionAt(v, k + p, k + e) <==> MentionAt(v[k..], p, e)
  {
    if p + 4 <= e <= |v| - k {
      forall i | p <= i < e ensures v[k..][i] == v[k + i] {}
      forall i | k + p <= i < k + e ensures v[i] == v[k..][i - k] {}
    }
  }

  lemma MatchInSuffix(v: Text, k: nat, p: nat)
    requires k <= |v|
    ensures MatchEnd(v, k + p) == if MatchEnd(v[k..], p) == -1 then -1 else k + MatchEnd(v[k..], p)
  {
    var e, x := MatchEnd(v, k + p), MatchEnd(v[k..], p);
    hide LabelEnd, MentionAt;
    MentionInSuffix(v, k, p, x);
    MentionInSuffix(v, k, p, e - k);
    if x != -1 { MatchIsUnique(v, k + p, k + x); }
  }

  lemma NextInSuffix(v: Text, k: nat, last: nat)
    requires k + last <= |v|
    ensures NextMention(v, k + last) == if NextMention(v[k..], last) == -1 then -1 else k + NextMention(v[k..], last)
  {
    hide MatchEnd;
    var p, q := NextMention(v, k + last), NextMention(v[k..], last);
    if p != -1 { MatchInSuffix(v, k, p - k); }
    if q != -1 { MatchInSuffix(v, k, q); }
  }

  lemma {:induction false} SplitInSuffix(v: Text, k: nat, last: nat)
    requires k + last <= |v|
    ensures SplitFrom(v, k + last) == SplitFrom(v[k..], last)
    decreases |v| - last
  {
    hide SplitFrom, NextMention, MatchEnd, Lead, MentionAt;
    NextInSuffix(v, k, last);
    var w, q := v[k..], NextMention(v[k..], last);
    if q == -1 {
      SplitMiss(v, k + last);
      SplitMiss(w, last);
      LeadInSuffix(v, k, last, |w|);
    } else {
      SplitHit(v, k + last, k + q);
      SplitHit(w, last, q);
      MatchInSuffix(v, k, q);
      SplitInSuffix(v, k, MatchEnd(w, q));
      LeadInSuffix(v, k, last, q);
      assert q + 4 <= MatchEnd(w, q) <= |w| by { MatchFits(w, q); }
      SuffixSlice(v, k, q + 2, MatchEnd(w, q) - 1);
    }
  }

  lemma MatchFits(v: Text, p: nat)
    requires MatchEnd(v, p) != -1
    ensures p + 4 <= MatchEnd(v, p) <= |v|
  {
  }

  lemma LeadInSuffix(v: Text, k: nat, last: nat, p: nat)
    requires last <= p && k + p <= |v|
    ensures Lead(v, k + last, k + p) == Lead(v[k..], last, p)
  {
    SuffixSlice(v, k, last, p);
  }

  lemma SuffixSlice(v: Text, k: nat, lo: nat, hi: nat)
    requires lo <= hi && k + hi <= |v|
    ensures v[k..][lo..hi] == v[k + lo..k + hi]
  {
  }

  // ---- splitting loses nothing and leaves no token behind ----

  /** Labels are valid, prose is non-empty and never adjacent, and no token of the
      printed text starts inside prose. */
  ghost predicate Canonical(parts: seq<Part>) {
    parts == [] ||
    (Canonical(parts[1..]) &&
     match parts[0]
     case Mention(name) => ValidLabel(name)
     case Prose(value) =>
       && value != []
       && (|parts| > 1 ==> parts[1].Mention?)
       && forall p :: 0 <= p < |value| ==> MatchEnd(Print(parts), p) == -1)
  }

  lemma SplitToken(name: Text, rest: Text)
    requires ValidLabel(name)
    ensures NextMention(Token(name) + rest, 0) == 0
    ensures Split(Token(name) + rest) == [Mention(name)] + Split(rest)
  {
    hide SplitFrom, NextMention, MatchEnd;
    var v, e := Token(name) + rest, |name| + 3;
    assert v[2..e - 1] == name && v[e..] == rest;
    assert MentionAt(v, 0, e);
    MatchIsUnique(v, 0, e);
    SplitHit(v, 0, 0);
    SplitInSuffix(v, e, 0);
  }

  lemma SplitAfterProse(t: Text, w: Text)
    requires t != [] && (w == [] || NextMention(w, 0) == 0)
    requires forall p :: 0 <= p < |t| ==> MatchEnd(t + w, p) == -1
    ensures Split(t + w) == [Prose(t)] + Split(w)
  {
    hide MatchEnd, Split;
    var v := t + w;
    assert v[|t|..] == w && v[..|t|] == t && v[0..|t|] == t;
    if w == [] {
      assert v[0..] == t && NextMention(v, 0) == -1;
      assert Split(v) == [Prose(t)] && Split(w) == [] by { NothingToSplit(v); }
    } else {
      NextInSuffix(v, |t|, 0);
      assert NextMention(v, 0) == |t|;
      SplitInSuffix(v, |t|, 0);
      ProseThenRest(v, |t|);
    }
  }

  lemma NothingToSplit(v: Text)
    requires NextMention(v, 0) == -1
    ensures Split(v) == if v == [] then [] else [Prose(v)]
    ensures Split([]) == []
  {
    assert v[0..] == v;
  }

  lemma ProseThenRest(v: Text, n: nat)
    requires 0 < n <= |v| && NextMention(v, 0) == n == NextMention(v, n)
    ensures Split(v) == [Prose(v[0..n])] + SplitFrom(v, n)
    ensures Split(v[n..]) == SplitFrom(v, n)
  {
    hide SplitFrom, NextMention, MatchEnd;
    SplitInSuffix(v, n, 0);
    SplitHit(v, 0, n);
    SplitHit(v, n, n);
    Regroup([Prose(v[0..n])], [], [Mention(v[n + 2..MatchEnd(v, n) - 1])], SplitFrom(v, MatchEnd(v, n)));
  }

  /** Printed canonical parts split back into themselves. */
  lemma {:induction false} CanonicalResplits(parts: seq<Part>)
    requires Canonical(parts)
    ensures Split(Print(parts)) == parts
  {
    hide Split, SplitFrom, NextMention, MatchEnd;
    if parts == [] {
      NothingToSplit([]);
    } else {
      CanonicalResplits(parts[1..]);
      assert parts == [parts[0]] + parts[1..];
      match parts[0]
      case Mention(name) => SplitToken(name, Print(parts[1..]));
      case Prose(value) =>
        RestStartsWithToken(parts[1..]);
        assert Print(parts) == value + Print(parts[1..]);
        SplitAfterProse(value, Print(parts[1..]));
    }
  }

  lemma RestStartsWithToken(parts: seq<Part>)
    requires Canonical(parts) && (parts == [] || parts[0].Mention?)
    ensures Print(parts) == [] || NextMention(Print(parts), 0) == 0
  {
    if parts != [] {
      SplitToken(parts[0].name, Print(parts[1..]));
    }
  }

  lemma {:induction false} SplitIsCanonical(v: Text, last: nat)
    requires last <= |v|
    ensures Print(SplitFrom(v, last)) == v[last..] && Canonical(SplitFrom(v, last))
    decreases |v| - last
  {
    hide SplitFrom, NextMention, MatchEnd, Print, Canonical;
    var p := NextMention(v, last);
    if p == -1 {
      LastProseIsCanonical(v, last);
    } else {
      var e := MatchEnd(v, p);
      SplitHit(v, last, p);
      SplitIsCanonical(v, e);
      TokenIsCanonical(v, p, e, SplitFrom(v, e));
      hide *;
      LeadIsCanonical(v, last, p, [Mention(v[p + 2..e - 1])] + SplitFrom(v, e));
      Assoc(Lead(v, last, p), [Mention(v[p + 2..e - 1])], SplitFrom(v, e));
    }
  }

  lemma LeadIsCanonical(v: Text, last: nat, p: nat, tail: seq<Part>)
    requires last <= p <= |v| && forall q :: last <= q < p ==> MatchEnd(v, q) == -1
    requires Canonical(tail) && Print(tail) == v[p..] && (tail == [] || tail[0].Mention?)
    ensures Print(Lead(v, last, p) + tail) == v[last..] && Canonical(Lead(v, last, p) + tail)
  {
    if p > last {
      ProseIsCanonical(v, last, p, tail);
    } else {
      assert Lead(v, last, p) + tail == tail;
    }
  }

  lemma TokenThenRest(v: Text, p: nat, e: nat)
    requires MentionAt(v, p, e)
    ensures v[p..] == Token(v[p + 2..e - 1]) + v[e..]
  {
  }

  lemma TokenIsCanonical(v: Text, p: nat, e: nat, rest: seq<Part>)
    requires MentionAt(v, p, e) && Canonical(rest) && Print(rest) == v[e..]
    ensures var tail := [Mention(v[p + 2..e - 1])] + rest;
            Canonical(tail) && Print(tail) == v[p..]
  {
    var name := v[p + 2..e - 1];
    var tail := [Mention(name)] + rest;
    assert tail[1..] == rest && tail[0] == Mention(name);
    assert ValidLabel(name);
    assert Canonical(tail) && Print(tail) == Token(name) + v[e..];
    TokenThenRest(v, p, e);
  }

  lemma NoMatchBefore(v: Text, last: nat, p: nat)
    requires last <= p <= |v| && forall q :: last <= q < p ==> MatchEnd(v, q) == -1
    ensures forall i :: 0 <= i < p - last ==> MatchEnd(v[last..], i) == -1
  {
    forall i | 0 <= i < p - last ensures MatchEnd(v[last..], i) == -1 {
      MatchInSuffix(v, last, i);
    }
  }

  lemma ProseIsCanonical(v: Text, last: nat, p: nat, tail: seq<Part>)
    requires last < p <= |v| && forall q :: last <= q < p ==> MatchEnd(v, q) == -1
    requires Canonical(tail) && Print(tail) == v[p..] && (tail == [] || tail[0].Mention?)
    ensures Print([Prose(v[last..p])] + tail) == v[last..] && Canonical([Prose(v[last..p])] + tail)
  {
    NoMatchBefore(v, last, p);
    hide MatchEnd;
    var all := [Prose(v[last..p])] + tail;
    assert all[1..] == tail;
    assert v[last..p] + v[p..] == v[last..];
  }

  lemma LastProseIsCanonical(v: Text, last: nat)
    requires last <= |v| && NextMention(v, last) == -1
    ensures Print(SplitFrom(v, last)) == v[last..] && Canonical(SplitFrom(v, last))
  {
    SplitMiss(v, last);
    if last < |v| {
      ProseIsCanonical(v, last, |v|, []);
      assert [Prose(v[last..|v|])] + [] == Lead(v, last, |v|);
    }
  }

  /** Re-splitting printed parts gives the same parts exactly when they are
      canonical: the parts of a text are the only canonical parts that print it. */
  lemma ResplitsExactlyWhenCanonical(parts: seq<Part>)
    ensures Split(Print(parts)) == parts <==> Canonical(parts)
  {
    if Canonical(parts) {
      CanonicalResplits(parts);
    }
    SplitIsCanonical(Print(parts), 0);
  }

  /** A condition that is easy to see: no prose holds `@[`. */
  predicate Plain(parts: seq<Part>) {
    && (forall k :: 0 <= k < |parts| ==>
          match parts[k]
          case Mention(name) => ValidLabel(name)
          case Prose(value) =>
            value != [] && forall i :: 0 <= i < |value| - 1 ==> !(value[i] == AT && value[i + 1] == OPEN))
    && (forall k :: 0 <= k < |parts| - 1 ==> parts[k].Mention? || parts[k + 1].Mention?)
  }

  lemma {:induction false} PlainIsCanonical(parts: seq<Part>)
    requires Plain(parts)
    ensures Canonical(parts)
  {
    if parts != [] {
      forall k | 0 <= k < |parts| - 1 ensures parts[1..][k] == parts[k + 1] {}
      PlainIsCanonical(parts[1..]);
      if parts[0].Prose? {
        var t, v := parts[0].value, Print(parts);
        forall p | 0 <= p < |t| ensures MatchEnd(v, p) == -1 {
          assert v[p] == t[p];
          if p + 1 < |t| {
            assert v[p + 1] == t[p + 1];
          } else if |parts| > 1 {
            assert v[p + 1] == Print(parts[1..])[0] == AT;
          }
        }
      }
    }
  }

  lemma PlainResplits(parts: seq<Part>)
    requires Plain(parts)
    ensures Split(Print(parts)) == parts
  {
    PlainIsCanonical(parts);
    CanonicalResplits(parts);
  }

  lemma MatchInPrefix(t: Text, w: Text, p: nat)
    requires MatchEnd(t, p) != -1
    ensures MatchEnd(t + w, p) != -1
  {
    assert MentionAt(t + w, p, MatchEnd(t, p));
  }

  /** No prose part of a split still contains a whole token, and every name is
      non-empty and free of `]` and white space. */
  lemma {:induction false} CanonicalPartsAreClean(parts: seq<Part>, k: nat)
    requires Canonical(parts) && k < |parts|
    ensures match parts[k]
            case Mention(name) => ValidLabel(name)
            case Prose(value) => value != [] && forall p: nat :: MatchEnd(value, p) == -1
  {
    if k > 0 {
      CanonicalPartsAreClean(parts[1..], k - 1);
    } else if parts[0].Prose? {
      assert Print(parts) == parts[0].value + Print(parts[1..]);
      forall p: nat ensures MatchEnd(parts[0].value, p) == -1 {
        if MatchEnd(parts[0].value, p) != -1 {
          MatchInPrefix(parts[0].value, Print(parts[1..]), p);
        }
      }
    }
  }

  lemma SplitLeavesNoToken(v: Text, k: nat)
    requires k < |Split(v)|
    ensures match Split(v)[k]
            case Mention(name) =>
              name != [] && forall i :: 0 <= i < |name| ==> name[i] != ']' as int && name[i] !in WHITE
            case Prose(value) => value != [] && forall p, e :: !TokenAt(value, p, e)
  {
    hide IsSpace, TokenAt;
    SplitIsCanonical(v, 0);
    CanonicalPartsAreClean(Split(v), k);
    match Split(v)[k]
    case Mention(name) =>
      forall i | 0 <= i < |name| ensures name[i] != ']' as int && name[i] !in WHITE {
        SpacesAreWhite(name[i]);
      }
    case Prose(value) =>
      NoMatchNoToken(value);
  }
}
