/** Alias hygiene: the "Also known as" list free of function words, duplicates and
    the canonical name (libs/contracts/src/alias-hygiene.ts). */
module AliasHygiene {
  import Utf16
  import opened Filters

  type CodePoint = c: int | 0 <= c < 0x11_0000
  type Name = seq<CodePoint>

  const BLANK: CodePoint := 0x20

  /** The parts of Unicode and of the word list the filter depends on, left open:
      how a character is lower-cased between the text before and after it (a capital
      sigma ending a word has a form of its own), which characters match `\p{L}`, and
      the terms of `NON_NAME_TERMS`. */
  datatype Rules = Rules(lower: (Name, CodePoint, Name) -> Name, letter: CodePoint -> bool, nonNames: set<Name>) {
    /** Lower-casing leaves white space alone, never makes any, never deletes a
        character, and has nothing left to do on its own output, wherever that stands. */
    ghost predicate Valid() {
      forall before: Name, c: CodePoint, after: Name ::
        var low := lower(before, c, after);
        if Space(c) then low == [c]
        else low != [] && forall k :: 0 <= k < |low| ==> !Space(low[k]) && Settled(low[k])
    }

    ghost predicate Settled(c: CodePoint) {
      forall before: Name, after: Name :: lower(before, c, after) == [c]
    }
  }

  predicate Space(c: CodePoint) {
    Utf16.IsSpace(c)
  }

  function TrimStart(v: Name): Name {
    DropFirst(Space, v)
  }

  function TrimEnd(v: Name): Name {
    DropLast(Space, v)
  }

  /** `v.trim()`. */
  function Trim(v: Name): Name {
    TrimEnd(TrimStart(v))
  }

  /** `v.toLowerCase()`. */
  function Lower(rules: Rules, v: Name): Name {
    LowerAfter(rules, [], v)
  }

  function LowerAfter(rules: Rules, before: Name, v: Name): Name
    decreases |v|
  {
    if v == [] then []
    else rules.lower(before, v[0], v[1..]) + LowerAfter(rules, before + [v[0]], v[1..])
  }

  /** `v.replace(/\s+/g, ' ')`. */
  function Collapse(v: Name): Name
    decreases |v|
  {
    if v == [] then []
    else if Space(v[0]) then
      ShorterStart(v);
      [BLANK] + Collapse(TrimStart(v))
    else [v[0]] + Collapse(v[1..])
  }

  lemma ShorterStart(v: Name)
    ensures |TrimStart(v)| <= |v|
    ensures v != [] && Space(v[0]) ==> |TrimStart(v)| < |v|
  {
  }

  function NormalizeAliasTerm(rules: Rules, v: Name): Name {
    Collapse(Lower(rules, Trim(v)))
  }

  /** What `isMeaningfulAlias` asks of the normal form. */
  predicate MeaningfulKey(rules: Rules, key: Name) {
    key != [] && (exists k :: 0 <= k < |key| && rules.letter(key[k])) && key !in rules.nonNames
  }

  predicate IsMeaningfulAlias(rules: Rules, term: Name) {
    MeaningfulKey(rules, NormalizeAliasTerm(rules, term))
  }

  /** The alias at `i` is kept: it is meaningful, is not the canonical name, and no
      earlier alias has its normal form. */
  ghost predicate Kept(rules: Rules, canonical: Name, aliases: seq<Name>, i: nat)
    requires i < |aliases|
  {
    var key := NormalizeAliasTerm(rules, aliases[i]);
    && MeaningfulKey(rules, key)
    && key != NormalizeAliasTerm(rules, canonical)
    && forall j :: 0 <= j < i ==> NormalizeAliasTerm(rules, aliases[j]) != key
  }

  /** The kept aliases, trimmed, in input order. */
  ghost function Cleaned(rules: Rules, canonical: Name, aliases: seq<Name>): seq<Name> {
    if aliases == [] then []
    else
      var n := |aliases| - 1;
      Cleaned(rules, canonical, aliases[..n]) + if Kept(rules, canonical, aliases, n) then [Trim(aliases[n])] else []
  }

  method SanitizeAliases(rules: Rules, canonicalName: Name, aliases: seq<Name>) returns (result: seq<Name>)
    ensures result == Cleaned(rules, canonicalName, aliases)
  {
    hide NormalizeAliasTerm, MeaningfulKey, Cleaned;
    var canonical := NormalizeAliasTerm(rules, canonicalName);
    var seen: set<Name> := {};
    result := [];
    NothingCleaned(rules, canonicalName);
    for i := 0 to |aliases|
      invariant result == Cleaned(rules, canonicalName, aliases[..i])
      invariant forall key :: key in seen <==>
                  MeaningfulKey(rules, key) && key != canonical &&
                  exists j :: 0 <= j < i && NormalizeAliasTerm(rules, aliases[j]) == key
    {
      var raw := aliases[i];
      OneMore(rules, canonicalName, aliases, i);
      if !IsMeaningfulAlias(rules, raw) {
        continue;
      }
      var normalized := NormalizeAliasTerm(rules, raw);
      if normalized == canonical {
        continue;
      }
      if normalized in seen {
        continue;
      }
      seen := seen + {normalized};
      result := result + [Trim(raw)];
    }
    assert aliases[..|aliases|] == aliases;
  }

  lemma NothingCleaned(rules: Rules, canonical: Name)
    ensures Cleaned(rules, canonical, []) == []
  {
  }

  lemma OneMore(rules: Rules, canonical: Name, aliases: seq<Name>, i: nat)
    requires i < |aliases|
    ensures Cleaned(rules, canonical, aliases[..i + 1]) ==
            Cleaned(rules, canonical, aliases[..i]) +
            if Kept(rules, canonical, aliases, i) then [Trim(aliases[i])] else []
  {
    hide NormalizeAliasTerm, MeaningfulKey;
    assert aliases[..i + 1][..i] == aliases[..i];
  }

  // ---- the normal form ----

  predicate Trimmed(v: Name) {
    v == [] || (!Space(v[0]) && !Space(v[|v| - 1]))
  }

  ghost predicate Lowered(rules: Rules, v: Name) {
    forall k :: 0 <= k < |v| ==> rules.Settled(v[k])
  }

  predicate Squeezed(v: Name) {
    && (forall k :: 0 <= k < |v| && Space(v[k]) ==> v[k] == BLANK)
    && (forall k :: 0 < k < |v| ==> !(Space(v[k - 1]) && Space(v[k])))
  }

  lemma {:induction false} TrimEndTrims(v: Name)
    requires v == [] || !Space(v[0])
    ensures Trimmed(TrimEnd(v))
  {
    if v != [] && Space(v[|v| - 1]) {
      TrimEndTrims(v[..|v| - 1]);
    }
  }

  lemma {:induction false} TrimStartTrims(v: Name)
    ensures TrimStart(v) == [] || !Space(TrimStart(v)[0])
  {
    if v != [] && Space(v[0]) {
      TrimStartTrims(v[1..]);
    }
  }

  lemma TrimTrims(v: Name)
    ensures Trimmed(Trim(v)) && Trim(Trim(v)) == Trim(v)
  {
    TrimStartTrims(v);
    TrimEndTrims(TrimStart(v));
  }

  lemma {:induction false} LowerLowers(rules: Rules, before: Name, v: Name)
    requires rules.Valid()
    ensures var low := LowerAfter(rules, before, v);
            && Lowered(rules, low)
            && (v != [] ==> low != [])
            && (v != [] && !Space(v[0]) ==> !Space(low[0]))
            && (v != [] && !Space(v[|v| - 1]) ==> !Space(low[|low| - 1]))
    decreases |v|
  {
    if v != [] {
      LowerLowers(rules, before + [v[0]], v[1..]);
      var here, rest := rules.lower(before, v[0], v[1..]), LowerAfter(rules, before + [v[0]], v[1..]);
      hide LowerAfter;
      if Space(v[0]) { SpaceIsSettled(rules, v[0]); }
      assert Lowered(rules, here);
      assert LowerAfter(rules, before, v) == here + rest;
    }
  }

  lemma SpaceIsSettled(rules: Rules, c: CodePoint)
    requires rules.Valid() && Space(c)
    ensures rules.Settled(c)
  {
  }

  lemma {:induction false} LoweredIsFixed(rules: Rules, before: Name, v: Name)
    requires Lowered(rules, v)
    ensures LowerAfter(rules, before, v) == v
    decreases |v|
  {
    if v != [] {
      assert rules.Settled(v[0]);
      LoweredIsFixed(rules, before + [v[0]], v[1..]);
      assert v == [v[0]] + v[1..];
    }
  }

  lemma {:induction false} CollapseSqueezes(v: Name)
    ensures Squeezed(Collapse(v))
    ensures v != [] ==> Collapse(v) != [] && (Space(v[0]) <==> Space(Collapse(v)[0]))
    ensures v == [] || !Space(v[|v| - 1]) ==> Collapse(v) == [] || !Space(Collapse(v)[|Collapse(v)| - 1])
    decreases |v|
  {
    hide Squeezed, Space;
    if v == [] {
      NothingSqueezed();
    } else if Space(v[0]) {
      ShorterStart(v);
      TrimStartTrims(v);
      TrimStartKeepsEnd(v);
      CollapseSqueezes(TrimStart(v));
      BlankIsSpace();
      SqueezedCons(BLANK, Collapse(TrimStart(v)));
    } else {
      CollapseSqueezes(v[1..]);
      SqueezedCons(v[0], Collapse(v[1..]));
    }
  }

  lemma NothingSqueezed()
    ensures Squeezed([])
  {
  }

  lemma BlankIsSpace()
    ensures Space(BLANK)
  {
  }

  lemma SqueezedCons(c: CodePoint, rest: Name)
    requires Squeezed(rest) && (Space(c) ==> c == BLANK && (rest == [] || !Space(rest[0])))
    ensures Squeezed([c] + rest)
  {
    hide Space;
    var v := [c] + rest;
    forall k | 0 < k < |v| ensures !(Space(v[k - 1]) && Space(v[k])) {
      assert v[k] == rest[k - 1] && (k > 1 ==> v[k - 1] == rest[k - 2]);
    }
  }

  lemma {:induction false} TrimStartKeepsEnd(v: Name)
    ensures TrimStart(v) != [] ==> v != [] && TrimStart(v)[|TrimStart(v)| - 1] == v[|v| - 1]
    ensures TrimStart(v) == [] && v != [] ==> Space(v[|v| - 1])
  {
    if v != [] && Space(v[0]) {
      TrimStartKeepsEnd(v[1..]);
    }
  }

  lemma {:induction false} CollapseKeepsLowered(rules: Rules, v: Name)
    requires rules.Valid() && Lowered(rules, v)
    ensures Lowered(rules, Collapse(v))
    decreases |v|
  {
    if v != [] {
      if Space(v[0]) {
        ShorterStart(v);
        TrimStartKeepsLowered(rules, v);
        CollapseKeepsLowered(rules, TrimStart(v));
        SpaceIsSettled(rules, BLANK);
      } else {
        CollapseKeepsLowered(rules, v[1..]);
      }
    }
  }

  lemma {:induction false} TrimStartKeepsLowered(rules: Rules, v: Name)
    requires Lowered(rules, v)
    ensures Lowered(rules, TrimStart(v))
  {
    if v != [] && Space(v[0]) {
      TrimStartKeepsLowered(rules, v[1..]);
    }
  }

  lemma {:induction false} SqueezedIsFixed(v: Name)
    requires Squeezed(v)
    ensures Collapse(v) == v
    decreases |v|
  {
    if v != [] {
      assert v == [v[0]] + v[1..];
      if Space(v[0]) {
        assert TrimStart(v) == v[1..] by {
          if |v| > 1 { assert !Space(v[1]); }
        }
      }
      assert Squeezed(v[1..]) by {
        forall k | 0 < k < |v| - 1 ensures !(Space(v[1..][k - 1]) && Space(v[1..][k])) {
          assert v[1..][k - 1] == v[(k + 1) - 1] && v[1..][k] == v[k + 1];
        }
      }
      SqueezedIsFixed(v[1..]);
    }
  }

  /** Normal forms are fixed points, and trimming first changes nothing. */
  lemma NormalizeIsIdempotent(rules: Rules, v: Name)
    requires rules.Valid()
    ensures NormalizeAliasTerm(rules, NormalizeAliasTerm(rules, v)) == NormalizeAliasTerm(rules, v)
    ensures NormalizeAliasTerm(rules, Trim(v)) == NormalizeAliasTerm(rules, v)
  {
    var t := Trim(v);
    TrimTrims(v);
    LowerLowers(rules, [], t);
    var low := Lower(rules, t);
    CollapseSqueezes(low);
    CollapseKeepsLowered(rules, low);
    var n := Collapse(low);
    assert Trimmed(n);
    assert Trim(n) == n;
    LoweredIsFixed(rules, [], n);
    SqueezedIsFixed(n);
  }
}
