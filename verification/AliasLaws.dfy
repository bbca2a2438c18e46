/** The algebra of alias cleaning: growing a list bit by bit, cleaning it again, or
    cleaning it under several names (libs/contracts/src/alias-hygiene.ts). */
module AliasLaws {
  import opened AliasHygiene

  ghost predicate HasKey(rules: Rules, xs: seq<Name>, key: Name) {
    exists j :: 0 <= j < |xs| && NormalizeAliasTerm(rules, xs[j]) == key
  }

  ghost predicate Allowed(rules: Rules, canonical: Name, key: Name) {
    MeaningfulKey(rules, key) && key != NormalizeAliasTerm(rules, canonical)
  }

  lemma AllowedIsSpelled(rules: Rules, canonical: Name, key: Name)
    ensures Allowed(rules, canonical, key) <==>
            && key != [] && (exists k :: 0 <= k < |key| && rules.letter(key[k])) && key !in rules.nonNames
            && key != NormalizeAliasTerm(rules, canonical)
  {
    hide NormalizeAliasTerm;
  }

  lemma HasKeyAppend(rules: Rules, xs: seq<Name>, ys: seq<Name>, key: Name)
    ensures HasKey(rules, xs + ys, key) <==> HasKey(rules, xs, key) || HasKey(rules, ys, key)
  {
    hide NormalizeAliasTerm;
    if HasKey(rules, xs, key) {
      var j :| 0 <= j < |xs| && NormalizeAliasTerm(rules, xs[j]) == key;
      assert (xs + ys)[j] == xs[j];
    }
    if HasKey(rules, ys, key) {
      var j :| 0 <= j < |ys| && NormalizeAliasTerm(rules, ys[j]) == key;
      assert (xs + ys)[|xs| + j] == ys[j];
    }
  }

  lemma HasKeyOne(rules: Rules, y: Name, key: Name)
    ensures HasKey(rules, [y], key) <==> NormalizeAliasTerm(rules, y) == key
  {
    hide NormalizeAliasTerm;
    if NormalizeAliasTerm(rules, y) == key {
      assert [y][0] == y;
    }
  }

  /** Adding one alias appends it, trimmed, exactly when it is allowed and new. */
  lemma CleanedSnoc(rules: Rules, c: Name, xs: seq<Name>, y: Name)
    ensures var key := NormalizeAliasTerm(rules, y);
            Cleaned(rules, c, xs + [y]) ==
            Cleaned(rules, c, xs) + if Allowed(rules, c, key) && !HasKey(rules, xs, key) then [Trim(y)] else []
  {
    hide NormalizeAliasTerm, MeaningfulKey;
    var all, key := xs + [y], NormalizeAliasTerm(rules, y);
    assert all[..|xs|] == xs && all[|xs|] == y;
    if HasKey(rules, xs, key) {
      var j :| 0 <= j < |xs| && NormalizeAliasTerm(rules, xs[j]) == key;
      assert all[j] == xs[j];
    }
  }

  lemma Snoc(xs: seq<Name>)
    requires xs != []
    ensures xs == xs[..|xs| - 1] + [xs[|xs| - 1]]
  {
  }

  /** A cleaned list is the trimmed aliases at the kept positions, in input order. */
  lemma {:induction false} KeptPositions(rules: Rules, c: Name, xs: seq<Name>) returns (at: seq<nat>)
    ensures |at| == |Cleaned(rules, c, xs)|
    ensures forall k :: 0 <= k < |at| ==> at[k] < |xs| && Cleaned(rules, c, xs)[k] == Trim(xs[at[k]])
    ensures forall k, l :: 0 <= k < l < |at| ==> at[k] < at[l]
    ensures forall j :: 0 <= j < |xs| ==> (j in at <==> Kept(rules, c, xs, j))
  {
    hide NormalizeAliasTerm, MeaningfulKey, Trim;
    if xs == [] {
      at := [];
    } else {
      var n := |xs| - 1;
      at := KeptPositions(rules, c, xs[..n]);
      if Kept(rules, c, xs, n) {
        at := at + [n];
      }
    }
  }

  /** A cleaned list is, trimmed and in input order, the first alias of each normal
      form that holds a letter, is not on the word list and is not the canonical one. */
  lemma CleanedPicksFirstOccurrences(rules: Rules, c: Name, xs: seq<Name>) returns (at: seq<nat>)
    ensures |at| == |Cleaned(rules, c, xs)|
    ensures forall k :: 0 <= k < |at| ==> at[k] < |xs| && Cleaned(rules, c, xs)[k] == Trim(xs[at[k]])
    ensures forall k, l :: 0 <= k < l < |at| ==> at[k] < at[l]
    ensures forall j :: 0 <= j < |xs| ==>
              var key := NormalizeAliasTerm(rules, xs[j]);
              (j in at <==>
               && key != [] && (exists k :: 0 <= k < |key| && rules.letter(key[k])) && key !in rules.nonNames
               && key != NormalizeAliasTerm(rules, c)
               && forall i :: 0 <= i < j ==> NormalizeAliasTerm(rules, xs[i]) != key)
  {
    at := KeptPositions(rules, c, xs);
    hide NormalizeAliasTerm, Trim, Cleaned;
  }

  /** The keys of a cleaned list are the allowed keys of the list. */
  lemma {:induction false} KeysAreAllowed(rules: Rules, c: Name, xs: seq<Name>, key: Name)
    requires rules.Valid()
    ensures HasKey(rules, Cleaned(rules, c, xs), key) <==> HasKey(rules, xs, key) && Allowed(rules, c, key)
  {
    if xs == [] {
    } else {
      var front, last := xs[..|xs| - 1], xs[|xs| - 1];
      KeysAreAllowed(rules, c, front, key);
      hide *;
      Snoc(xs);
      CleanedSnoc(rules, c, front, last);
      HasKeyAppend(rules, front, [last], key);
      HasKeyOne(rules, last, key);
      HasKeyAppend(rules, Cleaned(rules, c, front), [Trim(last)], key);
      HasKeyOne(rules, Trim(last), key);
      NormalizeIsIdempotent(rules, last);
      assert Cleaned(rules, c, front) + [] == Cleaned(rules, c, front);
    }
  }

  /** The keys of a cleaned list are those of the list that hold a letter, are not
      on the word list and are not the canonical one. */
  lemma CleanedKeys(rules: Rules, c: Name, xs: seq<Name>, key: Name)
    requires rules.Valid()
    ensures HasKey(rules, Cleaned(rules, c, xs), key) <==>
            && HasKey(rules, xs, key)
            && key != [] && (exists k :: 0 <= k < |key| && rules.letter(key[k])) && key !in rules.nonNames
            && key != NormalizeAliasTerm(rules, c)
  {
    hide *;
    KeysAreAllowed(rules, c, xs, key);
    AllowedIsSpelled(rules, c, key);
  }

  /** No normal form appears twice in a cleaned list. */
  lemma {:induction false} CleanedIsDistinct(rules: Rules, c: Name, xs: seq<Name>, i: nat, j: nat)
    requires rules.Valid() && i < j < |Cleaned(rules, c, xs)|
    ensures NormalizeAliasTerm(rules, Cleaned(rules, c, xs)[i]) != NormalizeAliasTerm(rules, Cleaned(rules, c, xs)[j])
  {
    var front, last := xs[..|xs| - 1], xs[|xs| - 1];
    var before := Cleaned(rules, c, front);
    Snoc(xs);
    CleanedSnoc(rules, c, front, last);
    if j < |before| {
      CleanedIsDistinct(rules, c, front, i, j);
    } else {
      var key := NormalizeAliasTerm(rules, last);
      KeysAreAllowed(rules, c, front, key);
      NormalizeIsIdempotent(rules, last);
      hide NormalizeAliasTerm, Cleaned;
      assert Cleaned(rules, c, xs)[j] == Trim(last) && Cleaned(rules, c, xs)[i] == before[i];
    }
  }

  /** Cleaning is idempotent. */
  lemma {:induction false} CleaningIsIdempotent(rules: Rules, c: Name, xs: seq<Name>)
    requires rules.Valid()
    ensures Cleaned(rules, c, Cleaned(rules, c, xs)) == Cleaned(rules, c, xs)
  {
    if xs == [] {
    } else {
      var front, last := xs[..|xs| - 1], xs[|xs| - 1];
      CleaningIsIdempotent(rules, c, front);
      hide *;
      var before, key := Cleaned(rules, c, front), NormalizeAliasTerm(rules, last);
      Snoc(xs);
      CleanedSnoc(rules, c, front, last);
      CleanedSnoc(rules, c, before, Trim(last));
      KeysAreAllowed(rules, c, front, key);
      NormalizeIsIdempotent(rules, last);
      TrimTrims(last);
      assert before + [] == before;
    }
  }

  /** Accretion equals batch: cleaning what was already clean plus the new aliases
      gives what cleaning everything at once would have given. */
  lemma {:induction false} AccretionEqualsBatch(rules: Rules, c: Name, xs: seq<Name>, ys: seq<Name>)
    requires rules.Valid()
    ensures Cleaned(rules, c, Cleaned(rules, c, xs) + ys) == Cleaned(rules, c, xs + ys)
  {
    hide *;
    var clean := Cleaned(rules, c, xs);
    if ys == [] {
      CleaningIsIdempotent(rules, c, xs);
      assert clean + ys == clean && xs + ys == xs;
    } else {
      var front, last := ys[..|ys| - 1], ys[|ys| - 1];
      var key := NormalizeAliasTerm(rules, last);
      AccretionEqualsBatch(rules, c, xs, front);
      Snoc(ys);
      assert clean + ys == (clean + front) + [last] && xs + ys == (xs + front) + [last];
      CleanedSnoc(rules, c, clean + front, last);
      CleanedSnoc(rules, c, xs + front, last);
      HasKeyAppend(rules, clean, front, key);
      HasKeyAppend(rules, xs, front, key);
      KeysAreAllowed(rules, c, xs, key);
    }
  }

  /** What both of two canonical names leave. */
  ghost function CleanedBoth(rules: Rules, c: Name, d: Name, xs: seq<Name>): seq<Name> {
    if xs == [] then []
    else
      var front, last := xs[..|xs| - 1], xs[|xs| - 1];
      var key := NormalizeAliasTerm(rules, last);
      CleanedBoth(rules, c, d, front) +
      if Allowed(rules, c, key) && Allowed(rules, d, key) && !HasKey(rules, front, key) then [Trim(last)] else []
  }

  lemma {:induction false} CleaningTwice(rules: Rules, c: Name, d: Name, xs: seq<Name>)
    requires rules.Valid()
    ensures Cleaned(rules, c, Cleaned(rules, d, xs)) == CleanedBoth(rules, c, d, xs)
  {
    if xs == [] {
    } else {
      var front, last := xs[..|xs| - 1], xs[|xs| - 1];
      var before, key := Cleaned(rules, d, front), NormalizeAliasTerm(rules, last);
      CleaningTwice(rules, c, d, front);
      assert CleanedBoth(rules, c, d, xs) == CleanedBoth(rules, c, d, front) +
        if Allowed(rules, c, key) && Allowed(rules, d, key) && !HasKey(rules, front, key) then [Trim(last)] else [];
      hide *;
      Snoc(xs);
      CleanedSnoc(rules, d, front, last);
      CleanedSnoc(rules, c, before, Trim(last));
      KeysAreAllowed(rules, d, front, key);
      NormalizeIsIdempotent(rules, last);
      TrimTrims(last);
      assert before + [] == before && CleanedBoth(rules, c, d, front) + [] == CleanedBoth(rules, c, d, front);
    }
  }

  lemma {:induction false} BothIsSymmetric(rules: Rules, c: Name, d: Name, xs: seq<Name>)
    ensures CleanedBoth(rules, c, d, xs) == CleanedBoth(rules, d, c, xs)
  {
    if xs != [] {
      hide Allowed, HasKey;
      BothIsSymmetric(rules, c, d, xs[..|xs| - 1]);
    }
  }

  /** Cleaning under two canonical names commutes. */
  lemma CleaningCommutes(rules: Rules, c: Name, d: Name, xs: seq<Name>)
    requires rules.Valid()
    ensures Cleaned(rules, c, Cleaned(rules, d, xs)) == Cleaned(rules, d, Cleaned(rules, c, xs))
  {
    CleaningTwice(rules, c, d, xs);
    CleaningTwice(rules, d, c, xs);
    BothIsSymmetric(rules, c, d, xs);
  }

  /** The canonical name matters only through its normal form. */
  lemma {:induction false} OnlyTheNormalFormMatters(rules: Rules, c: Name, d: Name, xs: seq<Name>)
    requires NormalizeAliasTerm(rules, c) == NormalizeAliasTerm(rules, d)
    ensures Cleaned(rules, c, xs) == Cleaned(rules, d, xs)
  {
    if xs == [] {
    } else {
      OnlyTheNormalFormMatters(rules, c, d, xs[..|xs| - 1]);
      CleanedSnoc(rules, c, xs[..|xs| - 1], xs[|xs| - 1]);
      CleanedSnoc(rules, d, xs[..|xs| - 1], xs[|xs| - 1]);
      Snoc(xs);
      hide Cleaned, NormalizeAliasTerm, MeaningfulKey, HasKey;
    }
  }

  /** So the stored name and its normal form clean alike. */
  lemma NormalFormCleansAlike(rules: Rules, c: Name, xs: seq<Name>)
    requires rules.Valid()
    ensures Cleaned(rules, NormalizeAliasTerm(rules, c), xs) == Cleaned(rules, c, xs)
  {
    NormalizeIsIdempotent(rules, c);
    OnlyTheNormalFormMatters(rules, NormalizeAliasTerm(rules, c), c, xs);
  }
}
