/** The normal form of an alias, word by word
    (libs/contracts/src/alias-hygiene.ts). */
module AliasWords {
  import Utf16
  import opened Filters
  import opened AliasHygiene

  predicate White(c: CodePoint) {
    c in Utf16.WHITE
  }

  lemma SpaceIsWhite(c: CodePoint)
    ensures Space(c) <==> White(c)
  {
    Utf16.SpacesAreWhite(c);
  }

  /** Trimming takes white space off both ends and nothing else. */
  lemma TrimIsSlice(v: Name) returns (lo: nat, hi: nat)
    ensures lo <= hi <= |v| && Trim(v) == v[lo..hi]
    ensures forall k :: 0 <= k < lo || hi <= k < |v| ==> White(v[k])
    ensures lo < hi ==> !White(v[lo]) && !White(v[hi - 1])
  {
    hide Space, White, Trim;
    forall k | 0 <= k < |v| ensures Space(v[k]) <==> White(v[k]) {
      SpaceIsWhite(v[k]);
    }
    lo, hi := TrimDrops(v);
  }

  lemma TrimDrops(v: Name) returns (lo: nat, hi: nat)
    ensures lo <= hi <= |v| && Trim(v) == v[lo..hi]
    ensures forall k :: 0 <= k < lo || hi <= k < |v| ==> Space(v[k])
    ensures lo < hi ==> !Space(v[lo]) && !Space(v[hi - 1])
  {
    hide Space;
    var w := TrimStart(v);
    DropFirstStops(Space, v);
    DropLastStops(Space, w);
    lo := |v| - |w|;
    hi := lo + |DropLast(Space, w)|;
    assert forall k :: 0 <= k < |w| ==> w[k] == v[lo + k];
    assert forall k :: hi <= k < |v| ==> v[k] == w[k - lo];
    assert w[..hi - lo] == v[lo..hi];
  }

  /** The length of the word at the front. */
  function WordEnd(v: Name): (n: nat)
    ensures n <= |v| && forall k :: 0 <= k < n ==> !White(v[k])
    ensures n < |v| ==> White(v[n])
  {
    if v == [] || White(v[0]) then 0 else 1 + WordEnd(v[1..])
  }

  /** The words of a text: its stretches without white space. */
  function Words(v: Name): seq<Name>
    decreases |v|
  {
    if v == [] then []
    else if White(v[0]) then Words(v[1..])
    else
      var n := WordEnd(v);
      [v[..n]] + Words(v[n..])
  }

  function Joined(words: seq<Name>): Name {
    if |words| == 0 then []
    else if |words| == 1 then words[0]
    else words[0] + [0x20] + Joined(words[1..])
  }

  lemma {:induction false} WordsAfterSpace(v: Name)
    ensures Words(TrimStart(v)) == Words(v)
    decreases |v|
  {
    if v != [] && Space(v[0]) {
      SpaceIsWhite(v[0]);
      WordsAfterSpace(v[1..]);
    }
  }

  lemma {:induction false} CollapseWord(v: Name, n: nat)
    requires n <= |v| && forall k :: 0 <= k < n ==> !Space(v[k])
    ensures Collapse(v) == v[..n] + Collapse(v[n..])
    decreases n
  {
    hide Space;
    if n > 0 {
      CollapseWord(v[1..], n - 1);
      assert v[..n] == [v[0]] + v[1..][..n - 1] && v[1..][n - 1..] == v[n..];
    } else {
      assert v[0..] == v;
    }
  }

  /** A trimmed text is a word, or a word, white space and a trimmed text. */
  lemma FirstWord(v: Name)
    requires Trimmed(v) && v != []
    ensures var n := WordEnd(v);
            && n > 0 && Collapse(v) == v[..n] + Collapse(v[n..])
            && (n < |v| ==>
                  && Space(v[n]) && TrimStart(v[n..]) != []
                  && Trimmed(TrimStart(v[n..])) && !White(TrimStart(v[n..])[0]))
  {
    var n := WordEnd(v);
    NamesAreWhite(v);
    WordIsThere(v);
    hide *;
    CollapseWord(v, n);
    if n < |v| {
      AfterWord(v, n);
      SpaceIsWhite(TrimStart(v[n..])[0]);
    }
  }

  lemma NamesAreWhite(v: Name)
    ensures forall k :: 0 <= k < |v| ==> (Space(v[k]) <==> White(v[k]))
  {
    forall k | 0 <= k < |v| ensures Space(v[k]) <==> White(v[k]) {
      SpaceIsWhite(v[k]);
    }
  }

  lemma WordIsThere(v: Name)
    requires Trimmed(v) && v != []
    ensures WordEnd(v) > 0
  {
    SpaceIsWhite(v[0]);
  }

  lemma AfterWord(v: Name, n: nat)
    requires Trimmed(v) && n < |v|
    ensures TrimStart(v[n..]) != [] && Trimmed(TrimStart(v[n..])) && !Space(TrimStart(v[n..])[0])
  {
    hide TrimStart, Space;
    var tail := v[n..];
    assert tail[|tail| - 1] == v[|v| - 1];
    TrimStartTrims(tail);
    TrimStartKeepsEnd(tail);
  }

  lemma {:induction false} CollapseJoinsWords(v: Name)
    requires Trimmed(v)
    ensures Collapse(v) == Joined(Words(v))
    decreases |v|
  {
    hide Space, White, Trimmed, TrimStart;
    if v != [] {
      var n := WordEnd(v);
      FirstWord(v);
      FirstOfWords(v);
      if n < |v| {
        var tail := v[n..];
        ShorterStart(tail);
        WordsAfterSpace(tail);
        CollapseJoinsWords(TrimStart(tail));
        TwoWords(v[..n], TrimStart(tail), Words(tail));
        CollapseSpace(tail);
        Assoc(v[..n], [BLANK], Joined(Words(tail)));
      } else {
        OneWord(v);
      }
    }
  }

  lemma FirstOfWords(v: Name)
    requires v != [] && WordEnd(v) > 0
    ensures Words(v) == [v[..WordEnd(v)]] + Words(v[WordEnd(v)..])
  {
  }

  lemma CollapseSpace(v: Name)
    requires v != [] && Space(v[0])
    ensures |TrimStart(v)| < |v| && Collapse(v) == [BLANK] + Collapse(TrimStart(v))
  {
    ShorterStart(v);
  }

  lemma OneWord(v: Name)
    ensures v[|v|..] == [] && Collapse([]) == [] && Words([]) == [] && v[..|v|] == v
    ensures Joined([v] + []) == v && v + [] == v
  {
    assert [v] + [] == [v];
  }

  lemma Assoc(a: Name, b: Name, c: Name)
    ensures (a + b) + c == a + (b + c)
  {
    Utf16.Assoc(a, b, c);
  }

  lemma TwoWords(word: Name, rest: Name, words: seq<Name>)
    requires rest != [] && !White(rest[0]) && words == Words(rest)
    ensures Joined([word] + words) == word + [BLANK] + Joined(words)
  {
    assert ([word] + words)[1..] == words && words != [];
  }

  /** The normal form of an alias is the words of its lower-cased text, with one
      blank between them. */
  lemma NormalFormIsWords(rules: Rules, v: Name)
    requires rules.Valid()
    ensures NormalizeAliasTerm(rules, v) == Joined(Words(Lower(rules, Trim(v))))
  {
    TrimTrims(v);
    LowerLowers(rules, [], Trim(v));
    CollapseJoinsWords(Lower(rules, Trim(v)));
  }

  function Concat(parts: seq<Name>): Name {
    if parts == [] then [] else parts[0] + Concat(parts[1..])
  }

  /** Lower-casing puts for each character, in order, what it becomes between the
      text before and after it. */
  lemma LowerIsPiecewise(rules: Rules, v: Name)
    ensures Lower(rules, v) ==
            Concat(seq(|v|, i requires 0 <= i < |v| => rules.lower(v[..i], v[i], v[i + 1..])))
  {
    assert v[..0] == [] && v[0..] == v;
    LowerFrom(rules, v, 0);
    assert LowerPieces(rules, v, 0) == seq(|v|, i requires 0 <= i < |v| => rules.lower(v[..i], v[i], v[i + 1..]));
  }

  ghost function LowerPieces(rules: Rules, v: Name, k: nat): seq<Name>
    requires k <= |v|
  {
    seq(|v| - k, i requires 0 <= i < |v| - k => rules.lower(v[..k + i], v[k + i], v[k + i + 1..]))
  }

  lemma {:induction false} LowerFrom(rules: Rules, v: Name, k: nat)
    requires k <= |v|
    ensures LowerAfter(rules, v[..k], v[k..]) == Concat(LowerPieces(rules, v, k))
    decreases |v| - k
  {
    if k < |v| {
      LowerFrom(rules, v, k + 1);
      assert v[..k + 1] == v[..k] + [v[k]] && v[k..][1..] == v[k + 1..] && v[k..][0] == v[k];
      LowerPiecesStep(rules, v, k);
    }
  }

  lemma LowerPiecesStep(rules: Rules, v: Name, k: nat)
    requires k < |v|
    ensures LowerPieces(rules, v, k) ==
            [rules.lower(v[..k], v[k], v[k + 1..])] + LowerPieces(rules, v, k + 1)
    ensures LowerPieces(rules, v, k)[1..] == LowerPieces(rules, v, k + 1)
  {
    forall i {:trigger LowerPieces(rules, v, k + 1)[i]} | 0 <= i < |v| - k - 1
      ensures LowerPieces(rules, v, k)[i + 1] == LowerPieces(rules, v, k + 1)[i]
    {
      assert k + (i + 1) == (k + 1) + i;
    }
  }
}
