/** Substring masking: every occurrence of every secret becomes one marker
    (apps/web/src/components/SpeakerTranscript.tsx). */
module SubstringMasking {
  import opened Utf16

  /** `text.split(sep)` for a non-empty separator: cut at the leftmost occurrence,
      then go on after it (section 15.5.4.14 of ECMA-262 5.1). */
  function Split(text: Text, sep: Text): (parts: seq<Text>)
    requires sep != []
    ensures |parts| > 0
    decreases |text|
  {
    var p := IndexOf(sep, text, 0);
    if p == -1 then [text] else [text[..p]] + Split(text[p + |sep|..], sep)
  }

  function Join(parts: seq<Text>, glue: Text): Text {
    if |parts| == 0 then []
    else if |parts| == 1 then parts[0]
    else parts[0] + glue + Join(parts[1..], glue)
  }

  function Replace(text: Text, secret: Text, marker: Text): Text
    requires secret != []
  {
    Join(Split(text, secret), marker)
  }

  function MaskAll(text: Text, secrets: seq<Text>, marker: Text): Text
    decreases |secrets|
  {
    if secrets == [] then text
    else
      MaskAll(if secrets[0] == [] then text else Replace(text, secrets[0], marker), secrets[1..], marker)
  }

  method MaskSecrets(text: Text, secrets: seq<Text>, marker: Text) returns (out: Text)
    ensures out == MaskAll(text, secrets, marker)
    ensures Uniform(marker) ==>
              forall s :: s in secrets && s != [] && Detached(s, marker) ==> !Occurs(s, out)
  {
    out := text;
    for k := 0 to |secrets|
      invariant MaskAll(out, secrets[k..], marker) == MaskAll(text, secrets, marker)
    {
      var secret := secrets[k];
      assert secrets[k..][0] == secret && secrets[k..][1..] == secrets[k + 1..];
      if |secret| == 0 {
        continue;
      }
      out := Join(Split(out, secret), marker);
    }
    if Uniform(marker) {
      forall s | s in secrets && s != [] && Detached(s, marker) ensures !Occurs(s, out) {
        DetachedSecretsAreGone(text, secrets, marker, s);
      }
    }
  }

  /** The secrets are replaced in their order: a list is masked by masking its front
      and then its back. */
  lemma {:induction false} MaskAllInTurn(text: Text, a: seq<Text>, b: seq<Text>, marker: Text)
    ensures MaskAll(text, a + b, marker) == MaskAll(MaskAll(text, a, marker), b, marker)
    decreases |a|
  {
    if a == [] {
      assert a + b == b;
    } else {
      assert (a + b)[0] == a[0] && (a + b)[1..] == a[1..] + b;
      MaskAllInTurn(if a[0] == [] then text else Replace(text, a[0], marker), a[1..], b, marker);
    }
  }

  /** One character repeated, as the six bullets of `MASK_MARKER` are. */
  predicate Uniform(marker: Text) {
    marker != [] && forall k :: 0 <= k < |marker| ==> marker[k] == marker[0]
  }

  /** The secret neither starts nor ends with the marker's character and does not
      contain the whole marker. */
  ghost predicate Detached(secret: Text, marker: Text)
    requires marker != []
  {
    && (secret != [] ==> secret[0] != marker[0] && secret[|secret| - 1] != marker[0])
    && !Occurs(marker, secret)
  }

  // ---- occurrences never touch a marker ----

  lemma ReplaceStep(text: Text, secret: Text, marker: Text)
    requires secret != []
    ensures var p := IndexOf(secret, text, 0);
            Replace(text, secret, marker) ==
            if p == -1 then text else text[..p] + marker + Replace(text[p + |secret|..], secret, marker)
  {
    var p := IndexOf(secret, text, 0);
    if p != -1 {
      var rest := Split(text[p + |secret|..], secret);
      assert ([text[..p]] + rest)[1..] == rest;
    }
  }

  lemma OccurrenceCovers(a: Text, marker: Text, b: Text, s: Text, p: int)
    requires marker != [] && s != [] && OccursAt(s, a + marker + b, p)
    ensures |a| <= p < |a| + |marker| ==> s[0] in marker
    ensures |a| < p + |s| <= |a| + |marker| ==> s[|s| - 1] in marker
    ensures p <= |a| && |a| + |marker| <= p + |s| ==> OccursAt(marker, s, |a| - p)
  {
    var t := a + marker + b;
    OccursAtByIndex(s, t, p);
    assert t[p + 0] == s[0] && t[p + (|s| - 1)] == s[|s| - 1];
    if p <= |a| && |a| + |marker| <= p + |s| {
      OccursAtByIndex(marker, s, |a| - p);
      forall k | 0 <= k < |marker| ensures s[|a| - p + k] == marker[k] {
        assert t[p + (|a| - p + k)] == s[|a| - p + k];
      }
    }
  }

  ghost predicate FirstAt(s: Text, text: Text, p: int) {
    OccursAt(s, text, p) && forall q :: 0 <= q < p ==> !OccursAt(s, text, q)
  }

  lemma ReplaceHit(text: Text, s: Text, marker: Text, p: nat)
    requires s != [] && FirstAt(s, text, p)
    ensures Replace(text, s, marker) == text[..p] + marker + Replace(text[p + |s|..], s, marker)
  {
    ReplaceStep(text, s, marker);
    assert IndexOf(s, text, 0) == p;
  }

  lemma ReplaceMiss(text: Text, s: Text, marker: Text)
    requires s != [] && !Occurs(s, text)
    ensures Replace(text, s, marker) == text
  {
    ReplaceStep(text, s, marker);
  }

  /** An occurrence of a detached string beside a marker lies wholly on one side. */
  lemma NoStraddle(a: Text, marker: Text, b: Text, s: Text, p: int)
    requires Uniform(marker) && s != [] && Detached(s, marker)
    requires OccursAt(s, a + marker + b, p)
    ensures (p + |s| <= |a| && OccursAt(s, a, p)) ||
            (p >= |a| + |marker| && OccursAt(s, b, p - |a| - |marker|))
  {
    OccurrenceCovers(a, marker, b, s, p);
    if p + |s| <= |a| {
      assert (a + marker + b)[p..p + |s|] == a[p..p + |s|];
    } else if p >= |a| + |marker| {
      var q := p - |a| - |marker|;
      assert (a + marker + b)[p..p + |s|] == b[q..q + |s|];
    }
  }

  lemma OccursInSlice(s: Text, text: Text, lo: nat, hi: nat, p: int)
    requires lo <= hi <= |text| && OccursAt(s, text[lo..hi], p)
    ensures OccursAt(s, text, lo + p)
  {
    OccursAtByIndex(s, text[lo..hi], p);
    OccursAtByIndex(s, text, lo + p);
    forall k | 0 <= k < |s| ensures text[lo + p + k] == s[k] {
      assert text[lo..hi][p + k] == s[k];
    }
  }

  /** Replacing one secret never creates an occurrence of a detached string. */
  lemma {:induction false} ReplaceCreatesNothing(text: Text, secret: Text, marker: Text, s: Text)
    requires Uniform(marker) && secret != [] && s != [] && Detached(s, marker)
    requires Occurs(s, Replace(text, secret, marker))
    ensures Occurs(s, text)
    decreases |text|
  {
    hide Replace, Detached;
    var p := IndexOf(secret, text, 0);
    ReplaceStep(text, secret, marker);
    if p != -1 {
      var rest := text[p + |secret|..];
      var masked := Replace(rest, secret, marker);
      var q :| OccursAt(s, text[..p] + marker + masked, q);
      NoStraddle(text[..p], marker, masked, s, q);
      if q + |s| <= p {
        OccursInSlice(s, text, 0, p, q);
      } else {
        assert Occurs(s, masked);
        ReplaceCreatesNothing(rest, secret, marker, s);
        var r :| OccursAt(s, rest, r);
        assert rest == text[p + |secret|..|text|];
        OccursInSlice(s, text, p + |secret|, |text|, r);
      }
    }
  }

  lemma {:induction false} ReplaceRemoves(text: Text, secret: Text, marker: Text)
    requires Uniform(marker) && secret != [] && Detached(secret, marker)
    ensures !Occurs(secret, Replace(text, secret, marker))
    decreases |text|
  {
    hide Replace, Detached;
    var p := IndexOf(secret, text, 0);
    ReplaceStep(text, secret, marker);
    if p != -1 {
      var rest := text[p + |secret|..];
      var masked := Replace(rest, secret, marker);
      ReplaceRemoves(rest, secret, marker);
      if q :| OccursAt(secret, text[..p] + marker + masked, q) {
        NoStraddle(text[..p], marker, masked, secret, q);
        if q + |secret| <= p {
          OccursInSlice(secret, text, 0, p, q);
        }
        assert false;
      }
    }
  }

  lemma {:induction false} MaskAllCreatesNothing(text: Text, secrets: seq<Text>, marker: Text, s: Text)
    requires Uniform(marker) && s != [] && Detached(s, marker)
    requires Occurs(s, MaskAll(text, secrets, marker))
    ensures Occurs(s, text)
    decreases |secrets|
  {
    if secrets != [] {
      var next := if secrets[0] == [] then text else Replace(text, secrets[0], marker);
      MaskAllCreatesNothing(next, secrets[1..], marker, s);
      if secrets[0] != [] {
        ReplaceCreatesNothing(text, secrets[0], marker, s);
      }
    }
  }

  /** A detached secret on the list occurs nowhere in the output, whatever the
      text, the other secrets and their order. */
  lemma {:induction false} DetachedSecretsAreGone(text: Text, secrets: seq<Text>, marker: Text, s: Text)
    requires Uniform(marker) && s in secrets && s != [] && Detached(s, marker)
    ensures !Occurs(s, MaskAll(text, secrets, marker))
    decreases |secrets|
  {
    var next := if secrets[0] == [] then text else Replace(text, secrets[0], marker);
    if secrets[0] == s {
      ReplaceRemoves(text, s, marker);
      if Occurs(s, MaskAll(next, secrets[1..], marker)) {
        MaskAllCreatesNothing(next, secrets[1..], marker, s);
      }
    } else {
      DetachedSecretsAreGone(next, secrets[1..], marker, s);
    }
  }

  // ---- the condition is exact ----

  /** Masking with any list that names the secret hides it in every text. */
  ghost predicate AlwaysHidden(s: Text, marker: Text) {
    forall text, secrets :: s in secrets ==> !Occurs(s, MaskAll(text, secrets, marker))
  }

  lemma MaskOne(text: Text, s: Text, marker: Text)
    requires s != []
    ensures MaskAll(text, [s], marker) == Replace(text, s, marker)
  {
    assert [s][1..] == [];
  }

  lemma ReplaceFirst(text: Text, s: Text, marker: Text, p: nat)
    requires s != [] && FirstAt(s, text, p)
    requires |text| - p - |s| < |s|
    ensures Replace(text, s, marker) == text[..p] + marker + text[p + |s|..]
  {
    ReplaceHit(text, s, marker, p);
    ReplaceMiss(text[p + |s|..], s, marker);
  }

  lemma LeaksAtStart(s: Text, marker: Text)
    requires Uniform(marker) && s != [] && s[0] == marker[0]
    ensures Occurs(s, Replace(s + s[1..], s, marker))
  {
    var text := s + s[1..];
    assert text[0..|s|] == s;
    ReplaceFirst(text, s, marker, 0);
    var out := text[..0] + marker + text[|s|..];
    OccursAtByIndex(s, out, |marker| - 1);
    assert OccursAt(s, out, |marker| - 1);
  }

  lemma LeaksAtEnd(s: Text, marker: Text)
    requires Uniform(marker) && s != [] && s[0] != marker[0] && s[|s| - 1] == marker[0]
    ensures Occurs(s, Replace(s[..|s| - 1] + s, s, marker))
  {
    var n := |s|;
    var text := s[..n - 1] + s;
    assert text[n - 1..n - 1 + n] == s;
    forall p | 0 <= p < n - 1 ensures !OccursAt(s, text, p) {
      OccursAtByIndex(s, text, p);
      assert text[p + 0] == s[p] == text[p + (n - 1)];
    }
    ReplaceFirst(text, s, marker, n - 1);
    assert text[..n - 1] == s[..n - 1] && text[n - 1 + n..] == [];
    var out := text[..n - 1] + marker + text[n - 1 + n..];
    OccursAtByIndex(s, out, 0);
    assert OccursAt(s, out, 0);
  }

  lemma LeaksInside(s: Text, marker: Text, p: nat)
    requires Uniform(marker) && s != [] && OccursAt(marker, s, p)
    requires forall q :: 0 <= q < p ==> !OccursAt(marker, s, q)
    ensures Occurs(s, Replace(s[..p] + s + s[p + |marker|..], s, marker))
  {
    hide Replace;
    var u, v := s[..p], s[p + |marker|..];
    var text := u + s + v;
    forall q | 0 <= q < p ensures !OccursAt(s, text, q) {
      if OccursAt(s, text, q) {
        MarkerComesEarlier(s, marker, p, q);
      }
    }
    assert text[p..p + |s|] == s;
    ReplaceFirst(text, s, marker, p);
    assert text[..p] == u && text[p + |s|..] == v;
    assert s == u + marker + v;
    assert (u + marker + v)[0..|s|] == s;
    assert OccursAt(s, u + marker + v, 0);
  }

  /** An early occurrence of the secret would carry its marker forward too. */
  lemma MarkerComesEarlier(s: Text, marker: Text, p: nat, q: nat)
    requires OccursAt(marker, s, p) && q < p
    requires OccursAt(s, s[..p] + s + s[p + |marker|..], q)
    ensures OccursAt(marker, s, q)
  {
    var text := s[..p] + s + s[p + |marker|..];
    OccursAtByIndex(s, text, q);
    OccursAtByIndex(marker, s, p);
    OccursAtByIndex(marker, s, q);
    forall k | 0 <= k < |marker| ensures s[q + k] == marker[k] {
      assert text[q + (p + k)] == s[p + k] == marker[k];
    }
  }

  /** A non-empty secret is hidden for certain exactly when it is detached. */
  lemma HiddenExactlyWhenDetached(s: Text, marker: Text)
    requires Uniform(marker) && s != []
    ensures AlwaysHidden(s, marker) <==> Detached(s, marker)
  {
    hide Replace, MaskAll;
    if Detached(s, marker) {
      forall text, secrets | s in secrets ensures !Occurs(s, MaskAll(text, secrets, marker)) {
        DetachedSecretsAreGone(text, secrets, marker, s);
      }
    } else {
      var text: Text;
      if s[0] == marker[0] {
        text := s + s[1..];
        LeaksAtStart(s, marker);
      } else if s[|s| - 1] == marker[0] {
        text := s[..|s| - 1] + s;
        LeaksAtEnd(s, marker);
      } else {
        var p := IndexOf(marker, s, 0);
        text := s[..p] + s + s[p + |marker|..];
        LeaksInside(s, marker, p);
      }
      MaskOne(text, s, marker);
      assert s in [s] && Occurs(s, MaskAll(text, [s], marker));
    }
  }
}
