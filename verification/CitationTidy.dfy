/** The white space that stripping leaves behind is tidied, and no citation with it
    (libs/backend/chat/src/citation-enforcer.ts). */
module CitationTidy {
  import opened Utf16
  import opened Filters
  import opened Citations
  import opened CitationTokens

  /** The two white-space rules: a run of two or more spaces or tabs becomes a space,
      and spaces before a stop go. */
  datatype Rule = Blanks | Stops

  predicate Blank(rule: Rule, c: CodeUnit) {
    c == 0x20 || (rule == Blanks && c == 0x09)
  }

  predicate Stop(c: CodeUnit) {
    c in {0x2E, 0x2C, 0x3B, 0x3A, 0x21, 0x3F}
  }

  function BlanksAhead(rule: Rule, w: Text): (n: nat)
    ensures n <= |w| && forall k :: 0 <= k < n ==> Blank(rule, w[k])
    ensures n < |w| ==> !Blank(rule, w[n])
  {
    if w == [] || !Blank(rule, w[0]) then 0 else 1 + BlanksAhead(rule, w[1..])
  }

  /** The length of the match at the front, or 0. */
  function Hit(rule: Rule, w: Text): (n: nat)
    ensures n <= |w|
  {
    var n := BlanksAhead(rule, w);
    match rule
    case Blanks => if n >= 2 then n else 0
    case Stops => if n >= 1 && n < |w| && Stop(w[n]) then n + 1 else 0
  }

  function Shrink(rule: Rule, w: Text): Text {
    if w == [] then []
    else
      var n := Hit(rule, w);
      if n == 0 then [w[0]] + Shrink(rule, w[1..])
      else [if rule == Blanks then 0x20 else w[n - 1]] + Shrink(rule, w[n..])
  }

  lemma {:induction false} NothingToShrink(rule: Rule, w: Text)
    requires forall k :: 0 <= k < |w| ==> !Blank(rule, w[k])
    ensures Shrink(rule, w) == w
  {
    if w != [] {
      assert w == [w[0]] + w[1..];
      NothingToShrink(rule, w[1..]);
    }
  }

  /** A character of a marker. */
  predicate Solid(c: CodeUnit) {
    c == OPEN || c == CLOSE || IsDigit(c)
  }

  lemma HitIsInert(rule: Rule, w: Text)
    requires Hit(rule, w) > 0
    ensures var n := Hit(rule, w);
            && (forall k :: 0 <= k < n ==> !Solid(w[k]))
            && !Blocks(w[n - 1])
            && !Solid(Shrink(rule, w)[0]) && !Blocks(Shrink(rule, w)[0])
  {
  }

  /** What is solid at the front stands there before and after. */
  lemma {:induction false} SolidStays(rule: Rule, w: Text, k: nat)
    requires || (k <= |w| && forall i :: 0 <= i < k ==> Solid(w[i]))
             || (k <= |Shrink(rule, w)| && forall i :: 0 <= i < k ==> Solid(Shrink(rule, w)[i]))
    ensures k <= |w| && k <= |Shrink(rule, w)| && w[..k] == Shrink(rule, w)[..k]
    ensures Shrink(rule, w)[k..] == Shrink(rule, w[k..])
    decreases k
  {
    hide Hit, Shrink, Solid;
    if k > 0 {
      SolidFirst(rule, w);
      assert forall i :: 0 <= i < |w| - 1 ==> w[1..][i] == w[i + 1];
      assert forall i :: 0 <= i < |Shrink(rule, w[1..])| ==> Shrink(rule, w[1..])[i] == Shrink(rule, w)[i + 1];
      SolidStays(rule, w[1..], k - 1);
      SameFront(w[0], w[1..], Shrink(rule, w[1..]), k - 1);
      assert w == [w[0]] + w[1..];
    } else {
      assert w[0..] == w && Shrink(rule, w)[0..] == Shrink(rule, w);
    }
  }

  lemma SameFront(c: CodeUnit, a: Text, b: Text, k: nat)
    requires k <= |a| && k <= |b| && a[..k] == b[..k]
    ensures ([c] + a)[..k + 1] == ([c] + b)[..k + 1]
    ensures ([c] + a)[k + 1..] == a[k..] && ([c] + b)[k + 1..] == b[k..]
  {
    assert ([c] + a)[..k + 1] == [c] + a[..k] && ([c] + b)[..k + 1] == [c] + b[..k];
  }

  lemma SolidFirst(rule: Rule, w: Text)
    requires (w != [] && Solid(w[0])) || (Shrink(rule, w) != [] && Solid(Shrink(rule, w)[0]))
    ensures w != [] && Shrink(rule, w) == [w[0]] + Shrink(rule, w[1..])
  {
    if Hit(rule, w) > 0 { HitIsInert(rule, w); }
  }

  lemma ShrinkKeepsGroup(rule: Rule, w: Text)
    ensures var e := GroupEnd(w, 0);
            && GroupEnd(Shrink(rule, w), 0) == e
            && (e != -1 ==> Shrink(rule, w)[1..e - 1] == w[1..e - 1] && Shrink(rule, w)[e..] == Shrink(rule, w[e..]))
  {
    var s := Shrink(rule, w);
    forall e | GroupAt(w, 0, e) ensures GroupAt(s, 0, e) {
      SolidStays(rule, w, e);
      GroupInPrefix(w[..e], w, e);
      GroupInPrefix(w[..e], s, e);
    }
    forall e | GroupAt(s, 0, e) ensures GroupAt(w, 0, e) {
      SolidStays(rule, w, e);
      GroupInPrefix(w[..e], w, e);
      GroupInPrefix(w[..e], s, e);
    }
    var e := GroupEnd(w, 0);
    if e != -1 {
      SolidStays(rule, w, e);
      assert w[1..e - 1] == w[..e][1..e - 1] && s[1..e - 1] == s[..e][1..e - 1];
    }
  }

  lemma {:induction false} ShrinkKeepsNumbers(rule: Rule, open: bool, w: Text)
    ensures Numbers(Scan(open, Shrink(rule, w))) == Numbers(Scan(open, w))
    decreases |w|
  {
    if w != [] {
      var n := Hit(rule, w);
      if n > 0 {
        HitShrinks(rule, open, w);
        ShrinkKeepsNumbers(rule, true, w[n..]);
      } else {
        ShrinkKeepsGroup(rule, w);
        var e := GroupEnd(w, 0);
        if open && e != -1 {
          ShrinkKeepsNumbers(rule, true, w[e..]);
        } else {
          ShrinkKeepsNumbers(rule, !Blocks(w[0]), w[1..]);
          assert Shrink(rule, w)[1..] == Shrink(rule, w[1..]);
        }
      }
    }
  }

  lemma HitShrinks(rule: Rule, open: bool, w: Text)
    requires Hit(rule, w) > 0
    ensures var n := Hit(rule, w);
            && Numbers(Scan(open, w)) == Numbers(Scan(true, w[n..]))
            && Numbers(Scan(open, Shrink(rule, w))) == Numbers(Scan(true, Shrink(rule, w[n..])))
  {
    var n := Hit(rule, w);
    HitIsInert(rule, w);
    var s := Shrink(rule, w);
    assert s == [s[0]] + Shrink(rule, w[n..]);
    var x, y := w[..n], [s[0]];
    assert w == x + w[n..] && x[|x| - 1] == w[n - 1];
    assert OPEN !in x && OPEN !in y;
    hide *;
    ScanInert(open, x, w[n..]);
    ScanInert(open, y, Shrink(rule, w[n..]));
  }

  predicate Space(c: CodeUnit) {
    IsSpace(c)
  }

  /** `trim()`. */
  function Trim(w: Text): Text {
    DropLast(Space, DropFirst(Space, w))
  }

  lemma {:induction false} DropFirstKeepsNumbers(w: Text)
    ensures Numbers(Scan(true, DropFirst(Space, w))) == Numbers(Scan(true, w))
  {
    if w != [] && Space(w[0]) {
      DropFirstKeepsNumbers(w[1..]);
      assert w == [w[0]] + w[1..];
      ScanInert(true, [w[0]], w[1..]);
    }
  }

  lemma {:induction false} ScanSpaceLast(open: bool, w: Text, c: CodeUnit)
    requires Space(c)
    ensures Numbers(Scan(open, w + [c])) == Numbers(Scan(open, w))
    decreases |w|
  {
    hide *;
    if w == [] {
      OnlySpace(open, c);
    } else {
      var e := GroupEnd(w, 0);
      SpaceEndsNoGroup(w, c);
      NumbersStep(open, w);
      NumbersStep(open, w + [c]);
      if open && e != -1 {
        GroupFits(w);
        SnocSlices(w, c, 1, e - 1);
        SnocSlices(w, c, 1, e);
        ScanSpaceLast(true, w[e..], c);
      } else {
        SnocSlices(w, c, 0, 1);
        ScanSpaceLast(!Blocks(w[0]), w[1..], c);
      }
    }
  }

  lemma OnlySpace(open: bool, c: CodeUnit)
    requires Space(c)
    ensures Numbers(Scan(open, [] + [c])) == Numbers(Scan(open, []))
  {
    ScanInert(open, [c], []);
    assert [c] + [] == [] + [c];
  }

  lemma GroupFits(w: Text)
    requires GroupEnd(w, 0) != -1
    ensures 3 <= GroupEnd(w, 0) <= |w|
  {
  }

  lemma SnocSlices(w: Text, c: CodeUnit, i: nat, j: nat)
    requires i <= j <= |w|
    ensures (w + [c])[i..j] == w[i..j] && (w + [c])[j..] == w[j..] + [c]
  {
  }

  lemma SpaceEndsNoGroup(w: Text, c: CodeUnit)
    requires Space(c)
    ensures GroupEnd(w + [c], 0) == GroupEnd(w, 0)
  {
    var v := w + [c];
    assert v[|w|] == c;
    forall e | GroupAt(v, 0, e) ensures GroupAt(w, 0, e) {
      GroupInPrefix(w, v, e);
    }
    forall e | GroupAt(w, 0, e) ensures GroupAt(v, 0, e) {
      GroupInPrefix(w, v, e);
    }
  }

  lemma {:induction false} DropLastKeepsNumbers(w: Text)
    ensures Numbers(Scan(true, DropLast(Space, w))) == Numbers(Scan(true, w))
  {
    if w != [] && Space(w[|w| - 1]) {
      DropLastKeepsNumbers(w[..|w| - 1]);
      assert w == w[..|w| - 1] + [w[|w| - 1]];
      ScanSpaceLast(true, w[..|w| - 1], w[|w| - 1]);
    }
  }

  function Tidy(w: Text): Text {
    Trim(Shrink(Stops, Shrink(Blanks, w)))
  }

  /** Tidying white space neither makes nor loses a citation. */
  lemma TidyKeepsCitations(w: Text)
    ensures Numbers(Scan(true, Tidy(w))) == Numbers(Scan(true, w))
  {
    hide Scan, Numbers, Shrink;
    ShrinkKeepsNumbers(Blanks, true, w);
    ShrinkKeepsNumbers(Stops, true, Shrink(Blanks, w));
    DropFirstKeepsNumbers(Shrink(Stops, Shrink(Blanks, w)));
    DropLastKeepsNumbers(DropFirst(Space, Shrink(Stops, Shrink(Blanks, w))));
  }
}
