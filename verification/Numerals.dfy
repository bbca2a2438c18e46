/** Numerals padded to a width, and strings of them: the shape of dates and times. */
module Numerals {
  import opened Utf16
  import opened Digits

  function PadStart(s: Text, width: nat): Text
    decreases width - |s|
  {
    if |s| >= width then s else PadStart([0x30] + s, width)
  }

  lemma {:induction false} PadKeeps(s: Text, width: nat)
    ensures |PadStart(s, width)| == if |s| >= width then |s| else width
    ensures |s| < width ==> PadStart(s, width)[0] == 0x30
    decreases width - |s|
  {
    if |s| < width {
      PadKeeps([0x30] + s, width);
    }
  }

  lemma {:induction false} NumberOfPadded(s: Text, width: nat)
    requires forall k :: 0 <= k < |s| ==> IsDigit(s[k])
    ensures forall k :: 0 <= k < |PadStart(s, width)| ==> IsDigit(PadStart(s, width)[k])
    ensures Number(PadStart(s, width)) == Number(s)
    decreases width - |s|
  {
    if |s| < width {
      NumberOfPadded([0x30] + s, width);
      NumberOfZero(s);
    }
  }

  lemma {:induction false} NumberOfZero(s: Text)
    requires forall k :: 0 <= k < |s| ==> IsDigit(s[k])
    ensures Number([0x30] + s) == Number(s)
  {
    var t := [0x30] + s;
    if s == [] {
      assert t[..0] == [];
    } else {
      NumberOfZero(s[..|s| - 1]);
      assert t[..|t| - 1] == [0x30] + s[..|s| - 1] && t[|t| - 1] == s[|s| - 1];
    }
  }

  lemma PadIsInjective(m: nat, n: nat, width: nat)
    requires PadStart(Decimal(m), width) == PadStart(Decimal(n), width)
    ensures m == n
  {
    NumberOfPadded(Decimal(m), width);
    NumberOfPadded(Decimal(n), width);
    NumberOfDecimal(m);
    NumberOfDecimal(n);
  }

  lemma PadKeepsLong(n: nat)
    requires n >= 1000
    ensures PadStart(Decimal(n), 4) == Decimal(n)
  {
    FigureCount(n);
  }

  /** `a` and `b` agree up to `k`, where `a` has the smaller character. */
  ghost predicate FirstSmaller(a: Text, b: Text, k: int) {
    0 <= k < |a| && k < |b| && a[..k] == b[..k] && a[k] < b[k]
  }

  lemma FirstSmallerInside(x: Text, a: Text, b: Text, y: Text, z: Text, k: int)
    requires FirstSmaller(a, b, k)
    ensures Less(x + a + y, x + b + z) && !Less(x + b + z, x + a + y)
  {
    var s, t := x + a + y, x + b + z;
    assert s[..|x| + k] == x + a[..k] && t[..|x| + k] == x + b[..k];
    LessAt(s, t, |x| + k);
    LessAt(t, s, |x| + k);
  }

  // ---- numerals of one width ----

  ghost predicate Figures(s: Text) {
    forall k :: 0 <= k < |s| ==> IsDigit(s[k])
  }

  lemma {:induction false} SameNumberSameFigures(a: Text, b: Text)
    requires Figures(a) && Figures(b) && |a| == |b| && Number(a) == Number(b)
    ensures a == b
  {
    if a != [] {
      var m, n := a[..|a| - 1], b[..|b| - 1];
      assert IsDigit(a[|a| - 1]) && IsDigit(b[|b| - 1]);
      assert Number(m) == Number(n);
      SameNumberSameFigures(m, n);
      assert a == m + [a[|a| - 1]] && b == n + [b[|b| - 1]];
    }
  }

  lemma {:induction false} SmallerNumberComesFirst(a: Text, b: Text) returns (k: nat)
    requires Figures(a) && Figures(b) && |a| == |b| && Number(a) < Number(b)
    ensures FirstSmaller(a, b, k)
  {
    assert a != [];
    var m, n := a[..|a| - 1], b[..|b| - 1];
    assert IsDigit(a[|a| - 1]) && IsDigit(b[|b| - 1]);
    if Number(m) < Number(n) {
      k := SmallerNumberComesFirst(m, n);
      assert a[..k] == m[..k] && b[..k] == n[..k];
    } else {
      SameNumberSameFigures(m, n);
      k := |m|;
    }
  }

  lemma PaddedAscend(m: nat, n: nat, width: nat) returns (k: nat)
    requires m < n && |Decimal(m)| <= width && |Decimal(n)| <= width
    ensures FirstSmaller(PadStart(Decimal(m), width), PadStart(Decimal(n), width), k)
  {
    hide *;
    PadKeeps(Decimal(m), width);
    PadKeeps(Decimal(n), width);
    NumberOfPadded(Decimal(m), width);
    NumberOfPadded(Decimal(n), width);
    NumberOfDecimal(m);
    NumberOfDecimal(n);
    k := SmallerNumberComesFirst(PadStart(Decimal(m), width), PadStart(Decimal(n), width));
  }

  // ---- strings of numerals between fixed characters ----

  /** The width a numeral is padded to, and the text after it. */
  datatype Field = Field(width: nat, after: Text)

  function Render(fields: seq<Field>, values: seq<nat>): Text
    requires |fields| == |values|
  {
    if fields == [] then []
    else PadStart(Decimal(values[0]), fields[0].width) + (fields[0].after + Render(fields[1..], values[1..]))
  }

  ghost predicate Fits(fields: seq<Field>, values: seq<nat>) {
    |fields| == |values| && forall i :: 0 <= i < |fields| ==> |Decimal(values[i])| <= fields[i].width
  }

  /** The first value that differs is smaller. */
  ghost predicate Before(a: seq<nat>, b: seq<nat>) {
    a != [] && b != [] && (a[0] < b[0] || (a[0] == b[0] && Before(a[1..], b[1..])))
  }

  lemma BeforeAt(a: seq<nat>, b: seq<nat>, k: nat)
    requires k < |a| && k < |b| && a[k] < b[k] && forall i :: 0 <= i < k ==> a[i] == b[i]
    ensures Before(a, b)
  {
    if k > 0 { BeforeAt(a[1..], b[1..], k - 1); }
  }

  lemma {:induction false} LessAfter(x: Text, a: Text, b: Text)
    ensures Less(x + a, x + b) <==> Less(a, b)
  {
    if x == [] {
      assert x + a == a && x + b == b;
    } else {
      LessAfter(x[1..], a, b);
      assert (x + a)[1..] == x[1..] + a && (x + b)[1..] == x[1..] + b;
    }
  }

  lemma {:induction false} LessFront(a: Text, b: Text, x: Text, y: Text)
    requires |a| == |b| && Less(a, b)
    ensures Less(a + x, b + y) && !Less(b + y, a + x)
  {
    assert (a + x)[1..] == a[1..] + x && (b + y)[1..] == b[1..] + y;
    if a[0] == b[0] {
      LessFront(a[1..], b[1..], x, y);
    }
  }

  lemma RenderLength(fields: seq<Field>, a: seq<nat>, b: seq<nat>)
    requires Fits(fields, a) && Fits(fields, b)
    ensures |Render(fields, a)| == |Render(fields, b)|
  {
    if fields != [] {
      RenderLength(fields[1..], a[1..], b[1..]);
      PadKeeps(Decimal(a[0]), fields[0].width);
      PadKeeps(Decimal(b[0]), fields[0].width);
    }
  }

  /** Rendered field by field, earlier values make the smaller string. */
  lemma {:induction false} RenderAscends(fields: seq<Field>, a: seq<nat>, b: seq<nat>)
    requires Fits(fields, a) && Fits(fields, b) && Before(a, b)
    ensures Less(Render(fields, a), Render(fields, b)) && !Less(Render(fields, b), Render(fields, a))
  {
    var rest := fields[1..];
    var x, y := PadStart(Decimal(a[0]), fields[0].width), PadStart(Decimal(b[0]), fields[0].width);
    var s, t := fields[0].after + Render(rest, a[1..]), fields[0].after + Render(rest, b[1..]);
    assert Render(fields, a) == x + s && Render(fields, b) == y + t;
    if a[0] < b[0] {
      var k := PaddedAscend(a[0], b[0], fields[0].width);
      hide *;
      FirstSmallerInside([], x, y, s, t, k);
      assert [] + x + s == x + s && [] + y + t == y + t;
    } else {
      RenderAscends(rest, a[1..], b[1..]);
      hide *;
      var p, q := Render(rest, a[1..]), Render(rest, b[1..]);
      LessAfter(fields[0].after, p, q);
      LessAfter(fields[0].after, q, p);
      LessAfter(x, s, t);
      LessAfter(x, t, s);
    }
  }
}
