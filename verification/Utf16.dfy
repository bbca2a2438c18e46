/** Strings as JavaScript sees them: sequences of UTF-16 code units. */
module Utf16 {
  type CodeUnit = u: int | 0 <= u < 0x1_0000
  type Text = seq<CodeUnit>

  /** The characters matched by `\s` and stripped by `trim`: the WhiteSpace and
      LineTerminator productions, sections 7.2 and 7.3 of ECMA-262 5.1. */
  predicate IsSpace(c: int) {
    || 0x09 <= c <= 0x0D || c == 0x20 || c == 0xA0 || c == 0x1680
    || 0x2000 <= c <= 0x200A || c == 0x2028 || c == 0x2029
    || c == 0x202F || c == 0x205F || c == 0x3000 || c == 0xFEFF
  }

  predicate IsDigit(c: int) {
    0x30 <= c <= 0x39
  }

  /** The white space of JavaScript, one by one. */
  const WHITE: set<int> := {
    0x09, 0x0A, 0x0B, 0x0C, 0x0D, 0x20, 0xA0, 0x1680, 0x2000, 0x2001, 0x2002, 0x2003, 0x2004, 0x2005, 0x2006,
    0x2007, 0x2008, 0x2009, 0x200A, 0x2028, 0x2029, 0x202F, 0x205F, 0x3000, 0xFEFF}

  lemma SpacesAreWhite(c: int)
    ensures IsSpace(c) <==> c in WHITE
  {
  }

  /** An ASCII string as code units. */
  function Codes(s: string): Text
    requires forall k :: 0 <= k < |s| ==> s[k] < 128 as char
  {
    seq(|s|, k requires 0 <= k < |s| => s[k] as int)
  }

  /** `part` is spelled by `text` starting at position `p`. */
  predicate OccursAt(part: Text, text: Text, p: int) {
    0 <= p <= |text| - |part| && text[p..p + |part|] == part
  }

  ghost predicate Occurs(part: Text, text: Text) {
    exists p :: OccursAt(part, text, p)
  }

  lemma OccursAtByIndex(part: Text, text: Text, p: int)
    requires 0 <= p <= |text| - |part|
    ensures OccursAt(part, text, p) <==> forall k :: 0 <= k < |part| ==> text[p + k] == part[k]
  {
    if forall k :: 0 <= k < |part| ==> text[p + k] == part[k] {
      assert text[p..p + |part|] == part;
    } else {
      var k :| 0 <= k < |part| && text[p + k] != part[k];
      assert text[p..p + |part|][k] != part[k];
    }
  }

  /** The least position at or after `from` where `part` occurs, or -1. */
  function IndexOf(part: Text, text: Text, from: nat): (r: int)
    ensures r == -1 || (from <= r && OccursAt(part, text, r))
    ensures forall q :: from <= q && (r == -1 || q < r) ==> !OccursAt(part, text, q)
    decreases |text| - from
  {
    if from > |text| then -1
    else if OccursAt(part, text, from) then from
    else IndexOf(part, text, from + 1)
  }

  lemma Assoc<T>(a: seq<T>, b: seq<T>, c: seq<T>)
    ensures (a + b) + c == a + (b + c)
  {
  }

  lemma SliceSnoc<T>(text: seq<T>, lo: nat, hi: nat)
    requires lo < hi <= |text|
    ensures text[lo..hi] == text[lo..hi - 1] + [text[hi - 1]]
  {
  }

  lemma SliceOfSlice<T>(text: seq<T>, lo: nat, hi: nat, i: nat, j: nat)
    requires i <= j && lo + j <= hi <= |text|
    ensures text[lo..hi][i..j] == text[lo + i..lo + j]
  {
    var a, b := text[lo..hi][i..j], text[lo + i..lo + j];
    forall k | 0 <= k < j - i ensures a[k] == b[k] {
      assert a[k] == text[lo..hi][i + k];
    }
  }

  lemma TakeSnoc<T>(text: seq<T>, k: nat)
    requires k < |text|
    ensures text[..k + 1] == text[..k] + [text[k]]
  {
  }

  /** JavaScript's `<` on strings (section 11.8.5 of ECMA-262 5.1). */
  predicate Less(a: Text, b: Text) {
    b != [] && (a == [] || a[0] < b[0] || (a[0] == b[0] && Less(a[1..], b[1..])))
  }

  lemma LessAt(a: Text, b: Text, k: nat)
    requires k < |a| && k < |b| && a[..k] == b[..k]
    ensures a[k] < b[k] ==> Less(a, b)
    ensures a[k] > b[k] ==> !Less(a, b)
    decreases k
  {
    if k > 0 {
      assert a[0] == a[..k][0] == b[..k][0] == b[0];
      assert a[1..][..k - 1] == a[..k][1..] == b[..k][1..] == b[1..][..k - 1];
      LessAt(a[1..], b[1..], k - 1);
    }
  }

  lemma {:induction false} NotLessItself(a: Text)
    ensures !Less(a, a)
  {
    if a != [] { NotLessItself(a[1..]); }
  }

  /** Of two different strings exactly one is the smaller. */
  lemma {:induction false} LessIsTotal(a: Text, b: Text)
    ensures a != b ==> (Less(a, b) <==> !Less(b, a))
  {
    if a != [] && b != [] && a[0] == b[0] {
      LessIsTotal(a[1..], b[1..]);
      assert a == [a[0]] + a[1..] && b == [b[0]] + b[1..];
    }
  }

  /** The order is that of the first difference, and a proper prefix comes first. */
  lemma {:induction false} LessIsFirstDifference(a: Text, b: Text)
    ensures Less(a, b) <==> a < b || exists k :: 0 <= k < |a| && k < |b| && a[..k] == b[..k] && a[k] < b[k]
  {
    if a != [] && b != [] && a[0] == b[0] {
      LessIsFirstDifference(a[1..], b[1..]);
      assert a == [a[0]] + a[1..] && b == [b[0]] + b[1..];
      if k :| 0 <= k < |a| && k < |b| && a[..k] == b[..k] && a[k] < b[k] {
        assert a[1..][..k - 1] == a[..k][1..] == b[..k][1..] == b[1..][..k - 1] && a[1..][k - 1] < b[1..][k - 1];
      }
      if k :| 0 <= k < |a| - 1 && k < |b| - 1 && a[1..][..k] == b[1..][..k] && a[1..][k] < b[1..][k] {
        assert a[..k + 1] == [a[0]] + a[1..][..k] && b[..k + 1] == [b[0]] + b[1..][..k] && a[k + 1] < b[k + 1];
      }
    } else if a != [] && b != [] {
      if a[0] < b[0] { assert a[..0] == b[..0]; }
      forall k | 0 < k < |a| && k < |b| ensures a[..k] != b[..k] {
        assert a[..k][0] != b[..k][0];
      }
    }
  }
}
