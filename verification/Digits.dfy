/** Numbers as JavaScript prints them. */
module Digits {
  import opened Utf16

  /** `String(n)`. */
  function Decimal(n: nat): (s: Text)
    ensures s != [] && forall k :: 0 <= k < |s| ==> IsDigit(s[k])
  {
    if n < 10 then [0x30 + n] else Decimal(n / 10) + [0x30 + n % 10]
  }

  /** `Number(s)` for a string of decimal digits. */
  function Number(s: Text): nat
    requires forall k :: 0 <= k < |s| ==> IsDigit(s[k])
  {
    if s == [] then 0
    else
      assert IsDigit(s[|s| - 1]);
      10 * Number(s[..|s| - 1]) + (s[|s| - 1] as int - 0x30)
  }

  predicate LeadingZero(s: Text) {
    |s| > 1 && s[0] == 0x30
  }

  lemma {:induction false} NumberOfDecimal(n: nat)
    ensures Number(Decimal(n)) == n && !LeadingZero(Decimal(n))
    ensures n > 0 ==> Decimal(n)[0] != 0x30
  {
    if n >= 10 {
      NumberOfDecimal(n / 10);
      assert Decimal(n)[..|Decimal(n)| - 1] == Decimal(n / 10);
    } else {
      assert Decimal(n)[..0] == [];
    }
  }

  lemma DecimalIsInjective(m: nat, n: nat)
    requires Decimal(m) == Decimal(n)
    ensures m == n
  {
    NumberOfDecimal(m);
    NumberOfDecimal(n);
  }

  /** Printing a numeral gives it back exactly when it has no leading zero, and
      otherwise something shorter. */
  lemma {:induction false} DecimalOfNumber(s: Text)
    requires s != [] && forall k :: 0 <= k < |s| ==> IsDigit(s[k])
    ensures !LeadingZero(s) ==> Decimal(Number(s)) == s
    ensures LeadingZero(s) ==> |Decimal(Number(s))| < |s|
  {
    var front, last := s[..|s| - 1], s[|s| - 1];
    assert s == front + [last];
    if front == [] {
      assert Number(s) == last - 0x30;
    } else {
      DecimalOfNumber(front);
      var n := Number(front);
      assert Number(s) / 10 == n && Number(s) % 10 == last - 0x30;
      if s[0] == 0x30 {
        if |front| == 1 {
          assert n == 0 by { assert front[..0] == []; }
        }
        assert |Decimal(Number(s))| < |s|;
      } else {
        assert !LeadingZero(front);
        assert Decimal(0) == [0x30];
        assert n > 0;
      }
    }
  }

  lemma FigureCount(n: nat)
    ensures |Decimal(n)| == 1 <==> n < 10
    ensures |Decimal(n)| == 2 <==> 10 <= n < 100
    ensures |Decimal(n)| == 3 <==> 100 <= n < 1000
    ensures |Decimal(n)| == 4 <==> 1000 <= n < 10000
    ensures |Decimal(n)| <= 6 <==> n < 1_000_000
  {
    if n >= 10 {
      FigureCount(n / 10);
    }
  }
}
