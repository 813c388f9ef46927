/**
 * Identifier rendering: strconv.FormatInt(n, 10) for the non-negative
 * counter values that generateID hands out, its inverse, and the fact that
 * a counter which only grows never hands out the same identifier twice.
 */
module Decimal {
  import Text

  function DigitChar(d: nat): char
    requires d < 10
  {
    ('0' as int + d) as char
  }

  predicate IsDigit(c: char) {
    '0' <= c <= '9'
  }

  /** A non-empty string of decimal digits. */
  predicate IsDecimal(s: string) {
    |s| > 0 && forall i :: 0 <= i < |s| ==> IsDigit(s[i])
  }

  /** strconv.FormatInt(n, 10) for n >= 0: digits, most significant first, no leading zeros. */
  function DecimalString(n: nat): (s: string)
    ensures IsDecimal(s)
    ensures s[0] == '0' <==> n == 0
    ensures |s| == 1 <==> n < 10
    decreases n
  {
    if n < 10 then [DigitChar(n)] else DecimalString(n / 10) + [DigitChar(n % 10)]
  }

  /** The value of a string of decimal digits. */
  function ParseDecimal(s: string): nat
    requires forall i :: 0 <= i < |s| ==> IsDigit(s[i])
    decreases |s|
  {
    if s == [] then 0
    else
      assert IsDigit(s[|s| - 1]);
      ParseDecimal(s[..|s| - 1]) * 10 + (s[|s| - 1] as int - '0' as int)
  }

  /** Parsing undoes rendering, so every rendering is a well-formed decimal. */
  lemma {:induction false} ParseDecimalString(n: nat)
    ensures IsDecimal(DecimalString(n))
    ensures ParseDecimal(DecimalString(n)) == n
    decreases n
  {
    if n >= 10 {
      ParseDecimalString(n / 10);
      var s := DecimalString(n);
      assert s[..|s| - 1] == DecimalString(n / 10);
    }
  }

  /** Different counter values render as different identifiers. */
  lemma DecimalStringInjective(m: nat, n: nat)
    requires DecimalString(m) == DecimalString(n)
    ensures m == n
  {
    ParseDecimalString(m);
    ParseDecimalString(n);
  }

  /** Every identifier issued so far is the rendering of a counter value below `next`. */
  ghost predicate IssuedBelow(issued: set<string>, next: nat) {
    forall k :: k in issued ==> exists n: nat :: n < next && k == DecimalString(n)
  }

  /**
   * Issuing `next` and then incrementing keeps the invariant, and the issued
   * identifier is new: this is why identifiers are never reused.
   */
  lemma FreshId(issued: set<string>, next: nat)
    requires IssuedBelow(issued, next)
    ensures DecimalString(next) !in issued
    ensures IssuedBelow(issued + {DecimalString(next)}, next + 1)
  {
    if DecimalString(next) in issued {
      var n: nat :| n < next && DecimalString(next) == DecimalString(n);
      DecimalStringInjective(n, next);
    }
    forall k | k in issued + {DecimalString(next)}
      ensures exists n: nat :: n < next + 1 && k == DecimalString(n)
    {
      if k in issued {
        var n: nat :| n < next && k == DecimalString(n);
        assert n < next + 1;
      } else {
        assert k == DecimalString(next);
      }
    }
  }

  /** Identifiers compare as strings, so "10" sorts before "2". */
  lemma IdTenBeforeTwo()
    ensures DecimalString(10) == "10" && DecimalString(2) == "2"
    ensures Text.Less(DecimalString(10), DecimalString(2))
  {
    assert DecimalString(1) == "1";
    assert DecimalString(10) == DecimalString(1) + "0";
  }
}
