/**
 * The parts of `OrderedEnum` (pokedex/enums.py) that do not depend on a particular
 * enumeration: decimal formatting of an order, the zero-padded `sql_value` key, Python's
 * string comparison, and a first-match search over a declaration list.
 */
module OrderedEnum {
  import opened Wrappers

  /** The character of decimal digit `d`. */
  function DigitChar(d: nat): (c: char)
    requires d < 10
    ensures '0' <= c <= '9'
  {
    ('0' as int + d) as char
  }

  function Pow10(w: nat): (p: nat)
    ensures p >= 1
  {
    if w == 0 then 1 else 10 * Pow10(w - 1)
  }

  /** Python's `str(n)` for a natural number: its decimal digits, without leading zeros. */
  function NatToString(n: nat): (s: string)
    ensures |s| >= 1
    ensures forall i :: 0 <= i < |s| ==> '0' <= s[i] <= '9'
    decreases n
  {
    if n < 10 then [DigitChar(n)] else NatToString(n / 10) + [DigitChar(n % 10)]
  }

  /** The `w` least significant decimal digits of `n`, most significant first. */
  function FixedDigits(n: nat, w: nat): (r: string)
    ensures |r| == w
  {
    if w == 0 then [] else FixedDigits(n / 10, w - 1) + [DigitChar(n % 10)]
  }

  /** The format spec `{s:c>w}`: `s` right-aligned in a field of width `w`, filled with `c`. */
  function PadLeft(s: string, w: nat, c: char): (r: string)
    ensures |r| == if |s| >= w then |s| else w
    ensures r[|r| - |s|..] == s
    ensures forall i :: 0 <= i < |r| - |s| ==> r[i] == c
  {
    if |s| >= w then s else seq(w - |s|, _ => c) + s
  }

  /** `str(n)` has exactly as many digits as it takes to write `n`. */
  lemma {:induction false} NatToStringFits(n: nat)
    ensures n < Pow10(|NatToString(n)|)
    decreases n
  {
    if n >= 10 {
      NatToStringFits(n / 10);
    }
  }

  /** A larger number never has fewer digits. */
  lemma {:induction false} NatToStringLengthMonotone(n: nat, m: nat)
    requires n <= m
    ensures |NatToString(n)| <= |NatToString(m)|
    decreases m
  {
    if n >= 10 {
      NatToStringLengthMonotone(n / 10, m / 10);
    }
  }

  lemma {:induction false} FixedDigitsOfZero(w: nat)
    ensures FixedDigits(0, w) == seq(w, _ => '0')
  {
    if w > 0 {
      FixedDigitsOfZero(w - 1);
    }
  }

  /** Padding `str(n)` with '0' to width `w` gives the `w`-digit form of `n`. */
  lemma {:induction false} PaddedIsFixedDigits(n: nat, w: nat)
    requires |NatToString(n)| <= w
    ensures PadLeft(NatToString(n), w, '0') == FixedDigits(n, w)
    decreases w
  {
    var d := [DigitChar(n % 10)];
    if n < 10 {
      FixedDigitsOfZero(w - 1);
      assert NatToString(n) == d;
      if w == 1 {
        assert FixedDigits(n, w) == [] + d;
      } else {
        assert PadLeft(d, w, '0') == seq(w - 1, _ => '0') + d;
      }
    } else {
      var s := NatToString(n / 10);
      assert NatToString(n) == s + d;
      PaddedIsFixedDigits(n / 10, w - 1);
      var zeros := seq(w - 1 - |s|, _ => '0');
      assert PadLeft(s, w - 1, '0') == zeros + s by {
        if |s| == w - 1 {
          assert zeros + s == s;
        }
      }
      assert PadLeft(s + d, w, '0') == zeros + (s + d) by {
        if |s| + 1 == w {
          assert zeros + (s + d) == s + d;
        }
      }
      assert zeros + (s + d) == (zeros + s) + d;
    }
  }

  /** Python's `<` on `str`: the first differing code point decides; a proper prefix comes first. */
  predicate StrLess(a: string, b: string)
    decreases |a|
  {
    if |a| == 0 then |b| > 0
    else if |b| == 0 then false
    else if a[0] != b[0] then a[0] < b[0]
    else StrLess(a[1..], b[1..])
  }

  lemma {:induction false} StrLessIrreflexive(a: string)
    ensures !StrLess(a, a)
    decreases |a|
  {
    if |a| > 0 {
      StrLessIrreflexive(a[1..]);
    }
  }

  lemma {:induction false} StrLessAsymmetric(a: string, b: string)
    requires StrLess(a, b)
    ensures !StrLess(b, a)
    decreases |a|
  {
    if |a| > 0 && |b| > 0 && a[0] == b[0] {
      StrLessAsymmetric(a[1..], b[1..]);
    }
  }

  /** A common prefix does not change how two strings compare. */
  lemma {:induction false} StrLessCommonPrefix(p: string, a: string, b: string)
    ensures StrLess(p + a, p + b) <==> StrLess(a, b)
    decreases |p|
  {
    if |p| == 0 {
      assert p + a == a && p + b == b;
    } else {
      assert (p + a)[0] == (p + b)[0];
      assert (p + a)[1..] == p[1..] + a;
      assert (p + b)[1..] == p[1..] + b;
      StrLessCommonPrefix(p[1..], a, b);
    }
  }

  /** Two `w`-digit forms compare as strings as their numbers compare, whatever follows them. */
  lemma {:induction false} FixedDigitsSortNumerically(n: nat, m: nat, w: nat, x: string, y: string)
    requires n < m < Pow10(w)
    ensures StrLess(FixedDigits(n, w) + x, FixedDigits(m, w) + y)
    decreases w
  {
    var dn, dm := [DigitChar(n % 10)], [DigitChar(m % 10)];
    assert FixedDigits(n, w) + x == FixedDigits(n / 10, w - 1) + (dn + x);
    assert FixedDigits(m, w) + y == FixedDigits(m / 10, w - 1) + (dm + y);
    if n / 10 < m / 10 {
      FixedDigitsSortNumerically(n / 10, m / 10, w - 1, dn + x, dm + y);
    } else {
      assert n / 10 == m / 10 && n % 10 < m % 10;
      StrLessCommonPrefix(FixedDigits(n / 10, w - 1), dn + x, dm + y);
    }
  }

  /**
   * `OrderedEnum.sql_value`: the member's order, left-padded with '0' to the number of
   * digits of the last member's order, then '_' and the member's name.
   */
  function SqlValue(order: nat, lastOrder: nat, name: string): string
  {
    PadLeft(NatToString(order), |NatToString(lastOrder)|, '0') + ("_" + name)
  }

  /** Every `sql_value` of one enumeration starts with a digit field of the same width. */
  lemma SqlValueShape(order: nat, lastOrder: nat, name: string)
    requires order <= lastOrder
    ensures var w := |NatToString(lastOrder)|;
      SqlValue(order, lastOrder, name) == FixedDigits(order, w) + ("_" + name)
  {
    NatToStringLengthMonotone(order, lastOrder);
    PaddedIsFixedDigits(order, |NatToString(lastOrder)|);
  }

  /**
   * Within one enumeration, comparing `sql_value` strings agrees with comparing orders,
   * so storing the string keeps the declaration order.
   */
  lemma SqlValueSortsByOrder(n: nat, m: nat, lastOrder: nat, x: string, y: string)
    requires n <= lastOrder && m <= lastOrder
    requires n == m ==> x == y
    ensures StrLess(SqlValue(n, lastOrder, x), SqlValue(m, lastOrder, y)) <==> n < m
  {
    var w := |NatToString(lastOrder)|;
    SqlValueShape(n, lastOrder, x);
    SqlValueShape(m, lastOrder, y);
    NatToStringFits(lastOrder);
    assert Pow10(w) > lastOrder;
    if n < m {
      FixedDigitsSortNumerically(n, m, w, "_" + x, "_" + y);
    } else if m < n {
      FixedDigitsSortNumerically(m, n, w, "_" + y, "_" + x);
      StrLessAsymmetric(SqlValue(m, lastOrder, y), SqlValue(n, lastOrder, x));
    } else {
      StrLessIrreflexive(SqlValue(n, lastOrder, x));
    }
  }

  /** Python's `next(x for x in s if p(x))`, with `None` where Python raises StopIteration. */
  function FindFirst<T>(s: seq<T>, p: T -> bool): (r: Option<T>)
    ensures r.Some? ==> r.value in s && p(r.value)
    ensures r.None? <==> forall i :: 0 <= i < |s| ==> !p(s[i])
  {
    if |s| == 0 then None
    else if p(s[0]) then Some(s[0])
    else FindFirst(s[1..], p)
  }

  /** The match `FindFirst` returns is the first one in the list. */
  lemma {:induction false} FindFirstIsFirst<T>(s: seq<T>, p: T -> bool, i: nat)
    requires i < |s| && p(s[i])
    requires forall j :: 0 <= j < i ==> !p(s[j])
    ensures FindFirst(s, p) == Some(s[i])
  {
    if i > 0 {
      FindFirstIsFirst(s[1..], p, i - 1);
    }
  }
}
