/**
 * The editor stores on-grid tiles in a dictionary keyed by the string
 * `str(x) + ";" + str(y)` of the cell. Painting and erasing a cell only
 * touch that cell because this encoding is injective, which is proved here.
 */
module GridKeys {

  predicate IsDigit(c: char)
  {
    '0' <= c <= '9'
  }

  function DigitChar(d: int): (c: char)
    requires 0 <= d < 10
    ensures IsDigit(c)
  {
    ('0' as int + d) as char
  }

  /** Decimal digits of a natural number, most significant first, no leading zeros. */
  function NatToString(n: nat): (s: string)
    ensures |s| >= 1
    ensures n >= 10 ==> |s| >= 2
    ensures forall i :: 0 <= i < |s| ==> IsDigit(s[i])
  {
    if n < 10 then [DigitChar(n)] else NatToString(n / 10) + [DigitChar(n % 10)]
  }

  /** Python's `str` on an integer: a minus sign before the digits of a negative number. */
  function IntToString(n: int): (s: string)
    ensures ';' !in s
    ensures |s| >= 1 && (s[0] == '-' <==> n < 0)
  {
    if n < 0 then "-" + NatToString(-n) else NatToString(n)
  }

  /** The dictionary key of grid cell `(x, y)`. */
  function GridKey(cell: (int, int)): (k: string)
    ensures ';' in k
  {
    var x, y := IntToString(cell.0), IntToString(cell.1);
    assert (x + ";" + y)[|x|] == ';';
    x + ";" + y
  }

  /** A key splits at its first `;` into `str(x)` and `str(y)`. */
  lemma GridKeyDecodes(cell: (int, int))
    ensures var k := GridKey(cell);
      && k[..SeparatorIndex(k)] == IntToString(cell.0)
      && k[SeparatorIndex(k) + 1..] == IntToString(cell.1)
  {
    var x, y := IntToString(cell.0), IntToString(cell.1);
    SeparatorAt(x, y);
    assert (x + ";" + y)[..|x|] == x;
    assert (x + ";" + y)[|x| + 1..] == y;
  }

  /** Position of the first `;` in `s`. */
  function SeparatorIndex(s: string): (i: nat)
    requires ';' in s
    ensures i < |s| && s[i] == ';' && ';' !in s[..i]
  {
    if s[0] == ';' then 0 else
      assert s[1..][..SeparatorIndex(s[1..])] == s[1..SeparatorIndex(s[1..]) + 1];
      1 + SeparatorIndex(s[1..])
  }

  /** In `a + ";" + b` with no `;` in `a`, the first separator follows `a`. */
  lemma {:induction false} SeparatorAt(a: string, b: string)
    requires ';' !in a
    ensures SeparatorIndex(a + ";" + b) == |a|
  {
    if a != [] {
      assert (a + ";" + b)[1..] == a[1..] + ";" + b;
      SeparatorAt(a[1..], b);
    }
  }

  /** `str` on naturals is injective: a decimal numeral names one number. */
  lemma {:induction false} NatToStringInjective(a: nat, b: nat)
    requires NatToString(a) == NatToString(b)
    ensures a == b
  {
    var sa, sb := NatToString(a), NatToString(b);
    if a >= 10 && b >= 10 {
      assert sa[|sa| - 1] == sb[|sb| - 1];
      assert a % 10 == b % 10;
      assert NatToString(a / 10) == sa[..|sa| - 1] == sb[..|sb| - 1] == NatToString(b / 10);
      NatToStringInjective(a / 10, b / 10);
    }
  }

  /** `str` on integers is injective. */
  lemma IntToStringInjective(a: int, b: int)
    requires IntToString(a) == IntToString(b)
    ensures a == b
  {
    if a < 0 {
      assert IntToString(a)[1..] == NatToString(-a);
      assert IntToString(b)[1..] == NatToString(-b);
      NatToStringInjective(-a, -b);
    } else {
      NatToStringInjective(a, b);
    }
  }

  /** Two cells share a key only if they are the same cell. */
  lemma GridKeyInjective(c: (int, int), d: (int, int))
    ensures GridKey(c) == GridKey(d) ==> c == d
  {
    if GridKey(c) == GridKey(d) {
      GridKeyDecodes(c);
      GridKeyDecodes(d);
      IntToStringInjective(c.0, d.0);
      IntToStringInjective(c.1, d.1);
    }
  }
}
