/** Characters shared by the text encoders: indentation and decimal numbers. */
module Text {
  import opened Bits

  lemma FiveParts(w: string, a: string, v: string, b: string, d: string, c: string)
    ensures w + a + v + b + d + c == w + (a + v + b + d + c)
  {
  }

  /** Four spaces a level. */
  function Margin(level: nat): (m: string)
    ensures |m| == 4 * level && forall i :: 0 <= i < |m| ==> m[i] == ' '
  {
    if level == 0 then "" else Margin(level - 1) + "    "
  }

  /** A new line indented to a level; levels below zero count as zero. */
  function Indent(level: int): (s: string)
    ensures forall i :: 0 <= i < |s| ==> s[i] == '\n' || s[i] == ' '
  {
    "\n" + Margin(if level < 0 then 0 else level)
  }

  /** ASN__TEXT_INDENT */
  method TextIndent(cb: Sink<char>, level: int)
    modifies cb
    ensures cb.out == old(cb.out) + Indent(level)
  {
    cb.Consume("\n");
    var tmpLevel := if level < 0 then 0 else level;
    assert cb.out == old(cb.out) + ("\n" + Margin(0));
    for i := 0 to tmpLevel
      invariant cb.out == old(cb.out) + ("\n" + Margin(i))
    {
      cb.Consume("    ");
      assert Margin(i + 1) == Margin(i) + "    ";
    }
  }

  predicate IsDigit(c: char) {
    '0' <= c <= '9'
  }

  function DigitValue(c: char): (v: nat)
    requires IsDigit(c)
    ensures v <= 9
  {
    c as int - '0' as int
  }

  function DigitChar(v: nat): (c: char)
    requires v <= 9
    ensures IsDigit(c) && DigitValue(c) == v
  {
    ('0' as int + v) as char
  }

  /** What %lu prints. */
  function Decimal(n: nat): (s: string)
    ensures s != "" && forall i :: 0 <= i < |s| ==> IsDigit(s[i])
  {
    if n < 10 then [DigitChar(n)] else Decimal(n / 10) + [DigitChar(n % 10)]
  }

  /** The number the first n digits denote. */
  function DecimalValue(s: string, n: nat): nat
    requires n <= |s| && forall i :: 0 <= i < n ==> IsDigit(s[i])
  {
    if n == 0 then 0 else 10 * DecimalValue(s, n - 1) + DigitValue(s[n - 1])
  }

  lemma {:induction false} DecimalPrefix(s: string, t: string, n: nat)
    requires n <= |s| && forall i :: 0 <= i < n ==> IsDigit(s[i])
    ensures DecimalValue(s + t, n) == DecimalValue(s, n)
  {
    if n > 0 { DecimalPrefix(s, t, n - 1); }
  }

  /** A number is printed as its decimal digits without leading zeros. */
  lemma {:induction false} DecimalInverse(n: nat)
    ensures DecimalValue(Decimal(n), |Decimal(n)|) == n
    ensures |Decimal(n)| > 1 ==> Decimal(n)[0] != '0'
    ensures n > 0 ==> Decimal(n)[0] != '0'
  {
    if n >= 10 {
      DecimalInverse(n / 10);
      DecimalPrefix(Decimal(n / 10), [DigitChar(n % 10)], |Decimal(n / 10)|);
    }
  }

  /** Digits without a leading zero are what their number prints as. */
  lemma {:induction false} DecimalOf(d: string, n: nat)
    requires 0 < n <= |d| && (forall i :: 0 <= i < n ==> IsDigit(d[i])) && (n > 1 ==> d[0] != '0')
    ensures Decimal(DecimalValue(d, n)) == d[..n]
    ensures n > 1 ==> DecimalValue(d, n) >= 10
  {
    assert d[..n] == d[..n - 1] + [d[n - 1]];
    DigitBack(d[n - 1]);
    if n == 1 {
      assert DecimalValue(d, 0) == 0 && d[..1] == [d[0]];
    } else {
      DecimalOf(d, n - 1);
      if n == 2 {
        assert DecimalValue(d, 1) == 10 * DecimalValue(d, 0) + DigitValue(d[0]);
      }
    }
  }

  lemma DigitBack(c: char)
    requires IsDigit(c)
    ensures DigitChar(DigitValue(c)) == c
  {
  }

  /** The digits are those from 0 to 9, in order. */
  lemma DigitChars(v: nat)
    requires v <= 9
    ensures DigitChar(v) == "0123456789"[v] && DigitValue("0123456789"[v]) == v
  {
  }

  function Pow10(k: nat): nat {
    if k == 0 then 1 else 10 * Pow10(k - 1)
  }

  lemma {:induction false} DecimalLength(n: nat, k: nat)
    requires n < Pow10(k) && k > 0
    ensures |Decimal(n)| <= k
  {
    if n >= 10 {
      assert k > 1 by { assert Pow10(1) == 10 * Pow10(0); }
      DecimalLength(n / 10, k - 1);
    }
  }

  /** Twenty digits hold every size_t. */
  lemma SizeDigits(n: nat)
    requires n < 0x1_0000_0000_0000_0000
    ensures |Decimal(n)| <= 20
  {
    hide Decimal;
    assert Pow10(5) == 100000;
    assert Pow10(10) == 10000000000;
    assert Pow10(15) == 1000000000000000;
    assert Pow10(20) == 100000000000000000000;
    DecimalLength(n, 20);
  }
}
