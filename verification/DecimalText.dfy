/**
 The decimal text in which queued drawing commands keep their arguments.
 Strings are C strings: what precedes the terminating NUL.
 */
module DecimalText {
  import opened Arithmetic

  /** The number a string stands for: every character counts as its code minus 48, whatever it is. */
  function Value(s: string): int
    decreases |s|
  {
    if s == "" then 0 else 10 * Value(s[..|s| - 1]) + (s[|s| - 1] as int - 48)
  }

  /** Decimal notation, without leading zeros. */
  function Decimal(n: nat): (s: string)
    ensures |s| > 0
  {
    if n < 10 then [Digit(n)] else Decimal(n / 10) + [Digit(n % 10)]
  }

  function Digit(d: nat): char
    requires d < 10
  {
    (d + 48) as char
  }

  function Pow10(e: nat): (p: nat)
    ensures p > 0
  {
    if e == 0 then 1 else 10 * Pow10(e - 1)
  }

  /** What ParseChar writes: nothing for a negative number. */
  function Text(n: int): string {
    if n < 0 then "" else Decimal(n)
  }

  lemma {:induction false} ValueOfDecimal(n: nat)
    ensures Value(Decimal(n)) == n
  {
    if n >= 10 {
      ValueOfDecimal(n / 10);
      assert Decimal(n)[..|Decimal(n)| - 1] == Decimal(n / 10);
    } else {
      assert Value([Digit(n)]) == 10 * Value([]) + n;
    }
  }

  lemma {:induction false} DecimalLength(n: nat, e: nat)
    requires e > 0
    ensures n < Pow10(e) <==> |Decimal(n)| <= e
  {
    if n >= 10 && e > 1 {
      DecimalLength(n / 10, e - 1);
      assert n < 10 * Pow10(e - 1) <==> n / 10 < Pow10(e - 1);
    } else {
      assert Pow10(1) == 10;
    }
  }

  /** n divided by 10 k times, last digit: the k-th digit of n from the right. */
  lemma {:induction false} DecimalDigit(n: nat, k: nat)
    requires k < |Decimal(n)|
    ensures Decimal(n)[|Decimal(n)| - 1 - k] == Digit(n / Pow10(k) % 10)
    decreases k
  {
    if n >= 10 && k > 0 {
      DecimalDigit(n / 10, k - 1);
      DivDiv(n, 10, Pow10(k - 1));
    }
  }

  const DIGITS: string := "0123456789"

  /** The k-th digit of a number, counted from the right. */
  function DigitAt(v: nat, k: nat): (d: nat)
    ensures d < 10
  {
    v / Pow10(k) % 10
  }

  /** The text of a number is its digits, the highest first, and begins with 0 only if that is all. */
  lemma TextDigits(n: int, k: nat)
    ensures n < 0 ==> Text(n) == ""
    ensures n >= 0 && k < |Text(n)| ==> Text(n)[|Text(n)| - 1 - k] == DIGITS[DigitAt(n, k)]
    ensures |Text(n)| > 1 ==> Text(n)[0] != '0'
  {
    if n >= 0 {
      if k < |Text(n)| {
        DecimalDigit(n, k);
      }
      NoLeadingZero(n);
    }
  }

  lemma {:induction false} NoLeadingZero(n: nat)
    ensures n > 0 ==> Decimal(n)[0] != '0'
    ensures n < 10 <==> |Decimal(n)| == 1
  {
    if n >= 10 {
      NoLeadingZero(n / 10);
    }
  }

  predicate AllDigits(s: string) {
    forall k :: 0 <= k < |s| ==> '0' <= s[k] <= '9'
  }

  lemma {:induction false} ValueRange(s: string)
    requires AllDigits(s)
    ensures 0 <= Value(s) < Pow10(|s|)
    decreases |s|
  {
    if s != "" {
      ValueRange(s[..|s| - 1]);
    }
  }

  /** The value of a string of digits is the number with these digits, and no others. */
  lemma {:induction false} ValueDigits(s: string, k: nat)
    requires AllDigits(s)
    ensures 0 <= Value(s) < Pow10(|s|)
    ensures k < |s| ==> s[|s| - 1 - k] == DIGITS[DigitAt(Value(s), k)]
    decreases |s|
  {
    hide DigitAt, Pow10;
    ValueRange(s);
    if k < |s| {
      var n, d := |s| - 1, s[|s| - 1] as int - 48;
      ValueRange(s[..n]);
      if k > 0 {
        ValueDigits(s[..n], k - 1);
        HigherDigit(Value(s[..n]), d, k);
      } else {
        LastDigit(Value(s[..n]), d);
      }
    }
  }

  lemma LastDigit(v: nat, d: nat)
    requires d < 10
    ensures DigitAt(10 * v + d, 0) == d && DIGITS[d] as int == 48 + d
  {
    assert (10 * v + d) % 10 == d;
  }

  lemma HigherDigit(v: nat, d: nat, k: nat)
    requires d < 10 && k > 0
    ensures DigitAt(10 * v + d, k) == DigitAt(v, k - 1)
  {
    assert (10 * v + d) / 10 == v;
    DivDiv(10 * v + d, 10, Pow10(k - 1));
  }

  // ----- the code

  method GetIntLength(x: int) returns (iter: nat)
    ensures iter == |Text(x)|
  {
    iter := 0;
    var xCh := x;
    if xCh == 0 {
      iter := iter + 1;
    }
    while xCh > 0
      invariant x < 0 ==> xCh == x && iter == 0
      invariant x == 0 ==> xCh == 0 && iter == 1
      invariant x > 0 ==> xCh >= 0 && |Text(x)| == iter + if xCh == 0 then 0 else |Decimal(xCh)|
      decreases xCh
    {
      iter := iter + 1;
      xCh := xCh / 10;
    }
  }

  lemma {:induction false} ValueConcat(a: string, b: string)
    ensures Value(a + b) == Value(a) * Pow10(|b|) + Value(b)
    decreases |b|
  {
    if b == "" {
      assert a + b == a;
    } else {
      var n := |b| - 1;
      ValueConcat(a, b[..n]);
      assert (a + b)[..|a + b| - 1] == a + b[..n];
      assert Value(a) * (10 * Pow10(n)) == 10 * (Value(a) * Pow10(n));
    }
  }

  method ParseInt(s: string) returns (holder: int)
    ensures holder == Value(s)
  {
    holder := 0;
    var offsetMP := 1;
    var x := |s| - 1;
    while x >= 0
      invariant -1 <= x < |s|
      invariant offsetMP == Pow10(|s| - 1 - x)
      invariant holder == Value(s[x + 1..])
    {
      ghost var c := s[x..x + 1];
      assert s[x..] == c + s[x + 1..];
      assert c[..0] == "" && Value(c) == s[x] as int - 48;
      ValueConcat(c, s[x + 1..]);
      holder := holder + (s[x] as int - 48) * offsetMP;
      offsetMP := offsetMP * 10;
      x := x - 1;
    }
    assert s[0..] == s;
  }

  method ParseChar(n: int) returns (s: string)
    ensures s == Text(n)
  {
    var len := GetIntLength(n);
    s := "";
    var x := 0;
    while x < len
      invariant 0 <= x <= len == |Text(n)|
      invariant s == Text(n)[..x]
    {
      var power := 1;
      var y := 1;
      while y < len - x
        invariant 1 <= y <= len - x
        invariant power == Pow10(y - 1)
      {
        power := power * 10;
        y := y + 1;
      }
      DecimalDigit(n, len - 1 - x);
      s := s + [(n / power % 10 + 48) as char];
      x := x + 1;
    }
  }

  function Capped(a: int, capacity: nat): (r: nat)
    ensures r <= capacity
  {
    if a > capacity then capacity else if a < 0 then 0 else a
  }

  method ValueCapper(a: int, capacity: nat) returns (r: nat)
    ensures r <= capacity
    ensures 0 <= a <= capacity ==> r == a
    ensures a < 0 ==> r == 0
    ensures a > capacity ==> r == capacity
  {
    var b := if a > capacity then capacity else a;
    r := if b < 0 then 0 else b;
  }

  /** Text that was capped and printed reads back as the capped number, and is short enough for a copy of four bytes with its NUL. */
  lemma CappedTextReadsBack(s: string, capacity: nat)
    requires capacity < 1000
    ensures Value(Text(Capped(Value(s), capacity))) == Capped(Value(s), capacity)
    ensures |Text(Capped(Value(s), capacity))| <= 3
  {
    var n := Capped(Value(s), capacity);
    ValueOfDecimal(n);
    DecimalLength(n, 3);
    assert Pow10(2) == 100;
  }
}
