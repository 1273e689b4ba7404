/** Decimal numerals as Python's formatting writes them. */
module Decimals {
  predicate IsDigit(c: char) {
    '0' <= c <= '9'
  }

  predicate AreDigits(s: string) {
    forall i :: 0 <= i < |s| ==> IsDigit(s[i])
  }

  function Digit(n: nat): (c: char)
    requires n < 10
    ensures IsDigit(c)
  {
    '0' + n as char
  }

  /** `str(n)` */
  function Show(n: nat): (s: string)
    ensures s != "" && AreDigits(s)
  {
    if n < 10 then [Digit(n)] else Show(n / 10) + [Digit(n % 10)]
  }

  /** The number a string of digits stands for. */
  function Value(s: string): nat
    requires AreDigits(s)
  {
    if s == "" then 0 else 10 * Value(s[..|s| - 1]) + (s[|s| - 1] - '0') as nat
  }

  lemma {:induction false} ValueOfShow(n: nat)
    ensures Value(Show(n)) == n
  {
    if n < 10 {
      assert Show(n)[..0] == "";
    } else {
      ValueOfShow(n / 10);
      assert Show(n)[..|Show(n)| - 1] == Show(n / 10);
    }
  }

  lemma ShowIsInjective(a: nat, b: nat)
    requires Show(a) == Show(b)
    ensures a == b
  {
    ValueOfShow(a);
    ValueOfShow(b);
  }

  /** `f"{n:0{width}d}"` */
  function Pad(n: nat, width: nat): (s: string)
    ensures AreDigits(s) && |s| >= |Show(n)|
  {
    Zeros(width - |Show(n)|) + Show(n)
  }

  function Zeros(n: int): (s: string)
    ensures AreDigits(s)
  {
    if n <= 0 then "" else "0" + Zeros(n - 1)
  }

  lemma {:induction false} ValueOfZeros(n: int, s: string)
    requires AreDigits(s)
    ensures AreDigits(Zeros(n) + s) && Value(Zeros(n) + s) == Value(s)
    decreases |s|, n
  {
    if s == "" {
      assert Zeros(n) + s == Zeros(n);
      ZerosAreNothing(n);
    } else {
      var init := s[..|s| - 1];
      assert (Zeros(n) + s)[..|Zeros(n) + s| - 1] == Zeros(n) + init;
      ValueOfZeros(n, init);
    }
  }

  lemma {:induction false} ZerosAreNothing(n: int)
    ensures Value(Zeros(n)) == 0
    decreases n
  {
    if n > 0 {
      ZerosAreNothing(n - 1);
      ZerosCommute(n - 1);
      assert (Zeros(n - 1) + "0")[..|Zeros(n - 1)|] == Zeros(n - 1);
    }
  }

  lemma {:induction false} ZerosCommute(n: int)
    ensures "0" + Zeros(n) == Zeros(n) + "0"
    decreases n
  {
    if n > 0 {
      ZerosCommute(n - 1);
      assert Zeros(n) + "0" == "0" + (Zeros(n - 1) + "0");
    }
  }

  lemma ValueOfPad(n: nat, width: nat)
    ensures Value(Pad(n, width)) == n
  {
    var zeros, digits := Zeros(width - |Show(n)|), Show(n);
    assert Pad(n, width) == zeros + digits;
    ValueOfZeros(width - |Show(n)|, digits);
    ValueOfShow(n);
  }

  lemma PadIsInjective(a: nat, b: nat, width: nat)
    requires Pad(a, width) == Pad(b, width)
    ensures a == b
  {
    ValueOfPad(a, width);
    ValueOfPad(b, width);
  }

  lemma FirstChar(a: string, separator: char, x: string)
    ensures (a + [separator] + x)[0] == (if a == "" then separator else a[0])
    ensures (a + [separator] + x)[1..] == (if a == "" then x else a[1..] + [separator] + x)
  {
  }

  lemma LastChar(a: string, separator: char, x: string)
    ensures var s := a + [separator] + x;
            && s[|s| - 1] == (if x == "" then separator else x[|x| - 1])
            && s[..|s| - 1] == (if x == "" then a else a + [separator] + x[..|x| - 1])
  {
  }

  /** Digits up to the same separator are the same digits. */
  lemma {:induction false} DigitsEndAtSeparator(a: string, x: string, b: string, y: string, separator: char)
    requires AreDigits(a) && AreDigits(b) && !IsDigit(separator)
    requires a + [separator] + x == b + [separator] + y
    ensures a == b && x == y
  {
    FirstChar(a, separator, x);
    FirstChar(b, separator, y);
    if a != "" && b != "" {
      DigitsEndAtSeparator(a[1..], x, b[1..], y, separator);
      assert a == [a[0]] + a[1..] && b == [b[0]] + b[1..];
    }
  }

  /** Digits behind the last separator are the same digits. */
  lemma {:induction false} DigitsStartAtSeparator(a: string, x: string, b: string, y: string, separator: char)
    requires AreDigits(x) && AreDigits(y) && !IsDigit(separator)
    requires a + [separator] + x == b + [separator] + y
    ensures a == b && x == y
    decreases |x|
  {
    LastChar(a, separator, x);
    LastChar(b, separator, y);
    if x != "" && y != "" {
      DigitsStartAtSeparator(a, x[..|x| - 1], b, y[..|y| - 1], separator);
      assert x == x[..|x| - 1] + [x[|x| - 1]] && y == y[..|y| - 1] + [y[|y| - 1]];
    }
  }
}
