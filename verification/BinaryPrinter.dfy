/** `print_binary` and `count_ones` of byte_ops/task3.c, for every word width. */
module BinaryPrinter {
  import opened Modular

  function Pow2(k: nat): (p: nat)
    ensures p > 0
  {
    if k == 0 then 1 else 2 * Pow2(k - 1)
  }

  predicate IsDigit(c: char) {
    c == '0' || c == '1'
  }

  function Digit(bit: nat): char
    requires bit < 2
  {
    if bit == 0 then '0' else '1'
  }

  /** The number a string of binary digits denotes. */
  function Value(s: string): nat {
    if s == [] then 0
    else 2 * Value(s[..|s| - 1]) + if s[|s| - 1] == '1' then 1 else 0
  }

  /** Binary digits without a leading zero, except for "0" itself. */
  predicate Canonical(s: string) {
    && s != [] && (forall i :: 0 <= i < |s| ==> IsDigit(s[i]))
    && (s[0] == '0' ==> |s| == 1)
  }

  function Ones(s: string): nat {
    if s == [] then 0 else Ones(s[..|s| - 1]) + if s[|s| - 1] == '1' then 1 else 0
  }

  /** The number of bits set, counted from the low end. */
  function BitCount(n: nat): nat {
    if n == 0 then 0 else n % 2 + BitCount(n / 2)
  }

  /** The numeral the printer is to produce. */
  function Numeral(n: nat): string {
    if n < 2 then [Digit(n)] else Numeral(n / 2) + [Digit(n % 2)]
  }

  /** `n >> k` */
  function Shift(n: nat, k: nat): nat {
    DivNonNegative(n, Pow2(k));
    n / Pow2(k)
  }

  /** Shifting one place further halves the number. */
  lemma ShiftHalves(n: nat, k: nat)
    ensures Shift(n, k) == 2 * Shift(n, k + 1) + Shift(n, k) % 2
  {
    var p := Pow2(k);
    var m, rest := n / p, n % p;
    assert n == m * p + rest;
    var bit := m % 2;
    assert m * p == m / 2 * (2 * p) + bit * p by {
      assert m == 2 * (m / 2) + bit;
    }
    assert bit * p <= p;
    DivModUnique(n, 2 * p, m / 2, bit * p + rest);
  }

  lemma ShiftAll(n: nat, k: nat)
    requires n < Pow2(k)
    ensures Shift(n, k) == 0
  {
    DivModUnique(n, Pow2(k), 0, n);
  }

  /** What is printed once the bits down to some place have been seen. */
  function Printed(high: nat): string {
    if high == 0 then "" else Numeral(high)
  }

  method PrintBinary(n: nat, width: nat) returns (printed: string)
    requires n < Pow2(width)
    ensures printed == Numeral(n)
    ensures printed != "" && n < Pow2(|printed|)
    ensures forall k :: 0 <= k < |printed| ==> printed[|printed| - 1 - k] == if Shift(n, k) % 2 == 1 then '1' else '0'
  {
    printed := "";
    var leadingZero := true;
    var i := width as int - 1;
    ShiftAll(n, width);
    while i >= 0
      invariant -1 <= i < width
      invariant leadingZero <==> Shift(n, i + 1) == 0
      invariant printed == Printed(Shift(n, i + 1))
    {
      ShiftHalves(n, i);
      var bit := Shift(n, i) % 2;
      if bit == 1 {
        leadingZero := false;
      }
      if !leadingZero {
        printed := printed + [Digit(bit)];
      }
      i := i - 1;
    }
    assert Shift(n, 0) == n;
    if leadingZero {
      printed := printed + "0";
    }
    DigitsAreBits(n);
  }

  lemma ShiftStep(n: nat, k: nat)
    ensures Shift(n, k + 1) == Shift(n / 2, k)
  {
    var p, h := Pow2(k), n / 2;
    assert h == h / p * p + h % p;
    assert n == 2 * h + n % 2;
    assert h / p * (2 * p) == 2 * (h / p * p);
    DivModUnique(n, 2 * p, h / p, 2 * (h % p) + n % 2);
  }

  /** The digit k places from the right is bit k, and there are as many digits as the number needs. */
  lemma {:induction false} DigitsAreBits(n: nat)
    ensures var s := Numeral(n);
            && s != "" && n < Pow2(|s|)
            && forall k :: 0 <= k < |s| ==> s[|s| - 1 - k] == if Shift(n, k) % 2 == 1 then '1' else '0'
  {
    assert Shift(n, 0) == n;
    if n >= 2 {
      DigitsAreBits(n / 2);
      forall k | 0 <= k < |Numeral(n)|
        ensures Numeral(n)[|Numeral(n)| - 1 - k] == if Shift(n, k) % 2 == 1 then '1' else '0'
      {
        if k > 0 {
          ShiftStep(n, k - 1);
        }
      }
    }
  }

  method CountOnes(n: nat) returns (count: nat)
    ensures count == BitCount(n)
    ensures count == Ones(Numeral(n))
    ensures count == |set i: nat | i < |Numeral(n)| && Numeral(n)[i] == '1'|
  {
    count := 0;
    var m := n;
    while m != 0
      invariant count + BitCount(m) == BitCount(n)
    {
      count := count + m % 2;
      m := m / 2;
    }
    OnesAreBits(n);
    OnesAreCounted(Numeral(n));
    assert OnePositions(Numeral(n)) == set i: nat | i < |Numeral(n)| && Numeral(n)[i] == '1';
  }

  function OnePositions(s: string): set<nat> {
    set i: nat | i < |s| && s[i] == '1'
  }

  lemma {:induction false} OnesAreCounted(s: string)
    ensures Ones(s) == |OnePositions(s)|
  {
    if s == [] {
      assert OnePositions(s) == {};
    } else {
      var front, last := s[..|s| - 1], |s| - 1;
      OnesAreCounted(front);
      assert OnePositions(s) == OnePositions(front) + if s[last] == '1' then {last} else {};
    }
  }

  /** Reading the printed digits gives the number back. */
  lemma {:induction false} ReadBack(n: nat)
    ensures Value(Numeral(n)) == n
  {
    var s := Numeral(n);
    if n >= 2 {
      ReadBack(n / 2);
      assert s[..|s| - 1] == Numeral(n / 2);
    } else {
      assert s[..|s| - 1] == [];
    }
  }

  /** No leading zeros, and a printed one bit is never lost in front. */
  lemma {:induction false} NumeralIsCanonical(n: nat)
    ensures Canonical(Numeral(n))
    ensures Numeral(n)[0] == '0' <==> n == 0
  {
    if n >= 2 {
      NumeralIsCanonical(n / 2);
    }
  }

  /** A canonical numeral is the one printed for its value, so printing is a bijection between
      numbers and canonical numerals. */
  lemma {:induction false} CanonicalIsPrinted(s: string)
    requires Canonical(s)
    ensures Numeral(Value(s)) == s
  {
    var front, last := s[..|s| - 1], s[|s| - 1];
    assert IsDigit(last);
    assert s == front + [last];
    if front == [] {
      assert Value(front) == 0;
    } else {
      CanonicalIsPrinted(front);
      FirstOneCounts(front);
    }
  }

  lemma {:induction false} FirstOneCounts(s: string)
    requires s != [] && s[0] == '1'
    ensures Value(s) >= 1
  {
    if |s| > 1 {
      FirstOneCounts(s[..|s| - 1]);
    }
  }

  lemma PrintingIsInjective(m: nat, n: nat)
    requires Numeral(m) == Numeral(n)
    ensures m == n
  {
    ReadBack(m);
    ReadBack(n);
  }

  /** Counting from the low end agrees with counting the printed digits from the high end. */
  lemma {:induction false} OnesAreBits(n: nat)
    ensures Ones(Numeral(n)) == BitCount(n)
  {
    var s := Numeral(n);
    if n >= 2 {
      OnesAreBits(n / 2);
      assert s[..|s| - 1] == Numeral(n / 2);
    } else {
      assert s[..|s| - 1] == [];
      assert BitCount(0) == 0;
    }
  }
}
