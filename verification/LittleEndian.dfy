/** Little-endian digit strings: the bytes, 32-bit chunks and 64-bit limbs of an atom. */
module LittleEndian {

  type byte = b: nat | b < 256

  function Value(digits: seq<nat>, base: nat): nat {
    if digits == [] then 0 else digits[0] + base * Value(digits[1..], base)
  }

  lemma MulAtLeast(base: int, k: int, l: int)
    requires base >= 0 && k >= l
    ensures base * k >= base * l
  {
  }

  lemma DivShrinks(a: nat, base: nat)
    requires a > 0 && base >= 2
    ensures a / base < a
    ensures a == a % base + base * (a / base)
  {
    MulAtLeast(a / base, base, 2);
  }

  lemma SmallMultiple(base: int, k: int)
    requires base >= 0 && -base < base * k < base
    ensures k == 0
  {
    if k >= 1 { MulAtLeast(base, k, 1); }
    if k <= -1 { MulAtLeast(base, -1, k); }
  }

  lemma DivModOf(q: nat, r: nat, base: nat)
    requires r < base
    ensures (r + base * q) / base == q && (r + base * q) % base == r
  {
    var n := r + base * q;
    var d := n / base - q;
    assert n == base * (n / base) + n % base;
    assert base * (n / base) == base * q + base * d;
    SmallMultiple(base, d);
  }

  /** `atom-u32-le` for base 2^32; the bytes counted by `met 3` for base 256. */
  function Digits(a: nat, base: nat): seq<nat>
    requires base >= 2
    decreases a
  {
    if a == 0 then []
    else
      DivShrinks(a, base);
      [a % base] + Digits(a / base, base)
  }

  predicate InBase(digits: seq<nat>, base: nat) {
    forall i :: 0 <= i < |digits| ==> digits[i] < base
  }

  /** No zero digit in the most significant place. */
  predicate Minimal(digits: seq<nat>) {
    digits == [] || digits[|digits| - 1] != 0
  }

  /** Splitting an atom loses nothing, and leaves no zero in the top place. */
  lemma {:induction false} DigitsRecompose(a: nat, base: nat)
    requires base >= 2
    ensures Value(Digits(a, base), base) == a
    ensures InBase(Digits(a, base), base) && Minimal(Digits(a, base))
    decreases a
  {
    if a > 0 {
      DivShrinks(a, base);
      DigitsRecompose(a / base, base);
      var rest := Digits(a / base, base);
      assert Digits(a, base)[1..] == rest;
      if rest == [] {
        assert a / base == 0;
      }
    }
  }

  /** Minimal digit strings are exactly the ones that splitting produces. */
  lemma {:induction false} DigitsOfValue(digits: seq<nat>, base: nat)
    requires base >= 2 && InBase(digits, base) && Minimal(digits)
    ensures Digits(Value(digits, base), base) == digits
  {
    if digits != [] {
      var rest := digits[1..];
      DigitsOfValue(rest, base);
      DivModOf(Value(rest, base), digits[0], base);
      assert Value(digits, base) != 0 by {
        if rest != [] { MulAtLeast(base, Value(rest, base), 1); }
      }
      assert digits == [digits[0]] + rest;
    }
  }

  lemma {:induction false} DigitsInjective(a: nat, b: nat, base: nat)
    requires base >= 2 && Digits(a, base) == Digits(b, base)
    ensures a == b
  {
    DigitsRecompose(a, base);
    DigitsRecompose(b, base);
  }

  function Pow(base: nat, n: nat): nat {
    if n == 0 then 1 else base * Pow(base, n - 1)
  }

  lemma {:induction false} PowPositive(base: nat, n: nat)
    requires base >= 2
    ensures Pow(base, n) >= 1
  {
    if n > 0 {
      PowPositive(base, n - 1);
      MulAtLeast(base, Pow(base, n - 1), 1);
    }
  }

  lemma {:induction false} PowMonotone(base: nat, m: nat, n: nat)
    requires base >= 2 && m <= n
    ensures Pow(base, m) <= Pow(base, n)
  {
    if m < n {
      PowMonotone(base, m, n - 1);
      MulAtLeast(Pow(base, n - 1), base, 1);
    }
  }

  /** A quotient is what makes a remainder below the divisor. */
  lemma QuotientIs(a: nat, d: nat, q: nat, r: nat)
    requires r < d && a == d * q + r
    ensures a / d == q
  {
    DivModOf(q, r, d);
  }

  lemma SplitTwice(b: nat, c: nat, q: nat, x: nat, y: nat, r: nat)
    requires q == c * x + y && y < c && r < b
    ensures b * q + r == (b * c) * x + (b * y + r)
    ensures b * y + r < b * c
  {
    assert b * q == b * (c * x) + b * y;
    assert b * (c * x) == (b * c) * x;
    MulAtLeast(b, c, y + 1);
    assert b * (y + 1) == b * y + b;
  }

  lemma DivDiv(a: nat, b: nat, c: nat)
    requires b >= 1 && c >= 1
    ensures b * c >= 1 && (a / b) / c == a / (b * c)
  {
    MulAtLeast(b, c, 1);
    var q, r := a / b, a % b;
    DivDivOf(a, b, c, q, r, q / c, q % c);
  }

  lemma DivDivOf(a: nat, b: nat, c: nat, q: nat, r: nat, x: nat, y: nat)
    requires a == b * q + r && q == c * x + y && y < c && r < b && b * c >= 1
    ensures a / (b * c) == x
  {
    SplitTwice(b, c, q, x, y, r);
    QuotientIs(a, b * c, x, b * y + r);
  }

  /** Digit `i` of an atom, counted from the least significant, and how many there are. */
  lemma {:induction false} DigitAt(a: nat, base: nat, i: nat)
    requires base >= 2 && i < |Digits(a, base)|
    ensures Pow(base, i) >= 1 && Digits(a, base)[i] == a / Pow(base, i) % base
  {
    DivShrinks(a, base);
    PowPositive(base, i);
    if i > 0 {
      DigitAt(a / base, base, i - 1);
      DivDiv(a, base, Pow(base, i - 1));
    }
  }

  /** As many digits as it takes to reach the atom, and no more. */
  lemma {:induction false} DigitCount(a: nat, base: nat)
    requires base >= 2
    ensures var n := |Digits(a, base)|; a < Pow(base, n) && (n > 0 ==> Pow(base, n - 1) <= a)
    decreases a
  {
    if a > 0 {
      DivShrinks(a, base);
      var n := |Digits(a, base)|;
      assert |Digits(a / base, base)| == n - 1;
      DigitCount(a / base, base);
      ScaleBounds(a, base, Pow(base, n - 1), if n > 1 then Pow(base, n - 2) else 0);
      if n == 1 { assert Pow(base, 0) == 1; }
    }
  }

  lemma ScaleBounds(a: nat, base: nat, above: nat, below: nat)
    requires base >= 2 && below <= a / base < above
    ensures base * below <= a < base * above
  {
    var b := a / base;
    assert a == base * b + a % base;
    MulAtLeast(base, b, below);
    MulAtLeast(base, above, b + 1);
    assert base * (b + 1) == base * b + base;
  }

  /** Digit strings of one length have the same value only when they are the same. */
  lemma {:induction false} ValueInjective(xs: seq<nat>, ys: seq<nat>, base: nat)
    requires |xs| == |ys| && InBase(xs, base) && InBase(ys, base)
    requires Value(xs, base) == Value(ys, base)
    ensures xs == ys
  {
    if xs != [] {
      DivModOf(Value(xs[1..], base), xs[0], base);
      DivModOf(Value(ys[1..], base), ys[0], base);
      ValueInjective(xs[1..], ys[1..], base);
      assert xs == [xs[0]] + xs[1..] && ys == [ys[0]] + ys[1..];
    }
  }

  function Zeros(n: nat): (r: seq<byte>)
    ensures |r| == n && forall i :: 0 <= i < n ==> r[i] == 0
  {
    seq(n, _ => 0)
  }

  /** Zeros above the top digit do not count. */
  lemma {:induction false} ValuePadded(digits: seq<nat>, n: nat, base: nat)
    ensures Value(digits + Zeros(n), base) == Value(digits, base)
    decreases |digits|, n
  {
    var padded := digits + Zeros(n);
    if digits != [] {
      ValuePadded(digits[1..], n, base);
      assert padded[1..] == digits[1..] + Zeros(n);
    } else if n > 0 {
      ValuePadded(digits, n - 1, base);
      assert padded[1..] == digits + Zeros(n - 1);
    }
  }
}
