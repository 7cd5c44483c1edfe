/** Positional notation, most significant digit first. */
module Radix {
  import opened Common

  /** The number a digit sequence stands for. */
  function Value(s: seq<nat>, base: nat): nat {
    if s == [] then 0 else Value(s[..|s| - 1], base) * base + s[|s| - 1]
  }

  /** The digits of a number, without leading zeros. */
  function Digits(n: nat, base: nat): (s: seq<nat>)
    requires base > 1
    ensures forall i :: 0 <= i < |s| ==> s[i] < base
    ensures s != [] ==> s[0] != 0
    ensures n == 0 <==> s == []
  {
    if n == 0 then []
    else
      Smaller(n, base);
      Digits(n / base, base) + [n % base]
  }

  lemma Smaller(n: nat, base: nat)
    requires n > 0 && base > 1
    ensures n / base < n
  {
    var q, r := n / base, n % base;
    Product(2, base, q, q);
    assert n == base * q + r;
  }

  predicate AllBelow(s: seq<nat>, base: nat) {
    forall i :: 0 <= i < |s| ==> s[i] < base
  }

  lemma {:induction false} ValueOfDigits(n: nat, base: nat)
    requires base > 1
    ensures Value(Digits(n, base), base) == n
  {
    if n > 0 {
      var q, r := n / base, n % base;
      Smaller(n, base);
      assert n == q * base + r;
      ValueOfDigits(q, base);
      AppendDigit(Digits(q, base), r, base);
    }
  }

  lemma {:induction false} DigitsOfValue(s: seq<nat>, base: nat)
    requires base > 1 && AllBelow(s, base) && (s != [] ==> s[0] != 0)
    ensures Digits(Value(s, base), base) == s
    ensures s != [] ==> Value(s, base) > 0
  {
    if s != [] {
      var q, d := s[..|s| - 1], s[|s| - 1];
      DigitsOfValue(q, base);
      DivMod(Value(q, base), d, base);
      if q == [] { assert s[0] == d; }
      assert s == q + [d];
    }
  }

  lemma DivMod(q: nat, d: nat, base: nat)
    requires d < base
    ensures (q * base + d) / base == q && (q * base + d) % base == d
    ensures q > 0 ==> q * base + d > 0
  {
    var n := q * base + d;
    var q', d' := n / base, n % base;
    assert n == q' * base + d';
    MulGap(q', q, base);
    MulGap(q, q', base);
  }

  lemma MulGap(a: nat, b: nat, m: nat)
    ensures a < b ==> a * m + m <= b * m
  {
    if a < b { assert (a + 1) * m <= b * m; }
  }

  lemma {:induction false} ValueBound(s: seq<nat>, base: nat)
    requires AllBelow(s, base)
    ensures Value(s, base) < Pow(base, |s|)
  {
    if s != [] {
      var v, p := Value(s[..|s| - 1], base), Pow(base, |s| - 1);
      ValueBound(s[..|s| - 1], base);
      OneMoreDigit(v, p, s[|s| - 1], base);
    }
  }

  lemma OneMoreDigit(v: nat, p: nat, d: nat, base: nat)
    requires v < p && d < base
    ensures v * base + d < base * p
  {
    MulGap(v, p, base);
  }

  lemma {:induction false} ValueCons(x: nat, s: seq<nat>, base: nat)
    ensures Value([x] + s, base) == x * Pow(base, |s|) + Value(s, base)
  {
    if s == [] {
      assert [x] + s == [x] && [x][..0] == [];
    } else {
      var q := s[..|s| - 1];
      ValueCons(x, q, base);
      assert ([x] + s)[..|s|] == [x] + q;
      Distribute(x, Pow(base, |q|), Value(q, base), base);
    }
  }

  lemma Distribute(x: nat, p: nat, v: nat, base: nat)
    ensures (x * p + v) * base == x * (base * p) + v * base
  {
  }

  lemma {:induction false} LeadingZeros(k: nat, s: seq<nat>, base: nat)
    ensures Value(Repeat(0, k) + s, base) == Value(s, base)
  {
    if k == 0 {
      assert Repeat(0, 0) + s == s;
    } else {
      LeadingZeros(k - 1, s, base);
      assert Repeat(0, k) + s == [0] + (Repeat(0, k - 1) + s);
      ValueCons(0, Repeat(0, k - 1) + s, base);
    }
  }

  lemma {:induction false} PowMonotone(base: nat, a: nat, b: nat)
    requires base > 0 && a <= b
    ensures 0 < Pow(base, a) <= Pow(base, b)
    decreases b
  {
    if a < b {
      PowMonotone(base, a, b - 1);
    } else if a > 0 {
      PowMonotone(base, a - 1, b - 1);
    }
  }

  lemma {:induction false} PowAdd(base: nat, a: nat, b: nat)
    ensures Pow(base, a + b) == Pow(base, a) * Pow(base, b)
    decreases a
  {
    if a > 0 {
      PowAdd(base, a - 1, b);
      Associate(base, Pow(base, a - 1), Pow(base, b));
    }
  }

  lemma Associate(x: nat, y: nat, z: nat)
    ensures x * (y * z) == (x * y) * z
  {
  }

  /** A larger base with as many digits holds more. */
  lemma {:induction false} PowBase(a: nat, b: nat, e: nat)
    requires a <= b
    ensures Pow(a, e) <= Pow(b, e)
  {
    if e > 0 {
      PowBase(a, b, e - 1);
      Product(a, b, Pow(a, e - 1), Pow(b, e - 1));
    }
  }

  lemma Product(a: nat, b: nat, c: nat, d: nat)
    requires a <= b && c <= d
    ensures a * c <= b * d
  {
    assert a * c <= b * c;
    assert b * c <= b * d;
  }

  /** One digit of a long multiplication by f with carry c, at a place worth w. */
  lemma MulStep(base: nat, f: nat, x: nat, c: nat, w: nat, v: nat, o: nat, add: nat)
    requires base > 0 && v + c * w == f * o + add
    ensures var m := x * f + c;
            (m % base) * w + v + (m / base) * (base * w) == f * (x * w + o) + add
  {
    var m := x * f + c;
    assert m == (m / base) * base + m % base;
    calc {
      (m % base) * w + v + (m / base) * (base * w);
      { Associate(m / base, base, w); }
      (m % base) * w + v + ((m / base) * base) * w;
      (m % base + (m / base) * base) * w + v;
      m * w + v;
      (x * f) * w + c * w + v;
      (x * f) * w + f * o + add;
      { Associate(f, x, w); }
      f * (x * w) + f * o + add;
      f * (x * w + o) + add;
    }
  }

  /**
   A long multiplication of the digits `was` by f plus add, done from the right as far as
   `suffix`, with a carry still to be added one place up.
   */
  ghost predicate Partial(base: nat, f: nat, add: nat, was: seq<nat>, suffix: seq<nat>, carry: nat) {
    && |suffix| <= |was|
    && Value(suffix, base) + carry * Pow(base, |suffix|) == f * Value(was[|was| - |suffix|..], base) + add
  }

  lemma PartialStart(base: nat, f: nat, add: nat, was: seq<nat>)
    ensures Partial(base, f, add, was, [], add)
  {
    assert was[|was|..] == [];
    assert Pow(base, 0) == 1;
  }

  lemma PartialStep(base: nat, f: nat, add: nat, was: seq<nat>, suffix: seq<nat>, carry: nat)
    requires base > 0 && |suffix| < |was| && Partial(base, f, add, was, suffix, carry)
    ensures var m := was[|was| - 1 - |suffix|] * f + carry;
            Partial(base, f, add, was, [m % base] + suffix, m / base)
  {
    var p := |was| - 1 - |suffix|;
    MulStep(base, f, was[p], carry, Pow(base, |suffix|), Value(suffix, base), Value(was[p + 1..], base), add);
    assert was[p..] == [was[p]] + was[p + 1..];
    ValueCons(was[p], was[p + 1..], base);
    ValueCons((was[p] * f + carry) % base, suffix, base);
  }

  /** Without a carry the suffix is the product. */
  lemma PartialDone(base: nat, f: nat, add: nat, was: seq<nat>, suffix: seq<nat>)
    requires Partial(base, f, add, was, suffix, 0)
    ensures Value(suffix, base) == f * Value(was[|was| - |suffix|..], base) + add
  {
  }

  /**
   A carry left over needs another place, and the product fits in n places: so there is one, and it takes the carry.
   */
  lemma PartialGrow(base: nat, f: nat, add: nat, was: seq<nat>, suffix: seq<nat>, carry: nat, n: nat)
    requires base > 0 && carry > 0 && |suffix| <= n && Partial(base, f, add, was, suffix, carry)
    requires f * Value(was[|was| - |suffix|..], base) + add < Pow(base, n)
    ensures |suffix| < n
    ensures Value([carry] + suffix, base) == f * Value(was[|was| - |suffix|..], base) + add
  {
    PowMonotone(base, |suffix|, n);
    Product(1, carry, Pow(base, |suffix|), Pow(base, |suffix|));
    ValueCons(carry, suffix, base);
  }

  lemma AppendDigit(q: seq<nat>, d: nat, base: nat)
    ensures Value(q + [d], base) == Value(q, base) * base + d
  {
    assert (q + [d])[..|q|] == q;
  }
}
