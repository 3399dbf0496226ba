/** Positional notation: values, bounds and order of digit sequences, most significant digit first. */
module Positional {
  function Pow(base: nat, e: nat): (p: nat)
    ensures base > 0 ==> p > 0
  {
    if e == 0 then 1 else base * Pow(base, e - 1)
  }

  lemma Reassociated(a: int, b: int, c: int)
    ensures a * (b * c) == (a * b) * c
  {
  }

  lemma {:induction false} PowAdd(base: nat, m: nat, n: nat)
    ensures Pow(base, m + n) == Pow(base, m) * Pow(base, n)
  {
    if m > 0 {
      PowAdd(base, m - 1, n);
      Reassociated(base, Pow(base, m - 1), Pow(base, n));
    }
  }

  lemma {:induction false} PowMonotone(base: nat, m: nat, n: nat)
    requires base > 0 && m <= n
    ensures Pow(base, m) <= Pow(base, n)
  {
    PowAdd(base, m, n - m);
    var p, q := Pow(base, m), Pow(base, n - m);
    assert q >= 1;
    assert p * q >= p * 1;
  }

  predicate Digits(s: seq<int>, base: nat) { forall i :: 0 <= i < |s| ==> 0 <= s[i] < base }

  /** Horner's rule. */
  function Value(s: seq<int>, base: nat): int {
    if s == [] then 0 else Value(s[..|s| - 1], base) * base + s[|s| - 1]
  }

  lemma {:induction false} ValueSplit(head: int, tail: seq<int>, base: nat)
    ensures Value([head] + tail, base) == head * Pow(base, |tail|) + Value(tail, base)
  {
    var s := [head] + tail;
    if tail == [] {
      assert s[..0] == [];
    } else {
      var init, last := tail[..|tail| - 1], tail[|tail| - 1];
      assert s[..|s| - 1] == [head] + init;
      ValueSplit(head, init, base);
      var p, v := Pow(base, |init|), Value(init, base);
      calc {
        Value(s, base);
        (head * p + v) * base + last;
        { assert (head * p + v) * base == head * (base * p) + v * base; }
        head * (base * p) + (v * base + last);
      }
    }
  }

  lemma BoundStep(v: int, p: int, base: int)
    requires 0 <= v < p && base > 0
    ensures 0 <= v * base && v * base + base <= base * p
  {
    assert (v + 1) * base <= p * base;
  }

  lemma {:induction false} ValueBound(s: seq<int>, base: nat)
    requires base > 0 && Digits(s, base)
    ensures 0 <= Value(s, base) < Pow(base, |s|)
  {
    if s != [] {
      var init := s[..|s| - 1];
      ValueBound(init, base);
      BoundStep(Value(init, base), Pow(base, |init|), base);
    }
  }

  /** Dictionary order of equally long sequences. */
  predicate Before(a: seq<int>, b: seq<int>)
    requires |a| == |b|
  {
    a != [] && (a[0] < b[0] || (a[0] == b[0] && Before(a[1..], b[1..])))
  }

  /** For equally long digit sequences, dictionary order is the order of the values. */
  lemma {:induction false} OrderIsNumeric(a: seq<int>, b: seq<int>, base: nat)
    requires base > 0 && |a| == |b| && Digits(a, base) && Digits(b, base)
    ensures Before(a, b) <==> Value(a, base) < Value(b, base)
    ensures a == b <==> Value(a, base) == Value(b, base)
  {
    if a != [] {
      var p := Pow(base, |a| - 1);
      OrderIsNumeric(a[1..], b[1..], base);
      assert a == [a[0]] + a[1..] && b == [b[0]] + b[1..];
      ValueSplit(a[0], a[1..], base);
      ValueSplit(b[0], b[1..], base);
      ValueBound(a[1..], base);
      ValueBound(b[1..], base);
      HeadDecides(a[0], b[0], p, Value(a[1..], base), Value(b[1..], base));
    }
  }

  lemma HeadDecides(x: int, y: int, p: nat, v: int, w: int)
    requires 0 <= v < p && 0 <= w < p
    ensures x < y ==> x * p + v < y * p + w
    ensures x > y ==> x * p + v > y * p + w
  {
    if x < y {
      assert (x + 1) * p <= y * p;
      assert (x + 1) * p == x * p + p;
    }
    if x > y {
      assert (y + 1) * p <= x * p;
      assert (y + 1) * p == y * p + p;
    }
  }

  lemma DivMod(v: int, base: int)
    requires v >= 0 && base > 0
    ensures v / base >= 0 && 0 <= v % base < base && v == v / base * base + v % base
  {
  }

  lemma Scale(a: int, b: int, base: int)
    requires base > 0
    ensures a < b ==> (a + 1) * base <= b * base
    ensures (a + 1) * base == a * base + base
  {
  }

  lemma QuotientAndRemainder(v: nat, base: nat, last: int)
    requires 0 <= last < base
    ensures v * base >= 0 && (v * base + last) / base == v && (v * base + last) % base == last
  {
    Scale(0, v, base);
    var n := v * base + last;
    var q := n / base;
    DivMod(n, base);
    Scale(q, v, base);
    Scale(v, q, base);
  }

  lemma QuotientBelow(v: nat, base: nat, p: nat)
    requires base > 0 && v < base * p
    ensures 0 <= v / base < p
  {
    DivMod(v, base);
    if v / base >= p {
      Scale(p - 1, v / base, base);
      Scale(p - 1, p, base);
    }
  }

  /** The last `n` digits of `v`. */
  function Fixed(v: nat, base: nat, n: nat): (s: seq<int>)
    requires base > 0
    ensures |s| == n
    decreases n
  {
    if n == 0 then []
    else
      DivMod(v, base);
      Fixed(v / base, base, n - 1) + [v % base]
  }

  lemma {:induction false} FixedDigits(v: nat, base: nat, n: nat)
    requires base > 0
    ensures Digits(Fixed(v, base, n), base)
    decreases n
  {
    if n > 0 {
      DivMod(v, base);
      FixedDigits(v / base, base, n - 1);
    }
  }

  lemma {:induction false} FixedOfValue(s: seq<int>, base: nat)
    requires base > 0 && Digits(s, base)
    ensures Value(s, base) >= 0 && Fixed(Value(s, base), base, |s|) == s
  {
    ValueBound(s, base);
    if s != [] {
      var init, last := s[..|s| - 1], s[|s| - 1];
      FixedOfValue(init, base);
      QuotientAndRemainder(Value(init, base), base, last);
      assert s == init + [last];
    }
  }

  lemma {:induction false} ValueOfFixed(v: nat, base: nat, n: nat)
    requires base > 0 && v < Pow(base, n)
    ensures Value(Fixed(v, base, n), base) == v
    decreases n
  {
    if n > 0 {
      QuotientBelow(v, base, Pow(base, n - 1));
      DivMod(v, base);
      ValueOfFixed(v / base, base, n - 1);
      var s := Fixed(v, base, n);
      assert s[..|s| - 1] == Fixed(v / base, base, n - 1);
    }
  }

  /** A longer form only adds zeros in front. */
  lemma {:induction false} FixedLeadingZero(v: nat, base: nat, n: nat)
    requires base > 0 && v < Pow(base, n)
    ensures Fixed(v, base, n + 1) == [0] + Fixed(v, base, n)
    decreases n
  {
    DivMod(v, base);
    if n == 0 {
      assert Fixed(v, base, 1) == Fixed(v / base, base, 0) + [v % base];
    } else {
      QuotientBelow(v, base, Pow(base, n - 1));
      FixedLeadingZero(v / base, base, n - 1);
    }
  }

  /** All but the first of n + 1 digits are the n digits. */
  lemma {:induction false} FixedTail(v: nat, base: nat, n: nat)
    requires base > 0
    ensures Fixed(v, base, n + 1)[1..] == Fixed(v, base, n)
    decreases n
  {
    DivMod(v, base);
    if n > 0 {
      FixedTail(v / base, base, n - 1);
      assert Fixed(v, base, n + 1) == Fixed(v / base, base, n) + [v % base];
      assert (Fixed(v / base, base, n) + [v % base])[1..] == Fixed(v / base, base, n)[1..] + [v % base];
    }
  }

  /** The last n digits do not depend on multiples of the n-th power. */
  lemma {:induction false} FixedModulo(v: nat, q: nat, base: nat, n: nat)
    requires base > 0
    ensures v + q * Pow(base, n) >= 0 && Fixed(v + q * Pow(base, n), base, n) == Fixed(v, base, n)
    decreases n
  {
    DivMod(v, base);
    if n > 0 {
      var p := Pow(base, n - 1);
      assert q * (base * p) == (q * p) * base;
      assert q * p >= 0;
      var more := v / base + q * p;
      FixedModulo(v / base, q, base, n - 1);
      assert v + q * Pow(base, n) == more * base + v % base by { Scaled(v / base, q * p, base); }
      QuotientAndRemainder(more, base, v % base);
    }
  }

  lemma Scaled(a: int, b: int, base: int)
    ensures (a + b) * base == a * base + b * base
  {
  }
}
