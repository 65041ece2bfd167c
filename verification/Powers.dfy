/** Powers of two and binary digits. */
module Powers {

  function Pow2(n: nat): (r: nat)
    ensures r >= 1
  {
    if n == 0 then 1 else 2 * Pow2(n - 1)
  }

  /** Bit `i` of a two's complement integer. */
  function Bit(x: int, i: nat): (b: int)
    ensures 0 <= b <= 1
  {
    x / Pow2(i) % 2
  }

  lemma Quotient(x: int, d: int, q: int, r: int)
    requires d > 0 && x == q * d + r && 0 <= r < d
    ensures x / d == q && x % d == r
  {
    var q', r' := x / d, x % d;
    assert (q - q') * d == r' - r;
    if q > q' {
      Times(q - q', 1, d);
    } else if q < q' {
      Times(q' - q, 1, d);
    }
  }

  lemma Times(a: int, b: int, d: int)
    requires a >= b && d > 0
    ensures a * d >= b * d
  {}

  /** Dropping one digit less keeps one digit more. */
  lemma DropOneLess(x: int, k: nat)
    ensures x / Pow2(k) == 2 * (x / Pow2(k + 1)) + Bit(x, k)
  {
    hide Pow2;
    Doubles(k);
    HalveQuotient(x, Pow2(k));
  }

  lemma HalveQuotient(x: int, p: int)
    requires p > 0
    ensures x / p == 2 * (x / (2 * p)) + x / p % 2
  {
    var q := x / p;
    DivMod(x, p);
    HalfOf(x, p, x % p, q / 2, q % 2);
  }

  lemma DivMod(x: int, p: int)
    requires p > 0
    ensures x == x / p * p + x % p && 0 <= x % p < p
  {}

  lemma HalfOf(x: int, p: int, r: int, h: int, b: int)
    requires 0 <= r < p && 0 <= b <= 1 && x == (2 * h + b) * p + r
    ensures x / (2 * p) == h
  {
    Spread(h, b, p);
    if b == 0 { Quotient(x, 2 * p, h, r); } else { Quotient(x, 2 * p, h, p + r); }
  }

  lemma Doubles(k: nat)
    ensures Pow2(k + 1) == 2 * Pow2(k)
  {}

  lemma Spread(h: int, b: int, p: int)
    ensures (2 * h + b) * p == h * (2 * p) + b * p
  {}

  lemma ModDouble(a: int, b: int, k: nat)
    requires 0 <= b <= 1
    ensures (2 * a + b) % Pow2(k + 1) == 2 * (a % Pow2(k)) + b
  {
    hide Pow2;
    var p := Pow2(k);
    Doubles(k);
    var q, r := a / p, a % p;
    assert 2 * a + b == q * (2 * p) + (2 * r + b) by {
      assert a == q * p + r;
      assert 2 * (q * p) == q * (2 * p);
    }
    Quotient(2 * a + b, 2 * p, q, 2 * r + b);
  }

  lemma {:induction false} PowAdd(a: nat, b: nat)
    ensures Pow2(a + b) == Pow2(a) * Pow2(b)
    decreases a
  {
    if a > 0 { PowAdd(a - 1, b); }
  }

  // ----- 64-bit words

  /** The number in [-half, half) that differs from n by a multiple of 2 * half. */
  function Wrap(n: int, half: int): (x: int)
    requires half > 0
    ensures -half <= x < half
  {
    var u := n % (2 * half);
    if u >= half then u - 2 * half else u
  }

  /** The signed word that holds the low 64 bits of a number. */
  function Int64(n: int): int {
    Wrap(n, Pow2(63))
  }

  predicate IsInt64(x: int) {
    0 - Pow2(63) <= x < Pow2(63)
  }

  /** `x & 1 << i` for a signed word: bit i, and nothing past bit 63, where the mask is zero. */
  function Masked(x: int, i: nat): (b: int)
    ensures 0 <= b <= 1
  {
    if i < 64 then Bit(x, i) else 0
  }

  /** `x | 1 << i` for a signed word. */
  function Or64(x: int, i: nat): int {
    if i >= 64 || Bit(x, i) == 1 then x else if i == 63 then x - Pow2(63) else x + Pow2(i)
  }

  lemma Int64OfWord(x: int)
    requires IsInt64(x)
    ensures Int64(x) == x
  {
    hide Pow2;
    WrapOfWord(x, Pow2(63));
  }

  lemma WrapOfWord(x: int, half: int)
    requires half > 0 && -half <= x < half
    ensures Wrap(x, half) == x
  {
    if x < 0 { Quotient(x, 2 * half, -1, x + 2 * half); } else { Quotient(x, 2 * half, 0, x); }
  }

  lemma Int64Mod(n: int)
    ensures Int64(n) % Pow2(64) == n % Pow2(64)
  {
    hide Pow2;
    Doubles(63);
    WrapMod(n, Pow2(63));
  }

  lemma WrapMod(n: int, half: int)
    requires half > 0
    ensures Wrap(n, half) % (2 * half) == n % (2 * half)
  {
    var m := 2 * half;
    var u := n % m;
    if u >= half { Quotient(u - m, m, -1, u); } else { Quotient(u, m, 0, u); }
  }

  /** Setting the next lower bit of a word whose lower bits are clear adds that digit. */
  lemma OrAddsDigit(a: nat, i: nat)
    ensures Or64(Int64(a * Pow2(i + 1)), i) == Int64((2 * a + 1) * Pow2(i))
  {
    hide Pow2, Int64, Or64, Bit;
    Doubles(i);
    var p := Pow2(i);
    assert (2 * a + 1) * p == a * (2 * p) + p by { Spread(a, 1, p); }
    if i >= 64 {
      OrPast(a, i);
    } else if i == 63 {
      OrTop(a);
    } else {
      OrLow(a, i);
    }
  }

  lemma MultipleIsZero(k: int, m: int)
    requires m > 0
    ensures (k * m) % m == 0
  {
    Quotient(k * m, m, k, 0);
  }

  lemma OrPast(a: nat, i: nat)
    requires i >= 64
    ensures Or64(Int64(a * Pow2(i + 1)), i) == Int64(a * (2 * Pow2(i)) + Pow2(i))
  {
    hide Pow2;
    Doubles(63);
    var m, k := Pow2(64), Pow2(i - 64);
    PowAdd(i - 64, 64);
    PowAdd(i - 63, 64);
    assert a * Pow2(i + 1) == (a * Pow2(i - 63)) * m;
    MultipleIsZero(a * Pow2(i - 63), m);
    Doubles(i);
    assert a * (2 * Pow2(i)) + Pow2(i) == (2 * a * k + k) * m;
    MultipleIsZero(2 * a * k + k, m);
  }

  lemma OrTop(a: nat)
    ensures Or64(Int64(a * Pow2(64)), 63) == Int64(a * (2 * Pow2(63)) + Pow2(63))
  {
    hide Pow2;
    Doubles(63);
    MultipleIsZero(a, Pow2(64));
    Quotient(0, Pow2(63), 0, 0);
    Quotient(a * Pow2(64) + Pow2(63), Pow2(64), a, Pow2(63));
  }

  lemma OrLow(a: nat, i: nat)
    requires i < 63
    ensures Or64(Int64(a * Pow2(i + 1)), i) == Int64(a * (2 * Pow2(i)) + Pow2(i))
  {
    hide Pow2, Wrap;
    var p, h := Pow2(i), Pow2(62 - i);
    Doubles(i);
    PowAdd(62 - i, i + 1);
    LowWord(a, p, h);
  }

  /** A word that is a multiple of 2 * p: its digit p is clear, and adding p neither carries nor changes its
      sign. */
  lemma LowWord(a: nat, p: int, h: int)
    requires p >= 1 && h >= 1 && h * (2 * p) > 0
    ensures var x := Wrap(a * (2 * p), h * (2 * p));
            x / p % 2 == 0 && Wrap(a * (2 * p) + p, h * (2 * p)) == x + p
  {
    hide Wrap;
    ScaledWrap(a, 2 * p, h, 0);
    ScaledWrap(a, 2 * p, h, p);
    EvenDigit(Wrap(a, h), p);
  }

  lemma ScaledWrap(a: int, q: int, h: int, p: int)
    requires 0 <= p < q && h > 0 && h * q > 0
    ensures Wrap(a * q + p, h * q) == Wrap(a, h) * q + p
  {
    hide Wrap;
    DivMod(a, 2 * h);
    WrapAt(a, h, a / (2 * h), a % (2 * h));
    ScaledAt(a / (2 * h), a % (2 * h), h, q, p);
  }

  lemma ScaledAt(d: int, r: int, h: int, q: int, p: int)
    requires 0 <= p < q && 0 <= r < 2 * h && h * q > 0
    ensures Wrap((d * (2 * h) + r) * q + p, h * q) == (if r >= h then r - 2 * h else r) * q + p
  {
    hide Wrap;
    ScaledSplit(d, r, h, q);
    Room(r, 2 * h, q, p);
    assert 2 * h * q == 2 * (h * q);
    WrapAt((d * (2 * h) + r) * q + p, h * q, d, r * q + p);
    if r >= h { Times(r, h, q); } else { Room(r, h, q, p); }
    Distribute(r, -(2 * h), q);
  }

  lemma ScaledSplit(d: int, r: int, h: int, q: int)
    ensures (d * (2 * h) + r) * q == d * (2 * (h * q)) + r * q
  {
    Distribute(d * (2 * h), r, q);
    assert d * (2 * h) * q == d * (2 * (h * q));
  }

  lemma Room(r: int, h: int, q: int, p: int)
    requires 0 <= r < h && 0 <= p < q
    ensures 0 <= r * q + p < h * q
  {
    Times(h, r + 1, q);
    Times(r, 0, q);
    Distribute(r, 1, q);
  }

  lemma WrapAt(n: int, half: int, d: int, u: int)
    requires half > 0 && n == d * (2 * half) + u && 0 <= u < 2 * half
    ensures Wrap(n, half) == if u >= half then u - 2 * half else u
  {
    Quotient(n, 2 * half, d, u);
  }

  lemma EvenDigit(e: int, p: int)
    requires p > 0
    ensures e * (2 * p) / p % 2 == 0
  {
    assert e * (2 * p) == (2 * e) * p;
    Quotient(e * (2 * p), p, 2 * e, 0);
  }

  // ----- the low bits of a word

  /** Int64 depends on the low 64 bits only. */
  lemma Int64OfMod(n: int)
    ensures Int64(n % Pow2(64)) == Int64(n)
  {
    hide Pow2;
    Doubles(63);
    var m := Pow2(64);
    Quotient(n % m, m, 0, n % m);
  }

  lemma ModOfMod(x: int, a: nat, b: nat)
    ensures x % Pow2(a + b) % Pow2(a) == x % Pow2(a)
  {
    hide Pow2;
    PowAdd(a, b);
    ModFactor(x, Pow2(a), Pow2(b));
  }

  lemma ModFactor(x: int, p: int, k: int)
    requires p > 0 && k > 0 && p * k > 0
    ensures x % (p * k) % p == x % p
  {
    var d, y := x / (p * k), x % (p * k);
    var u, v := y / p, y % p;
    assert x == (d * k + u) * p + v by {
      assert x == d * (p * k) + y && y == u * p + v;
      assert d * (p * k) == (d * k) * p;
      Distribute(d * k, u, p);
    }
    Quotient(x, p, d * k + u, v);
  }

  /** The mask sees the bits of the unsigned word. */
  lemma MaskedIsBit(x: int, i: nat)
    ensures Masked(x, i) == Bit(x % Pow2(64), i)
  {
    hide Pow2;
    if i < 64 {
      Doubles(63 - i);
      PowAdd(i, 64 - i);
      LowDigit(x, Pow2(i), Pow2(63 - i));
    } else {
      PowAdd(64, i - 64);
      Times(Pow2(i - 64), 1, Pow2(64));
      Quotient(x % Pow2(64), Pow2(i), 0, x % Pow2(64));
    }
  }

  lemma LowDigit(x: int, p: int, h: int)
    requires p > 0 && h > 0 && p * (2 * h) > 0
    ensures x / p % 2 == x % (p * (2 * h)) / p % 2
  {
    var m := p * (2 * h);
    var d, y := x / m, x % m;
    var u, v := y / p, y % p;
    assert x == (2 * (d * h) + u) * p + v by {
      assert x == d * m + y && y == u * p + v;
      Regroup(d, p, h);
      Distribute(2 * (d * h), u, p);
    }
    Quotient(x, p, 2 * (d * h) + u, v);
    Parity(d * h, u);
  }

  lemma Regroup(d: int, p: int, h: int)
    ensures d * (p * (2 * h)) == (2 * (d * h)) * p
  {}

  lemma Distribute(a: int, b: int, p: int)
    ensures (a + b) * p == a * p + b * p
  {}

  lemma Parity(k: int, u: int)
    ensures (2 * k + u) % 2 == u % 2
  {}
}
