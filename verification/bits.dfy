/** Unbounded-integer model of the fixed-width bit operations the MelPoW
    node code performs on `u64` words: powers of two, single bits, masks,
    bitwise or and bit reversal. Every fact used elsewhere is derived here
    from two arithmetic lemmas about Euclidean division. */
module Bits {

  /** 2^k. */
  function Pow2(k: nat): (r: nat)
    ensures r >= 1
  {
    if k == 0 then 1 else 2 * Pow2(k - 1)
  }

  const U64_LIMIT: nat := 0x1_0000_0000_0000_0000

  lemma Pow2Add(a: nat, b: nat)
    ensures Pow2(a + b) == Pow2(a) * Pow2(b)
  {
    if a > 0 {
      Pow2Add(a - 1, b);
      assert Pow2(a + b) == 2 * Pow2(a - 1 + b);
    }
  }

  lemma {:induction false} Pow2Mono(a: nat, b: nat)
    requires a <= b
    ensures Pow2(a) <= Pow2(b)
    ensures a < b ==> 2 * Pow2(a) <= Pow2(b)
  {
    if a < b {
      Pow2Mono(a, b - 1);
    }
  }

  lemma Pow2Of56And64()
    ensures Pow2(8) == 256
    ensures Pow2(56) == 0x100_0000_0000_0000
    ensures Pow2(64) == U64_LIMIT
  {
    Pow2Of8();
    Pow2Of32();
    Pow2Of56();
    Pow2Of64();
  }

  lemma Pow2Of8()
    ensures Pow2(8) == 256
  {
    assert Pow2(1) == 2;
    assert Pow2(2) == 4;
    assert Pow2(3) == 8;
    assert Pow2(4) == 16;
    assert Pow2(5) == 32;
    assert Pow2(6) == 64;
    assert Pow2(7) == 128;
  }

  lemma Pow2Of16()
    ensures Pow2(16) == 0x1_0000
  {
    Pow2Of8();
    Pow2Add(8, 8);
  }

  lemma Pow2Of32()
    ensures Pow2(32) == 0x1_0000_0000
  {
    Pow2Of16();
    Pow2Add(16, 16);
  }

  lemma Pow2Of56()
    ensures Pow2(56) == 0x100_0000_0000_0000
  {
    Pow2Of8();
    Pow2Of16();
    Pow2Of32();
    Pow2Add(32, 16);
    assert Pow2(48) == 0x1_0000_0000_0000;
    Pow2Add(48, 8);
  }

  lemma Pow2Of64()
    ensures Pow2(64) == U64_LIMIT
  {
    Pow2Of32();
    Pow2Add(32, 32);
  }

  /** A number is smaller than the power of two it indexes. */
  lemma {:induction false} LtPow2(a: nat)
    ensures a < Pow2(a)
  {
    if a > 0 {
      LtPow2(a - 1);
    }
  }

  lemma MulLe(a: int, b: int, d: int)
    requires a <= b && d >= 0
    ensures a * d <= b * d
  {
    assert (b - a) * d >= 0;
  }

  /** Euclidean division is determined by quotient and remainder. */
  lemma DivModUnique(x: int, d: int, q: int, r: int)
    requires d > 0 && 0 <= r < d && x == q * d + r
    ensures x / d == q && x % d == r
  {
    var q', r' := x / d, x % d;
    assert x == q' * d + r';
    if q' < q {
      MulLe(q' + 1, q, d);
      assert false;
    } else if q' > q {
      MulLe(q + 1, q', d);
      assert false;
    }
  }

  /** Dividing by a product is dividing twice. */
  lemma DivDiv(x: nat, a: nat, b: nat)
    requires a > 0 && b > 0
    ensures x / (a * b) == (x / a) / b
    ensures x % (a * b) == a * ((x / a) % b) + x % a
  {
    var q, r2, r1 := (x / a) / b, (x / a) % b, x % a;
    assert x / a == b * q + r2;
    assert x == a * (b * q + r2) + r1;
    assert x == (a * b) * q + (a * r2 + r1);
    MulLe(r2, b - 1, a);
    DivModUnique(x, a * b, q, a * r2 + r1);
  }

  /** Bit i of x, as `(x >> i) & 1`. */
  function Bit(x: nat, i: nat): nat
  {
    (x / Pow2(i)) % 2
  }

  lemma BitSucc(x: nat, i: nat)
    ensures Bit(x, i + 1) == Bit(x / 2, i)
  {
    DivDiv(x, 2, Pow2(i));
  }

  lemma BitIsBinary(x: nat, i: nat)
    ensures Bit(x, i) == 0 || Bit(x, i) == 1
  {
  }

  /** A number below 2^n has no bit at position n or above. */
  lemma BitAbove(x: nat, n: nat, i: nat)
    requires x < Pow2(n) && n <= i
    ensures Bit(x, i) == 0
  {
    Pow2Mono(n, i);
    DivModUnique(x, Pow2(i), 0, x);
  }

  /** Bits of a * 2^k + x with x < 2^k: the low k bits are those of x,
      the others those of a. */
  lemma BitOfSum(x: nat, a: nat, k: nat, i: nat)
    requires x < Pow2(k)
    ensures Bit(a * Pow2(k) + x, i) == if i < k then Bit(x, i) else Bit(a, i - k)
  {
    if i < k {
      BitOfSumLow(a * Pow2(k) + x, x, a, k, i);
    } else {
      BitOfSumHigh(a * Pow2(k) + x, x, a, k, i);
    }
  }

  lemma BitOfSumLow(y: nat, x: nat, a: nat, k: nat, i: nat)
    requires y == a * Pow2(k) + x && i < k
    ensures Bit(y, i) == Bit(x, i)
  {
    var c := a * Pow2(k - i - 1);
    EvenMultiple(a, k, i);
    BitShiftInvariant(y, x, c, i);
  }

  /** Adding an even multiple of 2^i leaves bit i alone. */
  lemma BitShiftInvariant(y: nat, x: nat, c: nat, i: nat)
    requires y == Pow2(i) * (2 * c) + x
    ensures Bit(y, i) == Bit(x, i)
  {
    var pi := Pow2(i);
    var q, t := x / pi, y / pi;
    QuotientShift(x, pi, 2 * c);
    assert t == 2 * c + q;
    ParityOf(t, c, q);
    assert Bit(y, i) == t % 2;
  }

  lemma ParityOf(t: int, c: int, q: int)
    requires t == 2 * c + q
    ensures t % 2 == q % 2
  {
  }

  lemma EvenMultiple(a: nat, k: nat, i: nat)
    requires i < k
    ensures a * Pow2(k) == Pow2(i) * (2 * (a * Pow2(k - i - 1)))
  {
    Pow2Add(i, k - i);
    assert Pow2(k - i) == 2 * Pow2(k - i - 1);
    var p, q := Pow2(i), Pow2(k - i - 1);
    assert Pow2(k) == p * (2 * q);
    Rearrange(a, p, q);
  }

  lemma Rearrange(a: int, p: int, q: int)
    ensures a * (p * (2 * q)) == p * (2 * (a * q))
  {
  }

  /** Adding a multiple of d shifts the quotient. */
  lemma QuotientShift(x: nat, d: nat, c: nat)
    requires d > 0
    ensures (d * c + x) / d == c + x / d
  {
    var t, r := x / d, x % d;
    assert x == t * d + r;
    assert d * c + x == (c + t) * d + r;
    DivModUnique(d * c + x, d, c + t, r);
  }

  lemma BitOfSumHigh(y: nat, x: nat, a: nat, k: nat, i: nat)
    requires y == a * Pow2(k) + x && x < Pow2(k) && k <= i
    ensures Bit(y, i) == Bit(a, i - k)
  {
    Pow2Add(k, i - k);
    DivModUnique(y, Pow2(k), a, x);
    DivDiv(y, Pow2(k), Pow2(i - k));
  }

  /** Masking with 2^n - 1 keeps the low n bits and clears the rest. */
  lemma BitOfMod(x: nat, n: nat, i: nat)
    ensures Bit(x % Pow2(n), i) == if i < n then Bit(x, i) else 0
  {
    if i < n {
      BitOfModLow(x, n, i);
    } else {
      BitAbove(x % Pow2(n), n, i);
    }
  }

  lemma BitOfModLow(x: nat, n: nat, i: nat)
    requires i < n
    ensures Bit(x % Pow2(n), i) == Bit(x, i)
  {
    var p := Pow2(n);
    DivModDecompose(x, p);
    BitOfSum(x % p, x / p, n, i);
  }

  lemma DivModDecompose(x: nat, d: nat)
    requires d > 0
    ensures x == (x / d) * d + x % d
    ensures x % d < d
    ensures x / d >= 0
  {
  }

  lemma BitCongruent(x: nat, y: nat, i: nat)
    requires x == y
    ensures Bit(x, i) == Bit(y, i)
  {
  }

  /** Two numbers below 2^n with the same low n bits are equal. */
  lemma {:induction false} BitsDetermine(x: nat, y: nat, n: nat)
    requires x < Pow2(n) && y < Pow2(n)
    requires forall i :: 0 <= i < n ==> Bit(x, i) == Bit(y, i)
    ensures x == y
  {
    if n > 0 {
      forall i | 0 <= i < n - 1
        ensures Bit(x / 2, i) == Bit(y / 2, i)
      {
        BitSucc(x, i);
        BitSucc(y, i);
      }
      BitsDetermine(x / 2, y / 2, n - 1);
      assert Bit(x, 0) == Bit(y, 0);
    }
  }

  /** Bitwise or of two naturals. */
  function Or(x: nat, y: nat): nat
    decreases x + y
  {
    if x == 0 && y == 0 then 0
    else 2 * Or(x / 2, y / 2) + (if x % 2 == 1 || y % 2 == 1 then 1 else 0)
  }

  lemma {:induction false} BitOfOr(x: nat, y: nat, i: nat)
    ensures Bit(Or(x, y), i) == if Bit(x, i) == 1 || Bit(y, i) == 1 then 1 else 0
    decreases i
  {
    if x == 0 && y == 0 {
    } else {
      var c := if x % 2 == 1 || y % 2 == 1 then 1 else 0;
      var o, o' := Or(x, y), Or(x / 2, y / 2);
      assert o == 2 * o' + c;
      HalfOf(o', c);
      if i == 0 {
        assert Bit(o, 0) == o % 2 && Bit(x, 0) == x % 2 && Bit(y, 0) == y % 2;
      } else {
        BitSucc(o, i - 1);
        BitSucc(x, i - 1);
        BitSucc(y, i - 1);
        BitOfOr(x / 2, y / 2, i - 1);
      }
    }
  }

  lemma HalfOf(q: nat, c: nat)
    requires c <= 1
    ensures (2 * q + c) / 2 == q && (2 * q + c) % 2 == c
  {
  }

  lemma {:induction false} OrBound(x: nat, y: nat, n: nat)
    requires x < Pow2(n) && y < Pow2(n)
    ensures Or(x, y) < Pow2(n)
    decreases n
  {
    if n > 0 && !(x == 0 && y == 0) {
      OrBound(x / 2, y / 2, n - 1);
    }
  }

  lemma {:induction false} OrZero(x: nat)
    ensures Or(0, x) == x
  {
    if x > 0 {
      OrZero(x / 2);
    }
  }

  /** Or of two numbers with disjoint bits is their sum. */
  lemma OrDisjoint(x: nat, a: nat, k: nat)
    requires x < Pow2(k)
    ensures Or(a * Pow2(k), x) == a * Pow2(k) + x
  {
    var hi := a * Pow2(k);
    var n := a + k;
    SumBound(x, a, k);
    Pow2Mono(k, n);
    OrBound(hi, x, n);
    forall i | 0 <= i < n
      ensures Bit(Or(hi, x), i) == Bit(hi + x, i)
    {
      OrDisjointBit(x, a, k, i);
    }
    BitsDetermine(Or(hi, x), hi + x, n);
  }

  lemma SumBound(x: nat, a: nat, k: nat)
    requires x < Pow2(k)
    ensures a * Pow2(k) < Pow2(a + k)
    ensures a * Pow2(k) + x < Pow2(a + k)
  {
    LtPow2(a);
    Pow2Add(a, k);
    ProductBound(a, Pow2(a), x, Pow2(k));
  }

  lemma ProductBound(a: nat, pa: nat, x: nat, p: nat)
    requires a < pa && x < p
    ensures a * p + x < pa * p
  {
    MulLe(a + 1, pa, p);
    assert (a + 1) * p == a * p + p;
  }

  lemma OrDisjointBit(x: nat, a: nat, k: nat, i: nat)
    requires x < Pow2(k)
    ensures Bit(Or(a * Pow2(k), x), i) == Bit(a * Pow2(k) + x, i)
  {
    BitOfOr(a * Pow2(k), x, i);
    BitOfSum(0, a, k, i);
    BitOfSum(x, a, k, i);
    if i >= k {
      BitAbove(x, k, i);
    } else {
      BitAbove(0, 0, i);
    }
  }

  /** The low w bits of x in reverse order: bit j of x becomes bit w-1-j.
      For w = 64 this is `u64::reverse_bits`. */
  function Rev(x: nat, w: nat): nat
  {
    if w == 0 then 0 else 2 * Rev(x, w - 1) + Bit(x, w - 1)
  }

  lemma {:induction false} RevBound(x: nat, w: nat)
    ensures Rev(x, w) < Pow2(w)
  {
    if w > 0 {
      RevBound(x, w - 1);
    }
  }

  lemma {:induction false} BitOfRev(x: nat, w: nat, j: nat)
    requires j < w
    ensures Bit(Rev(x, w), j) == Bit(x, w - 1 - j)
  {
    var r := Rev(x, w - 1);
    assert Rev(x, w) == 2 * r + Bit(x, w - 1);
    if j > 0 {
      BitSucc(Rev(x, w), j - 1);
      assert Rev(x, w) / 2 == r;
      BitOfRev(x, w - 1, j - 1);
    }
  }

  /** Rev only looks at the low w bits. */
  lemma {:induction false} RevAgree(x: nat, y: nat, w: nat)
    requires forall j :: 0 <= j < w ==> Bit(x, j) == Bit(y, j)
    ensures Rev(x, w) == Rev(y, w)
  {
    if w > 0 {
      RevAgree(x, y, w - 1);
    }
  }

  /** When the low s bits of x are clear, reversing w >= s bits leaves
      nothing at position w - s or above. */
  lemma {:induction false} RevLowClear(x: nat, s: nat, w: nat)
    requires s <= w
    requires forall j :: 0 <= j < s ==> Bit(x, j) == 0
    ensures Rev(x, w) < Pow2(w - s)
  {
    if w == s {
      RevAgree(x, 0, w);
      RevZero(w);
    } else {
      RevLowClear(x, s, w - 1);
      assert Pow2(w - s) == 2 * Pow2(w - 1 - s);
    }
  }

  lemma {:induction false} RevZero(w: nat)
    ensures Rev(0, w) == 0
  {
    if w > 0 {
      RevZero(w - 1);
    }
  }

  /** The first m reversed bits form the top of the first n reversed bits. */
  lemma {:induction false} RevPrefix(x: nat, m: nat, n: nat)
    requires m <= n
    ensures Rev(x, n) >= Rev(x, m) * Pow2(n - m)
  {
    if m < n {
      var r, p := Rev(x, m), Pow2(n - 1 - m);
      RevPrefix(x, m, n - 1);
      assert Pow2(n - m) == 2 * p;
      assert Rev(x, n) >= 2 * Rev(x, n - 1);
      Double(r, p);
    }
  }

  lemma Double(r: nat, p: nat)
    ensures r * (2 * p) == 2 * (r * p)
  {
  }
}
