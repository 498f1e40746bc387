/**
 * Bit-level vocabulary shared by the router and the matching engine.
 *
 * Every `ap_uint<N>` of the firmware is a natural number below `Pow2(N)`;
 * `x >> k` is `x / Pow2(k)`, a truncating assignment to an `ap_uint<N>` is
 * `% Pow2(N)`, and single bits are read and written with `Bit` and `SetBit`,
 * which are defined by halving so that their lemmas stay linear.
 */
module Bits {

  /** 2 to the power n. */
  function Pow2(n: nat): (r: nat)
    ensures r >= 1
    ensures n >= 1 ==> r % 2 == 0
  {
    if n == 0 then 1 else 2 * Pow2(n - 1)
  }

  /** Bit i of x (bit 0 is the least significant one). */
  predicate Bit(x: nat, i: nat)
  {
    if i == 0 then x % 2 == 1 else Bit(x / 2, i - 1)
  }

  /** x with bit i forced to b, every other bit kept: `x.range(i, i) = b`. */
  function SetBit(x: nat, i: nat, b: bool): nat
  {
    if i == 0 then x - x % 2 + (if b then 1 else 0)
    else 2 * SetBit(x / 2, i - 1, b) + x % 2
  }

  /** Bitwise and of two naturals. */
  function And(x: nat, y: nat): nat
  {
    if x == 0 || y == 0 then 0
    else 2 * And(x / 2, y / 2) + (if x % 2 == 1 && y % 2 == 1 then 1 else 0)
  }

  /** Index of the lowest set bit of x in [from, limit), or limit when there is none. */
  function LowestSetBit(x: nat, from: nat, limit: nat): (r: nat)
    requires from <= limit
    ensures from <= r <= limit
    ensures r < limit ==> Bit(x, r)
    decreases limit - from
  {
    if from == limit then limit
    else if Bit(x, from) then from
    else LowestSetBit(x, from + 1, limit)
  }

  /** No bit from `from` up to the one LowestSetBit returns is set. */
  lemma {:induction false} LowestSetBitIsLowest(x: nat, from: nat, limit: nat)
    requires from <= limit
    ensures forall j :: from <= j < LowestSetBit(x, from, limit) ==> !Bit(x, j)
    decreases limit - from
  {
    if from < limit && !Bit(x, from) {
      LowestSetBitIsLowest(x, from + 1, limit);
    }
  }

  // ---------------------------------------------------------------------
  // Lemmas about single bits

  lemma {:induction false} SetBitBits(x: nat, i: nat, b: bool, j: nat)
    ensures Bit(SetBit(x, i, b), j) == if j == i then b else Bit(x, j)
  {
    if i == 0 {
      if j > 0 {
        assert SetBit(x, i, b) / 2 == x / 2;
      }
    } else if j == 0 {
    } else {
      assert SetBit(x, i, b) / 2 == SetBit(x / 2, i - 1, b);
      SetBitBits(x / 2, i - 1, b, j - 1);
    }
  }

  lemma {:induction false} SetBitBound(x: nat, i: nat, b: bool, w: nat)
    requires x < Pow2(w) && i < w
    ensures SetBit(x, i, b) < Pow2(w)
  {
    if i > 0 {
      SetBitBound(x / 2, i - 1, b, w - 1);
    }
  }

  lemma {:induction false} AndBits(x: nat, y: nat, j: nat)
    ensures Bit(And(x, y), j) == (Bit(x, j) && Bit(y, j))
  {
    if x == 0 || y == 0 {
      ZeroHasNoBits(j);
      if x == 0 { ZeroHasNoBits(j); } else { ZeroHasNoBits(j); }
    } else if j > 0 {
      assert And(x, y) / 2 == And(x / 2, y / 2);
      AndBits(x / 2, y / 2, j - 1);
    }
  }

  lemma {:induction false} AndBound(x: nat, y: nat)
    ensures And(x, y) <= x && And(x, y) <= y
  {
    if x != 0 && y != 0 {
      AndBound(x / 2, y / 2);
    }
  }

  lemma {:induction false} ZeroHasNoBits(j: nat)
    ensures !Bit(0, j)
  {
    if j > 0 {
      ZeroHasNoBits(j - 1);
    }
  }

  /** A natural with no set bit below w and bounded by Pow2(w) is zero. */
  lemma {:induction false} NoBitsIsZero(x: nat, w: nat)
    requires x < Pow2(w)
    requires forall j :: 0 <= j < w ==> !Bit(x, j)
    ensures x == 0
  {
    if w > 0 {
      forall j | 0 <= j < w - 1 ensures !Bit(x / 2, j) {
        assert !Bit(x, j + 1);
      }
      NoBitsIsZero(x / 2, w - 1);
      assert !Bit(x, 0);
    }
  }

  /** Bit j of x >> 4 is bit j + 4 of x. */
  lemma NibbleShift(x: nat, j: nat)
    ensures Bit(x / 16, j) == Bit(x, j + 4)
  {
    var x1, x2, x3 := x / 2, x / 4, x / 8;
    assert x2 == x1 / 2 && x3 == x2 / 2 && x / 16 == x3 / 2;
    assert Bit(x, j + 4) == Bit(x1, j + 3) == Bit(x2, j + 2) == Bit(x3, j + 1) == Bit(x / 16, j);
  }

  /** Keeping the low w bits of y (`% Pow2(w)`) keeps its bits 0 .. w - 1. */
  lemma {:induction false} TruncatedBit(y: nat, w: nat, j: nat)
    requires j < w
    ensures Bit(y % Pow2(w), j) == Bit(y, j)
  {
    var p := Pow2(w - 1);
    DivModDiv(y, 2, p);
    var z := y % Pow2(w);
    assert z == ((y / 2) % p) * 2 + y % 2;
    DivUnique(z, 2, (y / 2) % p, y % 2);
    if j > 0 {
      TruncatedBit(y / 2, w - 1, j - 1);
    }
  }

  // ---------------------------------------------------------------------
  // Division by powers of two (right shifts)

  /** Euclidean division is determined by quotient and remainder. */
  lemma DivUnique(a: int, d: int, q: int, m: int)
    requires d > 0 && 0 <= m < d && a == d * q + m
    ensures a / d == q && a % d == m
  {
    var q', m' := a / d, a % d;
    assert a == d * q' + m';
    assert d * (q - q') == m' - m;
    if q > q' {
      MulAtLeast(d, q - q');
      assert false;
    } else if q < q' {
      MulAtLeast(d, q' - q);
      assert false;
    }
  }

  /** Shifting by b then by c is shifting by b + c. */
  lemma DivDiv(a: nat, b: nat, c: nat)
    requires b > 0 && c > 0
    ensures a / (b * c) == (a / b) / c
  {
    DivModDiv(a, b, c);
  }

  /** A positive multiple of d is at least d; kept apart so the solver sees it without the caller's context. */
  lemma MulAtLeast(d: int, k: int)
    requires d > 0 && k >= 1
    ensures d * k >= d
  {
  }

  /** Multiplication is associative; kept apart so the solver sees it without the caller's context. */
  lemma MulAssoc(x: int, y: int, z: int)
    ensures x * (y * z) == (x * y) * z
  {
  }

  lemma {:induction false} Pow2Add(a: nat, b: nat)
    ensures Pow2(a + b) == Pow2(a) * Pow2(b)
  {
    if a > 0 {
      Pow2Add(a - 1, b);
      var x, y := Pow2(a - 1), Pow2(b);
      assert Pow2(a + b) == 2 * (x * y);
      MulAssoc(2, x, y);
    }
  }

  lemma {:induction false} Pow2Monotone(a: nat, b: nat)
    requires a <= b
    ensures Pow2(a) <= Pow2(b)
  {
    if a < b {
      Pow2Monotone(a, b - 1);
    }
  }

  /** (x >> a) >> b == x >> (a + b). */
  lemma ShiftShift(x: nat, a: nat, b: nat)
    ensures x / Pow2(a) / Pow2(b) == x / Pow2(a + b)
  {
    Pow2Add(a, b);
    DivDiv(x, Pow2(a), Pow2(b));
  }

  /** An n-bit value shifted right by s (s <= n) has n - s bits left. */
  lemma ShiftBound(x: nat, n: nat, s: nat)
    requires x < Pow2(n) && s <= n
    ensures x / Pow2(s) < Pow2(n - s)
  {
    Pow2Add(s, n - s);
    DivBelow(x, Pow2(s), Pow2(n - s));
  }

  /** A value below p * q, shifted by p, is below q. */
  lemma DivBelow(x: nat, p: nat, q: nat)
    requires p > 0 && x < p * q
    ensures x / p < q
  {
  }

  /** Quotient and remainder put back together give the dividend; a standalone fact callers use as a hint inside large proofs. */
  lemma DivMod(x: nat, p: nat)
    requires p > 0
    ensures x == (x / p) * p + x % p
  {
  }

  /** x lies between the neighbouring multiples of p around it. */
  lemma DivBracket(x: nat, p: nat)
    requires p > 0
    ensures (x / p) * p <= x < (x / p + 1) * p
  {
    assert x == p * (x / p) + x % p;
  }

  /** A natural divided by a positive number is a natural; a standalone fact callers use as a hint inside large proofs. */
  lemma DivNonNeg(x: nat, p: nat)
    requires p > 0
    ensures x / p >= 0
  {
  }

  /** A value below m is its own remainder; a standalone fact callers use as a hint inside large proofs. */
  lemma ModSmall(q: nat, m: nat)
    requires q < m
    ensures q % m == q
  {
  }

  /** Stepping a counter held modulo p: the successor of the residue has the residue of the successor. */
  lemma ModSucc(x: nat, p: nat)
    requires p > 0
    ensures (x % p + 1) % p == (x + 1) % p
  {
    var q, r := x / p, x % p;
    if r + 1 < p {
      DivUnique(x + 1, p, q, r + 1);
      ModSmall(r + 1, p);
    } else {
      assert p * (q + 1) == p * q + p;
      DivUnique(x + 1, p, q + 1, 0);
      DivUnique(r + 1, p, 1, 0);
    }
  }

  /** Division by p * c splits into division by p then by c, and so does the remainder. */
  lemma DivModDiv(x: nat, p: nat, c: nat)
    requires p > 0 && c > 0
    ensures x / (p * c) == (x / p) / c
    ensures x % (p * c) == ((x / p) % c) * p + x % p
  {
    var q, r := x / p, x % p;
    DivNonNeg(x, p);
    var q2, r2 := q / c, q % c;
    DivNonNeg(q, c);
    assert x == p * q + r;
    assert q == c * q2 + r2;
    assert p * (c * q2 + r2) == (p * c) * q2 + p * r2;
    assert x == (p * c) * q2 + (p * r2 + r);
    assert p * r2 <= p * (c - 1) == p * c - p;
    DivUnique(x, p * c, q2, p * r2 + r);
    assert r2 * p == p * r2;
  }

  /** Adding a whole number of wraps K * p before the k-bit truncation changes nothing. */
  lemma ShiftWrap(s: nat, p: nat, K: nat)
    requires p > 0 && K > 0 && s < K * p
    ensures s / p < K
    ensures ((s + K * p) / p) % K == s / p
    ensures (s / p) % K == s / p
  {
    DivBelow(s, p, K);
    assert s + K * p == p * (s / p + K) + s % p;
    DivUnique(s + K * p, p, s / p + K, s % p);
    DivUnique(s / p + K, K, 1, s / p);
    ModSmall(s / p, K);
  }

    /** Row m, column k of a table with `cols` columns lies inside its first `rows` rows. */
  lemma MulAddBound(m: nat, k: nat, rows: nat, cols: nat)
    requires m < rows && k < cols
    ensures 0 <= m * cols && m * cols + k < rows * cols
  {
    assert cols * (m + 1) <= cols * rows;
    assert (m + 1) * cols == m * cols + cols;
  }

  /** The block of `cols` entries of row m lies inside the first `rows` rows. */
  lemma MulRowEnd(m: nat, rows: nat, cols: nat)
    requires m < rows
    ensures 0 <= m * cols && m * cols + cols <= rows * cols
  {
    assert cols * (m + 1) <= cols * rows;
    assert (m + 1) * cols == m * cols + cols;
  }
}
