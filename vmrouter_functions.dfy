/**
 * The helper functions of the virtual-memory router: coarse and fine phi
 * bins, the neighbouring coarse bins used for duplication, the barrel phi
 * correction, and the search for the first enabled memory of a mask.
 */
module VMRouterFunctions {
  import opened Bits

  /** Two's-complement value of an n-bit pattern. */
  function Signed(raw: nat, n: nat): (v: int)
    requires n >= 1 && raw < Pow2(n)
    ensures 0 <= v + Pow2(n - 1) < Pow2(n)
    ensures v == raw || v == raw - Pow2(n)
  {
    if raw < Pow2(n - 1) then raw else raw - Pow2(n)
  }

  /** The top k bits of an n-bit value x lie between x's neighbouring multiples of Pow2(n - k). */
  lemma TopBits(x: nat, n: nat, k: nat)
    requires k <= n && x < Pow2(n)
    ensures x / Pow2(n - k) < Pow2(k)
    ensures (x / Pow2(n - k)) * Pow2(n - k) <= x < (x / Pow2(n - k) + 1) * Pow2(n - k)
  {
    ShiftBound(x, n, n - k);
    assert n - (n - k) == k;
    DivBracket(x, Pow2(n - k));
  }

  /** The coarse phi bin: the top 5 bits of phi. */
  function IPhiVmRaw(phi: nat, len: nat): (r: nat)
    requires len >= 5 && phi < Pow2(len)
    ensures r < 32 && r == phi / Pow2(len - 5)
    ensures r * Pow2(len - 5) <= phi < (r + 1) * Pow2(len - 5)
  {
    assert Pow2(5) == 32;
    TopOf(phi, len, 5)
  }

  /**
   * The finebits bits of phi that follow its top vmbits bits: together the two
   * fields make up the top vmbits + finebits bits of phi.
   */
  function IPhiVmFineBins(phi: nat, len: nat, vmbits: nat, finebits: nat): (r: nat)
    requires vmbits + finebits <= len && finebits >= 1
    ensures r < Pow2(finebits)
    ensures phi / Pow2(len - vmbits - finebits) == (phi / Pow2(len - vmbits)) * Pow2(finebits) + r
  {
    var y := phi / Pow2(len - vmbits - finebits);
    FineSplit(phi, len, vmbits, finebits);
    y % Pow2(finebits)
  }

  lemma FineSplit(phi: nat, len: nat, vmbits: nat, finebits: nat)
    requires vmbits + finebits <= len
    ensures var y := phi / Pow2(len - vmbits - finebits);
      y == (phi / Pow2(len - vmbits)) * Pow2(finebits) + y % Pow2(finebits)
  {
    DivNonNeg(phi, Pow2(len - vmbits - finebits));
    var y := phi / Pow2(len - vmbits - finebits);
    var p := Pow2(finebits);
    assert y / p == phi / Pow2(len - vmbits) by {
      ShiftShift(phi, len - vmbits - finebits, finebits);
      assert len - vmbits - finebits + finebits == len - vmbits;
    }
    DivMod(y, p);
  }

  /**
   * The top seven bits t of phi: their top five are the coarse bin, their low
   * two say in which quarter of the coarse bin phi lies.
   */
  lemma TopSeven(phi: nat, len: nat)
    requires len >= 7 && phi < Pow2(len)
    ensures phi / Pow2(len - 7) < 128
    ensures (phi / Pow2(len - 7)) / 4 == phi / Pow2(len - 5)
    ensures phi % Pow2(len - 5) >= 3 * Pow2(len - 7) <==> (phi / Pow2(len - 7)) % 4 == 3
    ensures phi % Pow2(len - 5) < Pow2(len - 7) <==> (phi / Pow2(len - 7)) % 4 == 0
  {
    TopBits(phi, len, 7);
    assert Pow2(7) == 128;
    var p7 := Pow2(len - 7);
    Pow2Add(len - 7, 2);
    assert len - 7 + 2 == len - 5;
    assert Pow2(2) == 4;
    assert Pow2(len - 5) == p7 * 4;
    DivModDiv(phi, p7, 4);
    QuarterOf((phi / p7) % 4, phi % p7, p7);
  }

  lemma QuarterOf(u: nat, m: nat, p: nat)
    requires u < 4 && m < p
    ensures u * p + m >= 3 * p <==> u == 3
    ensures u * p + m < p <==> u == 0
  {
    if u == 0 {
    } else if u == 1 {
    } else if u == 2 {
    } else {
    }
  }

  lemma PlusStep(t: nat)
    requires t < 128
    ensures ((t % 128 + 1) % 128) / 4 == (t / 4 + (if t % 4 == 3 then 1 else 0)) % 32
  {
  }

  lemma MinusStep(t: nat)
    requires t < 128
    ensures ((t % 128 + 127) % 128) / 4 == (t / 4 + (if t % 4 == 0 then 31 else 0)) % 32
  {
  }

  /** phi lies in the top quarter of its coarse bin. */
  predicate TopQuarter(phi: nat, len: nat)
    requires len >= 7
  {
    phi % Pow2(len - 5) >= 3 * Pow2(len - 7)
  }

  /** phi lies in the bottom quarter of its coarse bin. */
  predicate BottomQuarter(phi: nat, len: nat)
    requires len >= 7
  {
    phi % Pow2(len - 5) < Pow2(len - 7)
  }

  /**
   * The coarse bin after a quarter-bin step up: the coarse bin itself, or the
   * next one (wrapping 31 to 0) exactly when phi lies in the top quarter of its bin.
   */
  function IPhiVmRawPlus(phi: nat, len: nat): (r: nat)
    requires len >= 7 && phi < Pow2(len)
    ensures r < 32
    ensures r == (IPhiVmRaw(phi, len) + (if TopQuarter(phi, len) then 1 else 0)) % 32
  {
    DivNonNeg(phi, Pow2(len - 7));
    var t := phi / Pow2(len - 7);
    TopSeven(phi, len);
    PlusStep(t);
    var tmp := t % 128;
    ((tmp + 1) % 128) / 4
  }

  /**
   * The coarse bin after a quarter-bin step down: the coarse bin itself, or the
   * previous one (wrapping 0 to 31) exactly when phi lies in the bottom quarter of its bin.
   */
  function IPhiVmRawMinus(phi: nat, len: nat): (r: nat)
    requires len >= 7 && phi < Pow2(len)
    ensures r < 32
    ensures r == (IPhiVmRaw(phi, len) + (if BottomQuarter(phi, len) then 31 else 0)) % 32
  {
    DivNonNeg(phi, Pow2(len - 7));
    var t := phi / Pow2(len - 7);
    TopSeven(phi, len);
    MinusStep(t);
    var tmp := t % 128;
    ((tmp + 127) % 128) / 4
  }

  /** A stub is never in both the top and the bottom quarter of its coarse bin. */
  lemma PlusMinusExclusive(phi: nat, len: nat)
    requires len >= 7 && phi < Pow2(len)
    ensures !(TopQuarter(phi, len) && BottomQuarter(phi, len))
    ensures IPhiVmRawPlus(phi, len) == IPhiVmRaw(phi, len) || IPhiVmRawMinus(phi, len) == IPhiVmRaw(phi, len)
  {
    var r := IPhiVmRaw(phi, len);
    ModSmall(r, 32);
    if TopQuarter(phi, len) {
      assert !BottomQuarter(phi, len);
      assert IPhiVmRawMinus(phi, len) == r;
    } else {
      assert IPhiVmRawPlus(phi, len) == r;
    }
  }

  /**
   * The k-bit bin of an n-bit two's-complement value made unsigned by adding
   * half the range: `ap_uint<k>((raw + (1 << (n - 1))) >> (n - k))`.
   */
  function OffsetBin(raw: nat, n: nat, k: nat): (b: nat)
    requires 1 <= k <= n && raw < Pow2(n)
    ensures b < Pow2(k)
    ensures b * Pow2(n - k) <= Signed(raw, n) + Pow2(n - 1) < (b + 1) * Pow2(n - k)
  {
    OffsetBinShift(raw, n, k);
    ((raw + Pow2(n - 1)) / Pow2(n - k)) % Pow2(k)
  }

  /** Adding half the range to the raw pattern or to its signed value gives the same k bits. */
  lemma OffsetBinShift(raw: nat, n: nat, k: nat)
    requires 1 <= k <= n && raw < Pow2(n)
    ensures var s := Signed(raw, n) + Pow2(n - 1);
      && ((raw + Pow2(n - 1)) / Pow2(n - k)) % Pow2(k) == s / Pow2(n - k)
      && s / Pow2(n - k) < Pow2(k)
      && (s / Pow2(n - k)) * Pow2(n - k) <= s < (s / Pow2(n - k) + 1) * Pow2(n - k)
  {
    var h, p, K := Pow2(n - 1), Pow2(n - k), Pow2(k);
    var s: nat := Signed(raw, n) + h;
    assert Pow2(n) == 2 * h;
    Pow2Add(k, n - k);
    assert k + (n - k) == n;
    assert Pow2(n) == K * p;
    ShiftWrap(s, p, K);
    DivBracket(s, p);
    if raw >= h {
      assert raw + h == s + K * p;
    } else {
      assert raw + h == s;
    }
  }

  /** The top k bits of an n-bit unsigned pattern: `ap_uint<k>(raw >> (n - k))`. */
  function TopOf(raw: nat, n: nat, k: nat): (b: nat)
    requires k <= n && raw < Pow2(n)
    ensures b < Pow2(k) && b == raw / Pow2(n - k)
    ensures b * Pow2(n - k) <= raw < (b + 1) * Pow2(n - k)
  {
    DivNonNeg(raw, Pow2(n - k));
    TopBits(raw, n, k);
    ModSmall(raw / Pow2(n - k), Pow2(k));
    (raw / Pow2(n - k)) % Pow2(k)
  }

  /** The k-bit bin of a signed n-bit z made unsigned by adding half the range. */
  function ZBin(z: int, n: nat, k: nat): (b: nat)
    requires 1 <= k <= n && 0 <= z + Pow2(n - 1) < Pow2(n)
    ensures b < Pow2(k)
    ensures b * Pow2(n - k) <= z + Pow2(n - 1) < (b + 1) * Pow2(n - k)
  {
    ZBinBracket(z, n, k);
    (z + Pow2(n - 1)) / Pow2(n - k)
  }

  lemma ZBinBracket(z: int, n: nat, k: nat)
    requires 1 <= k <= n && 0 <= z + Pow2(n - 1) < Pow2(n)
    ensures 0 <= (z + Pow2(n - 1)) / Pow2(n - k) < Pow2(k)
    ensures ((z + Pow2(n - 1)) / Pow2(n - k)) * Pow2(n - k) <= z + Pow2(n - 1)
    ensures z + Pow2(n - 1) < ((z + Pow2(n - 1)) / Pow2(n - k) + 1) * Pow2(n - k)
  {
    var x: nat := z + Pow2(n - 1);
    DivNonNeg(x, Pow2(n - k));
    TopBits(x, n, k);
  }

  /** Distance between two integers. */
  function Dist(a: int, b: int): nat
  {
    if a <= b then b - a else a - b
  }

  /**
   * Barrel phi correction: phi minus the table entry for the stub's bend and
   * radial bin, brought back to the nearest value phi's width can hold.
   * Disk stubs keep their phi.
   */
  function PhiCorr(isDisk: bool, phi: nat, phiLen: nat, r: nat, rLen: nat, bend: nat, table: seq<int>): (res: nat)
    requires phi < Pow2(phiLen) && 3 <= rLen && r < Pow2(rLen)
    requires !isDisk ==> bend * 8 + 8 <= |table|
    ensures res < Pow2(phiLen)
    ensures isDisk ==> res == phi
    ensures !isDisk ==>
      var v := phi - table[bend * 8 + OffsetBin(r, rLen, 3)];
      && (0 <= v < Pow2(phiLen) ==> res == v)
      && forall y: nat {:trigger Dist(y, v)} :: y < Pow2(phiLen) ==> Dist(res, v) <= Dist(y, v)
  {
    if isDisk then phi
    else
      assert Pow2(3) == 8;
      var rbin := OffsetBin(r, rLen, 3);
      var phicorr := phi - table[bend * 8 + rbin];
      if phicorr < 0 then 0
      else if phicorr >= Pow2(phiLen) then Pow2(phiLen) - 1
      else phicorr
  }

  /** Position of the first set bit among bits 0..30 of a mask, or 31 when there is none. */
  function FirstMemNumber(mask: nat): (i: nat)
    ensures i <= 31
    ensures i < 31 ==> Bit(mask, i)
  {
    LowestSetBit(mask, 0, 31)
  }

  /** No memory below the first one is enabled. */
  lemma FirstMemNumberLowest(mask: nat)
    ensures forall j :: 0 <= j < FirstMemNumber(mask) ==> !Bit(mask, j)
  {
    LowestSetBitIsLowest(mask, 0, 31);
  }

  /** The first enabled memory of a mask, found by scanning its bits upwards. */
  method GetFirstMemNumber(mask: nat) returns (i: nat)
    ensures i == FirstMemNumber(mask)
    ensures i < 31 ==> Bit(mask, i)
    ensures forall j :: 0 <= j < i ==> !Bit(mask, j)
  {
    i := 0;
    var x := Bit(mask, i);
    while !x && i < 31
      invariant i <= 31
      invariant x == Bit(mask, i)
      invariant LowestSetBit(mask, i, 31) == LowestSetBit(mask, 0, 31)
    {
      i := i + 1;
      x := Bit(mask, i);
    }
    LowestSetBitIsLowest(mask, i, 31);
    FirstMemNumberLowest(mask);
  }
}
