/**
 * What the router does with one stub: the corrected phi, the virtual module
 * it belongs to, and for each output family (ME, TE-inner, overlap,
 * TE-outer) the record it builds and the memories it writes it to.
 */
module StubRoute {
  import opened Bits
  import opened Stubs
  import opened VMRouterFunctions
  import opened RouterConfig

  /** Inputs 3 to 5 of a disk router carry the negative-z disk. */
  predicate NegDisk(c: Config, k: nat)
  {
    c.disk != 0 && k >= 3
  }

  /** The special inputs of a disk router carry 2S stubs, which never become inner or outer pairing stubs. */
  predicate Disk2S(c: Config, k: nat)
  {
    IsSpecial(k) && c.disk != 0
  }

  /**
   * Of the six inputs of a disk router, the second three (k / 3 == 1) carry
   * the negative disk and the first of each three (k % 3 == 0) carries 2S
   * stubs; a layer router has neither kind.
   */
  lemma InputKinds(c: Config, k: nat)
    requires k < 6
    ensures NegDisk(c, k) <==> c.disk != 0 && k / 3 == 1
    ensures Disk2S(c, k) <==> c.disk != 0 && k % 3 == 0
  {
  }

  /** The virtual module of coarse bin raw when the sector has ntot of them: raw times ntot / 32, truncated. */
  function VmIndex(raw: nat, ntot: nat): (v: nat)
    requires raw < 32 && (ntot == 16 || ntot == 32)
    ensures v < ntot
    ensures v == raw * ntot / 32
  {
    if ntot == 32 then raw else raw / 2
  }

  /** The corrected phi of the stub, in the width of the ordinary inputs (disk stubs keep theirs). */
  function StubPhi(c: Config, tb: Tables, t: Tagged): (phi: nat)
    requires StubPre(c, tb, t)
    ensures phi < Pow2(c.inFmt.phiBits)
    ensures c.disk != 0 ==> phi == t.stub.phi % Pow2(c.inFmt.phiBits)
  {
    var f := c.inFmt;
    assert 0 <= t.stub.phi % Pow2(f.phiBits) < Pow2(f.phiBits);
    assert 0 <= t.stub.r % Pow2(f.rBits) < Pow2(f.rBits);
    assert 0 <= t.stub.bend % Pow2(f.bendBits) < Pow2(f.bendBits);
    PhiCorr(c.layer == 0, t.stub.phi % Pow2(f.phiBits), f.phiBits,
            t.stub.r % Pow2(f.rBits), f.rBits, t.stub.bend % Pow2(f.bendBits), tb.phicorr)
  }

  /** The coarse phi bin of the corrected phi. */
  function StubRaw(c: Config, tb: Tables, t: Tagged): (raw: nat)
    requires StubPre(c, tb, t)
    ensures raw < 32
  {
    IPhiVmRaw(StubPhi(c, tb, t), c.inFmt.phiBits)
  }

  // ---------------------------------------------------------------------
  // ME memories

  /** The z bits of the fine-bin table index before the negative-disk mirror. */
  function MEZBin(c: Config, t: Tagged): (zb: nat)
    requires Wellformed(c) && StubOk(c, t)
    ensures zb < Pow2(NBitsZFine(c))
  {
    var f := FormatOf(c, t.channel);
    ZBin(t.stub.z, f.zBits, NBitsZFine(c))
  }

  /** The r bits of the fine-bin table index: the top bits of r on a disk, of r made unsigned on a layer. */
  function MERBin(c: Config, t: Tagged): (rb: nat)
    requires Wellformed(c) && StubOk(c, t)
    ensures rb < Pow2(NBitsRFine(c))
  {
    var f := FormatOf(c, t.channel);
    if c.disk != 0 then TopOf(t.stub.r, f.rBits, NBitsRFine(c))
    else OffsetBin(t.stub.r, f.rBits, NBitsRFine(c))
  }

  /** The fine-bin table index, computed in the index's own width. */
  function MEIndex(c: Config, t: Tagged): (index: nat)
    requires Wellformed(c) && StubOk(c, t)
    ensures index < Pow2(NBitsZFine(c) + NBitsRFine(c))
  {
    var nbz, nbr := NBitsZFine(c), NBitsRFine(c);
    var z0 := MEZBin(c, t);
    var indexz := if c.disk != 0 && NegDisk(c, t.channel) then (Pow2(nbz) - z0) % Pow2(nbz + nbr) else z0;
    assert 0 <= (indexz * Pow2(nbr) + MERBin(c, t)) % Pow2(nbz + nbr) < Pow2(nbz + nbr);
    (indexz * Pow2(nbr) + MERBin(c, t)) % Pow2(nbz + nbr)
  }

  /**
   * The index is z row then r bin, and a negative disk reads the mirrored z
   * row 2^nbz - z0, where z0 = 0 wraps round to row 0.
   */
  lemma MEIndexRows(c: Config, t: Tagged)
    requires Wellformed(c) && StubOk(c, t)
    ensures var z0 := MEZBin(c, t);
      var row := if NegDisk(c, t.channel) then (Pow2(NBitsZFine(c)) - z0) % Pow2(NBitsZFine(c)) else z0;
      MEIndex(c, t) == row * Pow2(NBitsRFine(c)) + MERBin(c, t)
  {
    var z0, rb := MEZBin(c, t), MERBin(c, t);
    var nbz, nbr := NBitsZFine(c), NBitsRFine(c);
    if NegDisk(c, t.channel) {
      assert nbz == 3 && nbr == 7;
      assert Pow2(3) == 8 && Pow2(7) == 128 && Pow2(10) == 1024;
      assert MEIndex(c, t) == ((8 - z0) % 1024 * 128 + rb) % 1024;
      MirrorRow(z0, rb);
    } else {
      assert MEIndex(c, t) == (z0 * Pow2(nbr) + rb) % Pow2(nbz + nbr);
      RowFits(z0, rb, nbz, nbr);
    }
  }

  /** Row then column: a row below 2^nbz and a column below 2^nbr fit in nbz + nbr bits. */
  lemma RowFits(row: nat, col: nat, nbz: nat, nbr: nat)
    requires row < Pow2(nbz) && col < Pow2(nbr)
    ensures (row * Pow2(nbr) + col) % Pow2(nbz + nbr) == row * Pow2(nbr) + col
  {
    MulAddBound(row, col, Pow2(nbz), Pow2(nbr));
    Pow2Add(nbz, nbr);
    assert Pow2(nbz) * Pow2(nbr) == Pow2(nbr) * Pow2(nbz);
    ModSmall(row * Pow2(nbr) + col, Pow2(nbz + nbr));
  }

  /** The mirrored z row of a negative disk, in the 3 + 7 bits of a disk index. */
  lemma MirrorRow(z0: nat, rb: nat)
    requires z0 < 8 && rb < 128
    ensures ((8 - z0) % 1024 * 128 + rb) % 1024 == (8 - z0) % 8 * 128 + rb
  {
    if z0 == 0 {
      assert (8 * 128 + rb) % 1024 == rb;
    } else {
      assert (8 - z0) % 1024 == 8 - z0 == (8 - z0) % 8;
      assert (8 - z0) * 128 + rb < 1024;
    }
  }

  /** The ME module of a stub and the two neighbours it may be copied to. */
  datatype Span = Span(ivm: nat, minus: nat, plus: nat)

  /**
   * The modules a stub of coarse bin raw is written to, in a sector of ntot
   * modules: its own; the next one when it lies in the top quarter of its bin
   * (up), the previous one when it lies in the bottom quarter (down), never
   * past either end of the sector.
   */
  function SpanOf(raw: nat, up: bool, down: bool, ntot: nat): (s: Span)
    requires raw < 32 && (ntot == 16 || ntot == 32)
    ensures s.minus <= s.ivm <= s.plus < ntot
    ensures s.plus <= s.ivm + 1 && s.ivm <= s.minus + 1
    ensures !(up && down) ==> s.plus == s.ivm || s.minus == s.ivm
  {
    var ivm := VmIndex(raw, ntot);
    Span(ivm,
         if down && raw > 0 then VmIndex(raw - 1, ntot) else ivm,
         if up && raw < 31 then VmIndex(raw + 1, ntot) else ivm)
  }

  /**
   * The modules of corrected phi `phi` as the router computes them, from the
   * coarse bins a quarter bin up and down, clamped at the ends of the sector.
   * They are the ones SpanOf describes, and a stub is never in both the top
   * and the bottom quarter of its bin.
   */
  function MESpan(phi: nat, len: nat, ntot: nat): (s: Span)
    requires len >= 7 && phi < Pow2(len) && (ntot == 16 || ntot == 32)
    ensures s == SpanOf(IPhiVmRaw(phi, len), TopQuarter(phi, len), BottomQuarter(phi, len), ntot)
    ensures s.plus == s.ivm || s.minus == s.ivm
  {
    PlusMinusExclusive(phi, len);
    var raw := IPhiVmRaw(phi, len);
    PlusVm(raw, TopQuarter(phi, len), ntot);
    MinusVm(raw, BottomQuarter(phi, len), ntot);
    var ivm := VmIndex(IPhiVmRaw(phi, len), ntot);
    var ivmPlus := VmIndex(IPhiVmRawPlus(phi, len), ntot);
    var ivmMinus := VmIndex(IPhiVmRawMinus(phi, len), ntot);
    Span(ivm, if ivmMinus > ivm then 0 else ivmMinus, if ivmPlus < ivm then ntot - 1 else ivmPlus)
  }

  /** The next module, clamped at the top of the sector as the router does after a wrap of the coarse bin. */
  lemma PlusVm(raw: nat, up: bool, ntot: nat)
    requires raw < 32 && (ntot == 16 || ntot == 32)
    ensures var v, p := VmIndex(raw, ntot), VmIndex((raw + (if up then 1 else 0)) % 32, ntot);
      && (if p < v then ntot - 1 else p) == (if up && raw < 31 then VmIndex(raw + 1, ntot) else v)
      && (up && raw < 31 ==> v <= VmIndex(raw + 1, ntot) <= v + 1)
  {
    if up && raw == 31 {
      assert (raw + 1) % 32 == 0;
    } else if up {
      assert (raw + 1) % 32 == raw + 1;
    } else {
      assert raw % 32 == raw;
    }
  }

  /** The previous module, clamped at the bottom of the sector. */
  lemma MinusVm(raw: nat, down: bool, ntot: nat)
    requires raw < 32 && (ntot == 16 || ntot == 32)
    ensures var v, m := VmIndex(raw, ntot), VmIndex((raw + (if down then 31 else 0)) % 32, ntot);
      && (if m > v then 0 else m) == (if down && raw > 0 then VmIndex(raw - 1, ntot) else v)
      && (down && raw > 0 ==> v - 1 <= VmIndex(raw - 1, ntot) <= v)
  {
    if down && raw == 0 {
      assert (raw + 31) % 32 == 31;
    } else if down {
      assert (raw + 31) % 32 == raw - 1;
    } else {
      assert raw % 32 == raw;
    }
  }

  /** Where one stub goes in the ME memories: its modules, bin and fine z. */
  datatype MEPlacement = MEPlacement(span: Span, bin: nat, fineZ: nat)

  /**
   * An eight-bin offset (the negative-disk half) added to the top three bits
   * of a six-bit value is gone again in the low three bits of the bin, kept in
   * any width of at least three bits; the fine part completes the value.
   */
  lemma BinSplit(x: nat, half: nat, width: nat)
    requires x < 64
    ensures width >= 3 ==> ((x / 8 + 8 * half) % Pow2(width)) % 8 * 8 + x % 8 == x
  {
    if width < 3 {
      return;
    }
    var b := x / 8 + 8 * half;
    Pow2Add(3, width - 3);
    assert Pow2(3) == 8;
    DivModDiv(b, 8, Pow2(width - 3));
    var q := b % Pow2(width);
    DivNonNeg(b, 8);
    assert q == (b / 8) % Pow2(width - 3) * 8 + b % 8;
    DivNonNeg(b / 8, Pow2(width - 3));
    assert 0 <= b / 8 % Pow2(width - 3) < Pow2(width - 3);
    DivUnique(q, 8, (b / 8) % Pow2(width - 3), b % 8);
    DivUnique(b, 8, half, x / 8);
  }

  function MEPlace(c: Config, tb: Tables, t: Tagged): (p: MEPlacement)
    requires StubPre(c, tb, t) && c.memask != 0
    ensures p.span == MESpan(StubPhi(c, tb, t), c.inFmt.phiBits, NTotVmMe(c))
    ensures p.bin < Pow2(c.meBinsBits) && p.fineZ < 8
    ensures c.meBinsBits >= 3 ==> p.bin % 8 * 8 + p.fineZ == tb.finebin[MEIndex(c, t)] % 64
  {
    var index := MEIndex(c, t);
    assert 0 <= tb.finebin[index] % 64 < 64;
    var rzcorr := tb.finebin[index] % 64;
    var bin0 := rzcorr / 8 + (if NegDisk(c, t.channel) then 8 else 0);
    assert 0 <= bin0 % Pow2(c.meBinsBits) < Pow2(c.meBinsBits);
    BinSplit(rzcorr, if NegDisk(c, t.channel) then 1 else 0, c.meBinsBits);
    MEPlacement(MESpan(StubPhi(c, tb, t), c.inFmt.phiBits, NTotVmMe(c)),
                bin0 % Pow2(c.meBinsBits), rzcorr % 8)
  }

  /** Stub t is written to ME memory n (n counts over the whole mask). */
  predicate MEWrites(c: Config, tb: Tables, t: Tagged, n: nat)
    requires StubPre(c, tb, t)
  {
    && c.memask != 0 && n < 32 && Bit(c.memask, n)
    && var p := MEPlace(c, tb, t);
       p.span.minus == n || p.span.plus == n
  }

  /** The ME record of the i-th stub processed. */
  function MEEntry(c: Config, tb: Tables, i: nat, t: Tagged): Binned<VMStubME>
    requires StubPre(c, tb, t) && c.memask != 0
  {
    var p := MEPlace(c, tb, t);
    Binned(p.bin, VMStubME(i % Pow2(c.idBits), t.stub.bend, p.fineZ))
  }

  /**
   * The ME memories a stub is written to exist in this router, lie within one
   * module of its own and are adjacent; its own module gets it whenever the mask enables it.
   */
  lemma METargets(c: Config, tb: Tables, t: Tagged)
    requires StubPre(c, tb, t) && c.memask != 0 && MaskWindow(c.memask, FirstMe(c), NVmMe(c), 32)
    ensures var s := MEPlace(c, tb, t).span;
      && (forall n: nat :: MEWrites(c, tb, t, n) ==> FirstMe(c) <= n < FirstMe(c) + NVmMe(c))
      && (forall n: nat :: MEWrites(c, tb, t, n) ==> s.minus <= n <= s.plus <= s.minus + 1)
      && (Bit(c.memask, s.ivm) ==> MEWrites(c, tb, t, s.ivm))
  {
    var s := MEPlace(c, tb, t).span;
    forall n: nat | MEWrites(c, tb, t, n)
      ensures FirstMe(c) <= n < FirstMe(c) + NVmMe(c)
      ensures s.minus <= n <= s.plus <= s.minus + 1
    {
      assert n < 32 && Bit(c.memask, n);
    }
    assert s.ivm < 32 by {
      assert NTotVmMe(c) <= 32;
    }
  }

  /** With 16 ME bins, bins 8 to 15 hold exactly the negative-disk stubs. */
  lemma MEBinHalves(c: Config, tb: Tables, t: Tagged)
    requires StubPre(c, tb, t) && c.memask != 0 && c.meBinsBits >= 4
    ensures NegDisk(c, t.channel) <==> MEPlace(c, tb, t).bin >= 8
  {
    Pow2Monotone(4, c.meBinsBits);
    assert Pow2(4) == 16;
    var index := MEIndex(c, t);
    Pow2Monotone(NBitsZFine(c) + NBitsRFine(c), NBitsZFine(c) + NBitsRFine(c));
    var rzcorr := tb.finebin[index] % 64;
    var bin0 := rzcorr / 8 + (if NegDisk(c, t.channel) then 8 else 0);
    ModSmall(bin0, Pow2(c.meBinsBits));
  }

  // ---------------------------------------------------------------------
  // TE memories (inner and outer share the module number)

  /** The TE virtual module of the stub. */
  function TEVm(c: Config, tb: Tables, t: Tagged): (ivm: nat)
    requires StubPre(c, tb, t)
    ensures ivm < NTotVmTe(c)
  {
    VmIndex(StubRaw(c, tb, t), NTotVmTe(c))
  }

  /** The z bin of a pairing look-up, mirrored on a negative disk. */
  function DiskZBin(c: Config, t: Tagged): (zb: nat)
    requires Wellformed(c) && StubOk(c, t) && c.disk != 0
    ensures zb < 8
    ensures var z0 := ZBin(t.stub.z, FormatOf(c, t.channel).zBits, 3);
      zb == if NegDisk(c, t.channel) then 7 - z0 else z0
  {
    var f := FormatOf(c, t.channel);
    assert Pow2(3) == 8;
    var zb := ZBin(t.stub.z, f.zBits, 3) % 8;
    if NegDisk(c, t.channel) then 7 - zb else zb
  }

  /** The index into the inner pairing table: z bin then r bin on a layer, r bin then z bin on a disk. */
  function TEIIndex(c: Config, t: Tagged): (index: nat)
    requires Wellformed(c) && StubOk(c, t) && !Disk2S(c, t.channel)
    ensures index < 2048
  {
    var f := FormatOf(c, t.channel);
    assert Pow2(7) == 128 && Pow2(4) == 16 && Pow2(8) == 256;
    if c.layer != 0 then
      ZBin(t.stub.z, f.zBits, 7) % 128 * 16 + OffsetBin(t.stub.r, f.rBits, 4)
    else
      assert c.disk != 0;
      TopOf(t.stub.r, f.rBits, 8) * 8 + DiskZBin(c, t)
  }

  /** The z/r bits stored in an inner pairing record: which outer bins to look in. */
  function TEIZBits(c: Config, tb: Tables, t: Tagged): int
    requires StubPre(c, tb, t) && c.teimask != 0 && !Disk2S(c, t.channel)
  {
    tb.rzInner[TEIIndex(c, t)]
  }

  /** The inner pairing record of the i-th stub processed. */
  function TEIStub(c: Config, tb: Tables, i: nat, t: Tagged): VMStubTEInner
    requires StubPre(c, tb, t) && c.teimask != 0 && !Disk2S(c, t.channel)
  {
    VMStubTEInner(i % Pow2(c.idBits), t.stub.bend, TEIZBits(c, tb, t),
                  IPhiVmFineBins(StubPhi(c, tb, t), c.inFmt.phiBits, VmBits(c), NFinePhiInner))
  }

  /** The stub is kept as an inner pairing stub: not 2S, a valid look-up (at most 1024), an enabled module. */
  predicate TEIAccepted(c: Config, tb: Tables, t: Tagged)
    requires StubPre(c, tb, t)
  {
    && c.teimask != 0 && !Disk2S(c, t.channel)
    && TEIZBits(c, tb, t) <= 1024
    && Bit(c.teimask, TEVm(c, tb, t))
  }

  /** The memory row of an accepted inner stub, kept in three bits. */
  function TEIMem(c: Config, tb: Tables, t: Tagged): nat
    requires StubPre(c, tb, t)
  {
    (TEVm(c, tb, t) - FirstTe(c)) % 8
  }

  /** An accepted stub lands in a memory row the router holds, one per enabled module. */
  lemma TEIRow(c: Config, tb: Tables, t: Tagged)
    requires StubPre(c, tb, t) && TEIAccepted(c, tb, t)
    requires MaskWindow(c.teimask, FirstTe(c), NVmTe(c), 32)
    ensures TEIMem(c, tb, t) < NVmTe(c)
    ensures TEIMem(c, tb, t) + FirstTe(c) == TEVm(c, tb, t)
  {
    var ivm := TEVm(c, tb, t);
    assert ivm < 32 by {
      assert NTotVmTe(c) <= 32;
    }
    InWindow(c.teimask, FirstTe(c), NVmTe(c), 32, ivm);
    ModSmall(ivm - FirstTe(c), 8);
    assert TEIMem(c, tb, t) == ivm - FirstTe(c);
  }

  /** Bend rows of a stub that is not 2S cover its bend. */
  lemma BendInSpan(c: Config, t: Tagged)
    requires Wellformed(c) && StubOk(c, t)
    requires c.layer != 0 || !Disk2S(c, t.channel)
    ensures t.stub.bend < BendSpan(c)
  {
  }

  predicate InnerPre(c: Config, tb: Tables, t: Tagged)
  {
    StubPre(c, tb, t) && InnerFit(c, tb)
  }

  /** Copy k of inner memory row m passes the stub's bend cut, read at the six-bit bend index. */
  predicate TEIBendPass(c: Config, tb: Tables, t: Tagged, m: nat, k: nat)
    requires StubPre(c, tb, t) && InnerRowsFit(c, tb) && c.teimask != 0 && !Disk2S(c, t.channel)
    requires m < NVmTe(c) && k < c.maxTEICopies
  {
    InnerBendRowIn(NVmTe(c), c.maxTEICopies, m, k);
    RowCovered(tb.bendInner, BendRows6(NVmTe(c), c.maxTEICopies), BendSpan(c), InnerBendRow(c.maxTEICopies, m, k));
    BendInSpan(c, t);
    tb.bendInner[InnerBendRow(c.maxTEICopies, m, k)][t.stub.bend]
  }

  /**
   * Copy k of row m reads the bend flag at the six-bit row InnerBendRow, which
   * the table has; while the rows fit in 64 that is row m * copies + k.
   */
  lemma TEIBendPassAt(c: Config, tb: Tables, t: Tagged, m: nat, k: nat)
    requires StubPre(c, tb, t) && InnerRowsFit(c, tb) && c.teimask != 0 && !Disk2S(c, t.channel)
    requires m < NVmTe(c) && k < c.maxTEICopies
    ensures InnerBendRow(c.maxTEICopies, m, k) < 64
    ensures InnerBendRow(c.maxTEICopies, m, k) < |tb.bendInner| && t.stub.bend < |tb.bendInner[InnerBendRow(c.maxTEICopies, m, k)]|
    ensures TEIBendPass(c, tb, t, m, k) == tb.bendInner[InnerBendRow(c.maxTEICopies, m, k)][t.stub.bend]
    ensures NVmTe(c) * c.maxTEICopies <= 64 ==> InnerBendRow(c.maxTEICopies, m, k) == m * c.maxTEICopies + k
  {
    BendInSpan(c, t);
    InnerBendRowIn(NVmTe(c), c.maxTEICopies, m, k);
    RowCovered(tb.bendInner, BendRows6(NVmTe(c), c.maxTEICopies), BendSpan(c), InnerBendRow(c.maxTEICopies, m, k));
  }

  /** Stub t is written to copy k of inner memory row m. */
  predicate TEIWrites(c: Config, tb: Tables, t: Tagged, m: nat, k: nat)
    requires InnerPre(c, tb, t)
  {
    && TEIAccepted(c, tb, t)
    && m == TEIMem(c, tb, t) && k < c.maxTEICopies
    && (TEIRow(c, tb, t); TEIBendPass(c, tb, t, m, k))
  }

  /** An inner stub written anywhere is not 2S, has a valid look-up, and sits in its own module's row. */
  lemma TEIWriteSound(c: Config, tb: Tables, t: Tagged, m: nat, k: nat)
    requires InnerPre(c, tb, t) && TEIWrites(c, tb, t, m, k)
    ensures !Disk2S(c, t.channel) && TEIZBits(c, tb, t) <= 1024 && Bit(c.teimask, TEVm(c, tb, t))
    ensures m < NVmTe(c) && k < c.maxTEICopies && FirstTe(c) + m == TEVm(c, tb, t)
  {
    TEIRow(c, tb, t);
  }

  /** Whether an accepted inner stub is written to copy k of row m: m is its row and the bend flag that copy reads is set. */
  lemma TEIWritesCell(c: Config, tb: Tables, t: Tagged, m: nat, k: nat)
    requires InnerPre(c, tb, t) && TEIAccepted(c, tb, t)
    requires m < NVmTe(c) && k < c.maxTEICopies
    ensures InnerBendRow(c.maxTEICopies, m, k) < |tb.bendInner| && t.stub.bend < |tb.bendInner[InnerBendRow(c.maxTEICopies, m, k)]|
    ensures TEIWrites(c, tb, t, m, k) <==> m == TEIMem(c, tb, t) && tb.bendInner[InnerBendRow(c.maxTEICopies, m, k)][t.stub.bend]
  {
    TEIBendPassAt(c, tb, t, m, k);
  }

  /**
   * The copies an accepted inner stub is written to are exactly those of its
   * row whose bend flag, at the six-bit index bendindex stepped k times, is
   * set; while the rows fit in 64 the index does not wrap.
   */
  lemma TEICells(c: Config, tb: Tables, t: Tagged, memindex: nat, bendindex: nat)
    requires InnerPre(c, tb, t) && TEIAccepted(c, tb, t)
    requires memindex == TEIMem(c, tb, t) && bendindex == memindex * c.maxTEICopies % 64
    ensures memindex < NVmTe(c) && bendindex < 64
    ensures forall k :: 0 <= k < c.maxTEICopies ==>
      Row6(bendindex, k) < |tb.bendInner| && t.stub.bend < |tb.bendInner[Row6(bendindex, k)]|
    ensures forall m: nat, k: nat :: m < NVmTe(c) && k < c.maxTEICopies ==>
      (TEIWrites(c, tb, t, m, k) <==> m == memindex && tb.bendInner[Row6(bendindex, k)][t.stub.bend])
    ensures NVmTe(c) * c.maxTEICopies <= 64 ==>
      forall k :: 0 <= k < c.maxTEICopies ==> Row6(bendindex, k) == memindex * c.maxTEICopies + k
  {
    TEIRow(c, tb, t);
    forall m: nat, k: nat | m < NVmTe(c) && k < c.maxTEICopies
      ensures InnerBendRow(c.maxTEICopies, m, k) < |tb.bendInner| && t.stub.bend < |tb.bendInner[InnerBendRow(c.maxTEICopies, m, k)]|
      ensures TEIWrites(c, tb, t, m, k) <==> m == memindex && tb.bendInner[InnerBendRow(c.maxTEICopies, m, k)][t.stub.bend]
      ensures NVmTe(c) * c.maxTEICopies <= 64 ==> InnerBendRow(c.maxTEICopies, m, k) == m * c.maxTEICopies + k
    {
      TEIWritesCell(c, tb, t, m, k);
      InnerBendRowIn(NVmTe(c), c.maxTEICopies, m, k);
    }
    forall k | 0 <= k < c.maxTEICopies
      ensures Row6(bendindex, k) == InnerBendRow(c.maxTEICopies, memindex, k)
    {
    }
  }

  // ---------------------------------------------------------------------
  // Overlap memories (layers 1 and 2)

  /** Halving the coarse bin then scaling by 16 or 8 sixteenths. */
  lemma OverlapScale(raw: nat)
    requires raw < 32
    ensures raw / 2 * 16 / 16 == raw / 2
    ensures raw / 2 * 8 / 16 == raw / 4
  {
    var h := raw / 2;
    DivUnique(h * 16, 16, h, 0);
    DivUnique(h * 8, 16, h / 2, (h % 2) * 8);
    DivDiv(raw, 2, 2);
  }

  /** The overlap virtual module: coarse bin halved, times ntotvmol / 16. */
  function OLVm(c: Config, tb: Tables, t: Tagged): (ivmol: nat)
    requires StubPre(c, tb, t) && (c.layer == 1 || c.layer == 2)
    ensures ivmol < 16
    ensures ivmol == (if NTotVmOl(c) == 16 then StubRaw(c, tb, t) / 2 else StubRaw(c, tb, t) / 4)
  {
    var raw := StubRaw(c, tb, t);
    OverlapScale(raw);
    raw / 2 * NTotVmOl(c) / 16
  }

  function OLIndex(c: Config, t: Tagged): (index: nat)
    requires Wellformed(c) && StubOk(c, t) && c.layer != 0
    ensures index < 1024
  {
    var f := FormatOf(c, t.channel);
    assert Pow2(7) == 128 && Pow2(3) == 8;
    ZBin(t.stub.z, f.zBits, 7) % 128 * 8 + OffsetBin(t.stub.r, f.rBits, 3)
  }

  function OLZBits(c: Config, tb: Tables, t: Tagged): int
    requires StubPre(c, tb, t) && c.olmask != 0 && (c.layer == 1 || c.layer == 2)
  {
    tb.rzOverlap[OLIndex(c, t)]
  }

  function OLStub(c: Config, tb: Tables, i: nat, t: Tagged): VMStubTEInner
    requires StubPre(c, tb, t) && c.olmask != 0 && (c.layer == 1 || c.layer == 2)
  {
    VMStubTEInner(i % Pow2(c.idBits), t.stub.bend, OLZBits(c, tb, t),
                  IPhiVmFineBins(StubPhi(c, tb, t), c.inFmt.phiBits, VmBitsOl(c), NFinePhiOverlapInner))
  }

  /** The stub is kept as an overlap stub: the look-up is not the 1023 marker and the module is enabled. */
  predicate OLAccepted(c: Config, tb: Tables, t: Tagged)
    requires StubPre(c, tb, t) && (c.olmask != 0 ==> c.layer == 1 || c.layer == 2)
  {
    c.olmask != 0 && OLZBits(c, tb, t) != 1023 && Bit(c.olmask, OLVm(c, tb, t))
  }

  predicate OverlapPre(c: Config, tb: Tables, t: Tagged)
  {
    StubPre(c, tb, t) && OverlapFit(c, tb)
  }

  /** An accepted overlap stub lands in a memory row the router holds. */
  lemma OLRow(c: Config, tb: Tables, t: Tagged)
    requires OverlapPre(c, tb, t) && OLAccepted(c, tb, t)
    ensures FirstOl(c) <= OLVm(c, tb, t) < FirstOl(c) + NVmOl(c)
  {
    InWindow(c.olmask, FirstOl(c), NVmOl(c), 16, OLVm(c, tb, t));
  }

  /** Stub t is written to copy k of overlap memory row m. */
  predicate OLWrites(c: Config, tb: Tables, t: Tagged, m: nat, k: nat)
    requires OverlapPre(c, tb, t)
  {
    && OLAccepted(c, tb, t)
    && m + FirstOl(c) == OLVm(c, tb, t) && k < c.maxOLCopies
    && (OLRow(c, tb, t);
        RowCell(tb.bendOverlap, NVmOl(c), c.maxOLCopies, BendSpan(c), m, k);
        BendInSpan(c, t);
        tb.bendOverlap[m * c.maxOLCopies + k][t.stub.bend])
  }

  /**
   * The copies an accepted overlap stub is written to are exactly those of its
   * row whose bend flag, at row memindex * copies + k of the bend table, is set.
   */
  lemma OLCells(c: Config, tb: Tables, t: Tagged, memindex: nat, bendindex: int)
    requires OverlapPre(c, tb, t) && OLAccepted(c, tb, t)
    requires memindex + FirstOl(c) == OLVm(c, tb, t) && bendindex == memindex * c.maxOLCopies
    ensures memindex < NVmOl(c) && 0 <= bendindex && bendindex + c.maxOLCopies <= |tb.bendOverlap|
    ensures RowsCover(tb.bendOverlap[bendindex..], c.maxOLCopies, t.stub.bend + 1)
    ensures forall m: nat, k: nat :: m < NVmOl(c) && k < c.maxOLCopies ==>
      (OLWrites(c, tb, t, m, k) <==> m == memindex && tb.bendOverlap[bendindex + k][t.stub.bend])
  {
    OLRow(c, tb, t);
    BendInSpan(c, t);
    RowBlock(tb.bendOverlap, NVmOl(c), c.maxOLCopies, BendSpan(c), memindex, t.stub.bend);
    forall m: nat, k: nat | m < NVmOl(c) && k < c.maxOLCopies
      ensures OLWrites(c, tb, t, m, k) <==> m == memindex && tb.bendOverlap[bendindex + k][t.stub.bend]
    {
      OLWritesCell(c, tb, t, m, k);
    }
  }

  /** Whether an accepted overlap stub is written to copy k of row m: m is its row and the bend flag of that copy is set. */
  lemma OLWritesCell(c: Config, tb: Tables, t: Tagged, m: nat, k: nat)
    requires OverlapPre(c, tb, t) && OLAccepted(c, tb, t)
    requires m < NVmOl(c) && k < c.maxOLCopies
    ensures 0 <= m * c.maxOLCopies && m * c.maxOLCopies + k < |tb.bendOverlap| && t.stub.bend < |tb.bendOverlap[m * c.maxOLCopies + k]|
    ensures OLWrites(c, tb, t, m, k) <==> m + FirstOl(c) == OLVm(c, tb, t) && tb.bendOverlap[m * c.maxOLCopies + k][t.stub.bend]
  {
    BendInSpan(c, t);
    RowCell(tb.bendOverlap, NVmOl(c), c.maxOLCopies, BendSpan(c), m, k);
  }

  /** An overlap stub written anywhere has a valid look-up and sits in its own module's row. */
  lemma OLWriteSound(c: Config, tb: Tables, t: Tagged, m: nat, k: nat)
    requires OverlapPre(c, tb, t) && OLWrites(c, tb, t, m, k)
    ensures c.layer == 1 || c.layer == 2
    ensures OLZBits(c, tb, t) != 1023 && Bit(c.olmask, OLVm(c, tb, t)) && m < NVmOl(c) && k < c.maxOLCopies
  {
  }

  // ---------------------------------------------------------------------
  // TE-outer memories

  /** The bin and fine z (fine r on a disk) of an outer pairing stub. */
  datatype OuterBin = OuterBin(bin: nat, fine: nat)

  function TEOIndex(c: Config, t: Tagged): (index: nat)
    requires Wellformed(c) && StubOk(c, t)
    ensures index < (if c.layer != 0 then 2048 else 1024)
  {
    var f := FormatOf(c, t.channel);
    assert Pow2(7) == 128 && Pow2(4) == 16;
    if c.layer != 0 then
      ZBin(t.stub.z, f.zBits, 7) % 128 * 16 + OffsetBin(t.stub.r, f.rBits, 4)
    else
      assert c.disk != 0;
      TopOf(t.stub.r, f.rBits, 7) * 8 + DiskZBin(c, t)
  }

  function TEOPlace(c: Config, tb: Tables, t: Tagged): (o: OuterBin)
    requires StubPre(c, tb, t) && c.teomask != 0
    ensures o.bin < 8 && o.fine < 8
    ensures c.disk != 0 ==> (NegDisk(c, t.channel) <==> o.bin >= 4)
    ensures var v := tb.rzOuter[TEOIndex(c, t)];
      && (c.layer != 0 ==> o.bin * 8 + o.fine == v % 64)
      && (c.layer == 0 ==> o.bin % 4 * 8 + o.fine == v % 32)
  {
    var v := tb.rzOuter[TEOIndex(c, t)];
    if c.layer != 0 then
      assert 0 <= v % 64 < 64;
      DivUnique(v % 64, 8, (v % 64) / 8, (v % 64) % 8);
      OuterBin((v % 64) / 8, (v % 64) % 8)
    else
      assert 0 <= v % 32 < 32;
      var half := if NegDisk(c, t.channel) then 1 else 0;
      DivUnique(v % 32, 8, (v % 32) / 8, (v % 32) % 8);
      DivUnique((v % 32) / 8 + 4 * half, 4, half, (v % 32) / 8);
      OuterBin((v % 32) / 8 + 4 * half, (v % 32) % 8)
  }

  function TEOStub(c: Config, tb: Tables, i: nat, t: Tagged): VMStubTEOuter
    requires StubPre(c, tb, t) && c.teomask != 0
  {
    VMStubTEOuter(i % Pow2(c.idBits), t.stub.bend,
                  IPhiVmFineBins(StubPhi(c, tb, t), c.inFmt.phiBits, VmBits(c), NFinePhiOuter),
                  TEOPlace(c, tb, t).fine)
  }

  function TEOEntry(c: Config, tb: Tables, i: nat, t: Tagged): Binned<VMStubTEOuter>
    requires StubPre(c, tb, t) && c.teomask != 0
  {
    Binned(TEOPlace(c, tb, t).bin, TEOStub(c, tb, i, t))
  }

  /** The stub is kept as an outer pairing stub: not 2S and its module enabled. */
  predicate TEOAccepted(c: Config, tb: Tables, t: Tagged)
    requires StubPre(c, tb, t)
  {
    c.teomask != 0 && !Disk2S(c, t.channel) && Bit(c.teomask, TEVm(c, tb, t))
  }

  predicate OuterPre(c: Config, tb: Tables, t: Tagged)
  {
    StubPre(c, tb, t) && OuterFit(c, tb)
  }

  /** An accepted outer stub lands in a memory row the router holds. */
  lemma TEORow(c: Config, tb: Tables, t: Tagged)
    requires OuterPre(c, tb, t) && TEOAccepted(c, tb, t)
    ensures FirstTe(c) <= TEVm(c, tb, t) < FirstTe(c) + NVmTe(c)
  {
    var ivm := TEVm(c, tb, t);
    assert ivm < 32 by {
      assert NTotVmTe(c) <= 32;
    }
    InWindow(c.teomask, FirstTe(c), NVmTe(c), 32, ivm);
  }

  /** Stub t is written to copy k of outer memory row m. */
  predicate TEOWrites(c: Config, tb: Tables, t: Tagged, m: nat, k: nat)
    requires OuterPre(c, tb, t)
  {
    && TEOAccepted(c, tb, t)
    && m + FirstTe(c) == TEVm(c, tb, t) && k < c.maxTEOCopies
    && (TEORow(c, tb, t);
        RowCell(tb.bendOuter, NVmTe(c), c.maxTEOCopies, BendSpan(c), m, k);
        BendInSpan(c, t);
        tb.bendOuter[m * c.maxTEOCopies + k][t.stub.bend])
  }

  /**
   * The copies an accepted outer stub is written to are exactly those of its
   * row whose bend flag, at row memindex * copies + k of the bend table, is set.
   */
  lemma TEOCells(c: Config, tb: Tables, t: Tagged, memindex: nat, bendindex: int)
    requires OuterPre(c, tb, t) && TEOAccepted(c, tb, t)
    requires memindex + FirstTe(c) == TEVm(c, tb, t) && bendindex == memindex * c.maxTEOCopies
    ensures memindex < NVmTe(c) && 0 <= bendindex && bendindex + c.maxTEOCopies <= |tb.bendOuter|
    ensures RowsCover(tb.bendOuter[bendindex..], c.maxTEOCopies, t.stub.bend + 1)
    ensures forall m: nat, k: nat :: m < NVmTe(c) && k < c.maxTEOCopies ==>
      (TEOWrites(c, tb, t, m, k) <==> m == memindex && tb.bendOuter[bendindex + k][t.stub.bend])
  {
    TEORow(c, tb, t);
    BendInSpan(c, t);
    RowBlock(tb.bendOuter, NVmTe(c), c.maxTEOCopies, BendSpan(c), memindex, t.stub.bend);
    forall m: nat, k: nat | m < NVmTe(c) && k < c.maxTEOCopies
      ensures TEOWrites(c, tb, t, m, k) <==> m == memindex && tb.bendOuter[bendindex + k][t.stub.bend]
    {
      TEOWritesCell(c, tb, t, m, k);
    }
  }

  /** Whether an accepted outer stub is written to copy k of row m: m is its row and the bend flag of that copy is set. */
  lemma TEOWritesCell(c: Config, tb: Tables, t: Tagged, m: nat, k: nat)
    requires OuterPre(c, tb, t) && TEOAccepted(c, tb, t)
    requires m < NVmTe(c) && k < c.maxTEOCopies
    ensures 0 <= m * c.maxTEOCopies && m * c.maxTEOCopies + k < |tb.bendOuter| && t.stub.bend < |tb.bendOuter[m * c.maxTEOCopies + k]|
    ensures TEOWrites(c, tb, t, m, k) <==> m + FirstTe(c) == TEVm(c, tb, t) && tb.bendOuter[m * c.maxTEOCopies + k][t.stub.bend]
  {
    BendInSpan(c, t);
    RowCell(tb.bendOuter, NVmTe(c), c.maxTEOCopies, BendSpan(c), m, k);
  }

  /** An outer stub written anywhere is not 2S and sits in its own module's row. */
  lemma TEOWriteSound(c: Config, tb: Tables, t: Tagged, m: nat, k: nat)
    requires OuterPre(c, tb, t) && TEOWrites(c, tb, t, m, k)
    ensures !Disk2S(c, t.channel) && Bit(c.teomask, TEVm(c, tb, t)) && m < NVmTe(c) && k < c.maxTEOCopies
  {
  }
}
