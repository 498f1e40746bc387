/**
 * Compile-time configuration of one router instance: the constant tables
 * indexed by barrel layer or disk, the template parameters and masks it is
 * instantiated with, and the look-up tables it reads.
 */
module RouterConfig {
  import opened Bits
  import opened Stubs
  import opened VMRouterFunctions

  // Constant tables, indexed by layer - 1 or disk - 1.
  const NAllStubsLayers: seq<nat> := [8, 4, 4, 4, 4, 4]
  const NAllStubsDisks: seq<nat> := [4, 4, 4, 4, 4]
  const NVmMeLayers: seq<nat> := [4, 8, 8, 8, 8, 8]
  const NVmMeDisks: seq<nat> := [8, 4, 4, 4, 4]
  const NVmTeLayers: seq<nat> := [4, 8, 4, 8, 4, 8]
  const NVmTeDisks: seq<nat> := [4, 4, 4, 4, 4]
  const NVmTeOverlapLayers: seq<nat> := [2, 2]
  const VmBitsLayer: seq<nat> := [5, 5, 4, 5, 4, 5]
  const VmBitsDisk: seq<nat> := [4, 4, 4, 4, 4]
  const VmBitsOverlap: seq<nat> := [4, 3]

  // Fine phi bits kept in the pairing records.
  const NFinePhiInner: nat := 2
  const NFinePhiOuter: nat := 3
  const NFinePhiOverlapInner: nat := 2

  /**
   * One router instance. `layer` or `disk` names the detector region (the
   * other is 0); the copy counts and masks are the template parameters and
   * mask arguments; `maxProc` is the number of loop iterations, `memAddrBits`
   * the width of the input read address, `meBinsBits` the width of an ME bin
   * number and `idBits` the width of the stub index kept in the records;
   * `inFmt` and `specialFmt` are the field widths of the ordinary inputs and
   * of inputs 0 and 3 (2S modules on a disk).
   */
  datatype Config = Config(
    layer: nat, disk: nat,
    maxAllCopies: nat, maxTEICopies: nat, maxOLCopies: nat, maxTEOCopies: nat,
    imask: nat, memask: nat, teimask: nat, olmask: nat, teomask: nat,
    maxProc: nat, memAddrBits: nat, meBinsBits: nat, idBits: nat,
    inFmt: StubFormat, specialFmt: StubFormat)

  /** The look-up tables a router instance reads; a bend-cut table is one row of flags per memory copy. */
  datatype Tables = Tables(
    finebin: seq<int>, phicorr: seq<int>,
    rzInner: seq<int>, rzOverlap: seq<int>, rzOuter: seq<int>,
    bendInner: seq<seq<bool>>, bendOverlap: seq<seq<bool>>, bendOuter: seq<seq<bool>>)

  predicate RegionOk(c: Config)
  {
    (1 <= c.layer <= 6 && c.disk == 0) || (c.layer == 0 && 1 <= c.disk <= 5)
  }

  /** ME memories per coarse phi region. */
  function NVmMe(c: Config): (n: nat)
    requires RegionOk(c)
    ensures n == 4 || n == 8
  {
    if c.layer != 0 then NVmMeLayers[c.layer - 1] else NVmMeDisks[c.disk - 1]
  }

  /** TE memories per coarse phi region. */
  function NVmTe(c: Config): (n: nat)
    requires RegionOk(c)
    ensures n == 4 || n == 8
  {
    if c.layer != 0 then NVmTeLayers[c.layer - 1] else NVmTeDisks[c.disk - 1]
  }

  /** Overlap memories per coarse phi region: only layers 1 and 2 have them. */
  function NVmOl(c: Config): (n: nat)
    requires RegionOk(c)
    ensures n == (if c.layer == 1 || c.layer == 2 then 2 else 0)
  {
    if c.layer == 1 || c.layer == 2 then NVmTeOverlapLayers[c.layer - 1] else 0
  }

  /** ME virtual modules in a whole sector. */
  function NTotVmMe(c: Config): (n: nat)
    requires RegionOk(c)
    ensures n == 16 || n == 32
  {
    if c.layer != 0 then NAllStubsLayers[c.layer - 1] * NVmMeLayers[c.layer - 1]
    else NAllStubsDisks[c.disk - 1] * NVmMeDisks[c.disk - 1]
  }

  /** TE virtual modules in a whole sector. */
  function NTotVmTe(c: Config): (n: nat)
    requires RegionOk(c)
    ensures n == 16 || n == 32
  {
    if c.layer != 0 then NAllStubsLayers[c.layer - 1] * NVmTeLayers[c.layer - 1]
    else NAllStubsDisks[c.disk - 1] * NVmTeDisks[c.disk - 1]
  }

  /** Overlap virtual modules in a whole sector (two per coarse phi region). */
  function NTotVmOl(c: Config): (n: nat)
    requires RegionOk(c)
    ensures c.layer != 0 ==> n == 8 || n == 16
  {
    if c.layer != 0 then NAllStubsLayers[c.layer - 1] * 2 else 0
  }

  /** Phi bits that number the TE virtual modules. */
  function VmBits(c: Config): (b: nat)
    requires RegionOk(c)
    ensures b == 4 || b == 5
  {
    if c.layer != 0 then VmBitsLayer[c.layer - 1] else VmBitsDisk[c.disk - 1]
  }

  /** Phi bits that number the overlap virtual modules. */
  function VmBitsOl(c: Config): (b: nat)
    requires c.layer == 1 || c.layer == 2
    ensures b == 3 || b == 4
  {
    VmBitsOverlap[c.layer - 1]
  }

  /** z and r bits of the ME fine-bin table index. */
  function NBitsZFine(c: Config): nat { if c.layer != 0 then 7 else 3 }
  function NBitsRFine(c: Config): nat { if c.layer != 0 then 4 else 7 }

  /** First memory of each family: the lowest enabled bit of its mask. */
  function FirstMe(c: Config): nat { FirstMemNumber(c.memask) }
  function FirstTe(c: Config): nat { if c.teimask != 0 then FirstMemNumber(c.teimask) else FirstMemNumber(c.teomask) }
  function FirstOl(c: Config): nat { if c.olmask != 0 then FirstMemNumber(c.olmask) else 0 }

  /**
   * Each first memory is the lowest enabled module of its mask (31 when none
   * of bits 0 .. 30 is set): the TE numbering follows the inner mask, or the
   * outer mask when the router has no inner memories, and the overlap
   * numbering starts at 0 when there are no overlap memories.
   */
  lemma FirstMemories(c: Config)
    ensures FirstMe(c) <= 31 && (FirstMe(c) < 31 ==> Bit(c.memask, FirstMe(c)))
    ensures forall j :: 0 <= j < FirstMe(c) ==> !Bit(c.memask, j)
    ensures var m := if c.teimask != 0 then c.teimask else c.teomask;
      && FirstTe(c) <= 31 && (FirstTe(c) < 31 ==> Bit(m, FirstTe(c)))
      && forall j :: 0 <= j < FirstTe(c) ==> !Bit(m, j)
    ensures c.olmask == 0 ==> FirstOl(c) == 0
    ensures c.olmask != 0 ==> FirstOl(c) < 31 ==> Bit(c.olmask, FirstOl(c))
    ensures c.olmask != 0 ==> forall j :: 0 <= j < FirstOl(c) ==> !Bit(c.olmask, j)
  {
    FirstMemNumberLowest(c.memask);
    FirstMemNumberLowest(if c.teimask != 0 then c.teimask else c.teomask);
    FirstMemNumberLowest(c.olmask);
  }

  /**
   * A nonzero mask enables only memories first .. first + nvm - 1 (the ones
   * the router's arrays hold) within its width.
   */
  predicate MaskWindow(mask: nat, first: nat, nvm: nat, width: nat)
  {
    mask != 0 ==>
      && mask < Pow2(width)
      && first + nvm <= width
      && forall n :: 0 <= n < width && Bit(mask, n) ==> first <= n < first + nvm
  }

  /** A module the mask enables lies in the window. */
  lemma InWindow(mask: nat, first: nat, nvm: nat, width: nat, n: nat)
    requires MaskWindow(mask, first, nvm, width) && n < width && Bit(mask, n)
    ensures first <= n < first + nvm
  {
    if mask == 0 {
      ZeroHasNoBits(n);
    }
  }

  /** Input k is one of the two special inputs (2S modules on a disk). */
  predicate IsSpecial(k: nat) { k == 0 || k == 3 }

  /** The field widths of input k. */
  function FormatOf(c: Config, k: nat): StubFormat
  {
    if IsSpecial(k) then c.specialFmt else c.inFmt
  }

  predicate FormatsOk(c: Config)
    requires RegionOk(c)
  {
    && c.inFmt.phiBits >= 7 && c.inFmt.phiBits >= VmBits(c) + NFinePhiOuter
    && (c.layer != 0 ==>
          && c.inFmt.zBits >= 7 && c.inFmt.rBits >= 4
          && c.specialFmt.zBits >= 7 && c.specialFmt.rBits >= 4)
    && (c.disk != 0 ==>
          && c.inFmt.zBits >= 3 && c.inFmt.rBits >= 8
          && c.specialFmt.zBits >= 3 && c.specialFmt.rBits >= 7)
  }

  /** The region and field widths make every per-stub computation well defined. */
  predicate Wellformed(c: Config)
  {
    RegionOk(c) && FormatsOk(c)
  }

  /** Largest bend pattern + 1 over the inputs that reach the pairing memories. */
  function BendSpan(c: Config): nat
  {
    if c.layer != 0 && Pow2(c.specialFmt.bendBits) > Pow2(c.inFmt.bendBits)
    then Pow2(c.specialFmt.bendBits) else Pow2(c.inFmt.bendBits)
  }

  predicate RowsCover(rows: seq<seq<bool>>, count: int, span: nat)
  {
    count <= |rows| && forall j :: 0 <= j < count ==> span <= |rows[j]|
  }

  /** Row j of covering rows exists and covers the span. */
  lemma RowCovered(rows: seq<seq<bool>>, count: int, span: nat, j: nat)
    requires RowsCover(rows, count, span) && j < count
    ensures j < |rows| && span <= |rows[j]|
  {
  }

  /** Copy k of memory mem lies inside covering rows, and its row covers the span. */
  lemma RowCell(rows: seq<seq<bool>>, nvm: nat, copies: nat, span: nat, mem: nat, k: nat)
    requires RowsCover(rows, nvm * copies, span) && mem < nvm && k < copies
    ensures 0 <= mem * copies && mem * copies + k < nvm * copies <= |rows| && span <= |rows[mem * copies + k]|
  {
    MulAddBound(mem, k, nvm, copies);
    RowCovered(rows, nvm * copies, span, mem * copies + k);
  }

  /** A block of covering rows covers any smaller span. */
  lemma RowsCoverSlice(rows: seq<seq<bool>>, count: int, span: nat, base: nat, len: nat, span': nat)
    requires RowsCover(rows, count, span) && base + len <= count && span' <= span
    ensures base + len <= |rows| && RowsCover(rows[base..], len, span')
  {
    forall j | 0 <= j < len
      ensures span' <= |rows[base..][j]|
    {
      RowCovered(rows, count, span, base + j);
    }
  }

  /** The block of `copies` rows of memory mem lies inside covering rows, and covers every bend up to `bend`. */
  lemma RowBlock(rows: seq<seq<bool>>, nvm: nat, copies: nat, span: nat, mem: nat, bend: nat)
    requires RowsCover(rows, nvm * copies, span) && mem < nvm && bend < span
    ensures 0 <= mem * copies && mem * copies + copies <= nvm * copies <= |rows|
    ensures RowsCover(rows[mem * copies..], copies, bend + 1)
  {
    MulRowEnd(mem, nvm, copies);
    RowsCoverSlice(rows, nvm * copies, span, mem * copies, copies, bend + 1);
  }

  /** Every look-up table the enabled memories use is large enough for the index the router computes. */
  predicate LutsFit(c: Config, tb: Tables)
  {
    && (c.memask != 0 ==> Pow2(NBitsZFine(c) + NBitsRFine(c)) <= |tb.finebin|)
    && (c.layer != 0 ==> Pow2(c.inFmt.bendBits) * 8 <= |tb.phicorr|)
    && (c.teimask != 0 ==> 2048 <= |tb.rzInner|)
    && (c.olmask != 0 ==> 1024 <= |tb.rzOverlap|)
    && (c.teomask != 0 ==> (if c.layer != 0 then 2048 else 1024) <= |tb.rzOuter|)
  }

  /** Rows a six-bit bend index reaches for nvm memories of `copies` copies each: nvm * copies, but at most 64. */
  function BendRows6(nvm: nat, copies: nat): nat
  {
    if nvm * copies <= 64 then nvm * copies else 64
  }

  /** A six-bit index that starts at base and is stepped k times, wrapping at 64. */
  function Row6(base: nat, k: nat): nat
  {
    (base + k) % 64
  }

  /**
   * The inner bend row read for copy k of memory m: the six-bit index starts
   * at m * copies cut to six bits and is stepped once per copy.
   */
  function InnerBendRow(copies: nat, m: nat, k: nat): nat
  {
    Row6(m * copies % 64, k)
  }

  /**
   * The row read for a copy is one the six-bit index reaches; while the nvm
   * memories' copies fit in 64 rows it is row m * copies + k, so each copy
   * reads its own row.
   */
  lemma InnerBendRowIn(nvm: nat, copies: nat, m: nat, k: nat)
    requires m < nvm && k < copies
    ensures InnerBendRow(copies, m, k) < BendRows6(nvm, copies)
    ensures nvm * copies <= 64 ==> InnerBendRow(copies, m, k) == m * copies + k
  {
    MulAddBound(m, k, nvm, copies);
    if nvm * copies <= 64 {
      ModSmall(m * copies, 64);
      ModSmall(m * copies + k, 64);
    }
  }

  /** Eight memories of nine copies: the six-bit index makes copy 1 of memory 7 read the row of copy 0 of memory 0. */
  lemma InnerBendRowsCollide()
    ensures 8 * 9 > 64
    ensures InnerBendRow(9, 7, 1) == InnerBendRow(9, 0, 0) == 0
  {
  }

  /** The row the index is meant to reach: copy k of memory m has row m * copies + k. */
  function IntendedBendRow(copies: nat, m: nat, k: nat): nat
  {
    m * copies + k
  }

  /** Distinct copies of distinct or equal memories have distinct intended rows. */
  lemma IntendedBendRowsDistinct(copies: nat, m: nat, k: nat, m': nat, k': nat)
    requires k < copies && k' < copies && (m, k) != (m', k')
    ensures IntendedBendRow(copies, m, k) != IntendedBendRow(copies, m', k')
  {
    if IntendedBendRow(copies, m, k) == IntendedBendRow(copies, m', k') {
      var row := m * copies + k;
      DivUnique(row, copies, m, k);
      DivUnique(row, copies, m', k');
    }
  }

  /**
   * Every inner bend row the six-bit index reaches exists and covers every
   * bend.
   */
  predicate InnerRowsFit(c: Config, tb: Tables)
    requires RegionOk(c)
  {
    c.teimask != 0 ==> RowsCover(tb.bendInner, BendRows6(NVmTe(c), c.maxTEICopies), BendSpan(c))
  }

  /** Every overlap memory copy has a bend-cut row covering every bend. */
  predicate OverlapRowsFit(c: Config, tb: Tables)
    requires RegionOk(c)
  {
    c.olmask != 0 ==> RowsCover(tb.bendOverlap, NVmOl(c) * c.maxOLCopies, BendSpan(c))
  }

  /** Every outer memory copy has a bend-cut row covering every bend. */
  predicate OuterRowsFit(c: Config, tb: Tables)
    requires RegionOk(c)
  {
    c.teomask != 0 ==> RowsCover(tb.bendOuter, NVmTe(c) * c.maxTEOCopies, BendSpan(c))
  }

  /** A stub read from input k of this instance. */
  predicate StubOk(c: Config, t: Tagged)
  {
    t.channel < 6 && Fits(t.stub, FormatOf(c, t.channel))
  }

  /** Everything the per-stub arithmetic needs. */
  predicate StubPre(c: Config, tb: Tables, t: Tagged)
  {
    Wellformed(c) && LutsFit(c, tb) && StubOk(c, t)
  }

  /** The ME mask enables only memories the router holds. */
  predicate MEFit(c: Config)
    requires RegionOk(c)
  {
    MaskWindow(c.memask, FirstMe(c), NVmMe(c), 32)
  }

  /** What the inner-memory writes rely on: the mask's window and the bend rows. */
  predicate InnerFit(c: Config, tb: Tables)
  {
    RegionOk(c) && InnerRowsFit(c, tb) && MaskWindow(c.teimask, FirstTe(c), NVmTe(c), 32)
  }

  /** What the overlap-memory writes rely on: overlap memories only on layers 1 and 2, the mask's window and the bend rows. */
  predicate OverlapFit(c: Config, tb: Tables)
  {
    && RegionOk(c) && (c.olmask != 0 ==> c.layer == 1 || c.layer == 2)
    && OverlapRowsFit(c, tb) && MaskWindow(c.olmask, FirstOl(c), NVmOl(c), 16)
  }

  /** What the outer-memory writes rely on: the mask's window and the bend rows. */
  predicate OuterFit(c: Config, tb: Tables)
  {
    RegionOk(c) && OuterRowsFit(c, tb) && MaskWindow(c.teomask, FirstTe(c), NVmTe(c), 32)
  }

  /**
   * The instance is one the router can be built for: a six-bit input mask,
   * ME bins of at least three bits, masks that enable only memories the
   * router holds, and look-up and bend tables as large as the indices computed.
   */
  predicate RouterOk(c: Config, tb: Tables)
  {
    && Wellformed(c) && LutsFit(c, tb)
    && c.imask < Pow2(6) && c.meBinsBits >= 3
    && MEFit(c) && InnerFit(c, tb) && OverlapFit(c, tb) && OuterFit(c, tb)
  }

  /** What a router instance provides to each family of memories. */
  lemma InstanceOk(r: RouterInstance)
    ensures Wellformed(r.c) && LutsFit(r.c, r.tb)
    ensures MEFit(r.c) && InnerFit(r.c, r.tb) && OverlapFit(r.c, r.tb) && OuterFit(r.c, r.tb)
  {
  }

  /** A router instance: the configuration it is built with and the look-up tables it reads. */
  datatype Instance = Instance(c: Config, tb: Tables)

  /**
   * An instance the router can be built for. The witness is a layer 1
   * router with every output family disabled.
   */
  type RouterInstance = r: Instance | RouterOk(r.c, r.tb)
    witness Instance(
      Config(1, 0, 0, 0, 0, 0, 0, 0, 0, 0, 0, 0, 0, 3, 0, StubFormat(8, 7, 4, 0), StubFormat(8, 7, 4, 0)),
      Tables([], [0, 0, 0, 0, 0, 0, 0, 0], [], [], [], [], [], []))
}
