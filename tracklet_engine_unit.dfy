/**
 * One tracklet engine unit: it scans the outer stubs of the regions an inner
 * stub may pair with, one stub per tick, and queues the pairs that pass the
 * phi, rz and bend cuts in a sixteen-slot ring buffer.
 *
 * Every `ap_uint<N>` field is a natural number below 2^N (the subset types
 * below), so a field the constructor does not set holds an arbitrary value of
 * its width. The buffer holds the entries from the read cursor up to, not
 * including, the write cursor; both cursors advance modulo 16.
 */
module TrackletEngine {
  import opened Bits
  import opened Stubs

  type U1 = x: nat | x < 2
  type U3 = x: nat | x < 8
  type U4 = x: nat | x < 16
  type U16 = x: nat | x < 0x1_0000
  type U64 = x: nat | x < 0x1_0000_0000_0000_0000

  /** Slots of the candidate buffer: `1 << kNBitsBuffer` with a four-bit buffer index. */
  const BufferSize: nat := 16

  /** The inner stub as the engine reads it: its raw word, its fine phi and its three-bit bend. */
  datatype InnerStub = InnerStub(raw: nat, finePhi: nat, bend: U3)

  /** A buffered candidate (`STUBID`): the outer stub's index next to the inner stub's raw word. */
  datatype StubId = StubId(outerIndex: nat, innerRaw: nat)

  /** An outer stub record with the three-bit fine phi, fine z and bend fields the engine reads. */
  predicate OuterFits(s: VMStubTEOuter)
  {
    s.finePhi < 8 && s.fineZ < 8 && s.bend < 8
  }

  /**
   * The outer stub memory, read by bunch crossing and address (`read_mem`):
   * one page of 2^12 records for each of the eight bunch crossings.
   */
  type OuterMemory = seq<seq<VMStubTEOuter>>

  /** Every page of the memory is full size and holds well-formed records. */
  predicate MemoryFits(mem: OuterMemory)
  {
    && |mem| == 8
    && forall bx :: 0 <= bx < 8 ==> |mem[bx]| == 0x1000 && forall a :: 0 <= a < 0x1000 ==> OuterFits(mem[bx][a])
  }

  // ---------------------------------------------------------------------
  // Buffer occupancy and the status queries

  /** Entries between read cursor r and write cursor w on the ring of sixteen slots. */
  function Occupancy(w: U4, r: U4): (n: U4)
    ensures (r + n) % BufferSize == w
  {
    (w - r) % BufferSize
  }

  /** Moving the write cursor on adds one entry, unless all fifteen usable slots were taken: then the ring reads as empty. */
  lemma {:induction false} OccupancyWrite(w: U4, r: U4)
    ensures Occupancy((w + 1) % BufferSize, r) == if Occupancy(w, r) < 15 then Occupancy(w, r) + 1 else 0
  {
  }

  /** Moving the read cursor on removes one entry, unless there was none: then the ring reads as holding fifteen. */
  lemma {:induction false} OccupancyRead(w: U4, r: U4)
    ensures Occupancy(w, (r + 1) % BufferSize) == if Occupancy(w, r) > 0 then Occupancy(w, r) - 1 else 15
  {
  }

  /** `full()` as written: `writeindex_ + 1 == readindex_`, where the sum is not cut back to four bits. */
  predicate FullAsWritten(w: U4, r: U4)
    ensures FullAsWritten(w, r) <==> Occupancy(w, r) == 15 && w < r
  {
    w + 1 == r
  }

  /** `nearfull()` as written: `writeindex_ + 2` or `writeindex_ + 1` equals `readindex_`, again without the four-bit wrap. */
  predicate NearFullAsWritten(w: U4, r: U4)
    ensures NearFullAsWritten(w, r) <==> Occupancy(w, r) >= 14 && w < r
  {
    w + 2 == r || w + 1 == r
  }

  /** With the write cursor in the last slot and the read cursor in the first, the buffer holds fifteen entries but is not reported full. */
  lemma {:induction false} FullMissesLastSlot()
    ensures Occupancy(15, 0) == 15 && !FullAsWritten(15, 0)
    ensures Occupancy(14, 0) == 14 && !NearFullAsWritten(14, 0)
  {
  }

  /** `full()` with the four-bit index arithmetic: the next write slot is the read slot. */
  predicate Full(w: U4, r: U4)
    ensures Full(w, r) <==> Occupancy(w, r) == 15
  {
    (w + 1) % BufferSize == r
  }

  /** `nearfull()` with the four-bit index arithmetic: one of the next two write slots is the read slot. */
  predicate NearFull(w: U4, r: U4)
    ensures NearFull(w, r) <==> Occupancy(w, r) >= 14
  {
    (w + 2) % BufferSize == r || (w + 1) % BufferSize == r
  }

  /** The n entries of ring buf that start at slot r, oldest first. */
  function Window(buf: seq<StubId>, r: U4, n: nat): (s: seq<StubId>)
    requires |buf| == BufferSize && n <= BufferSize
    ensures |s| == n
  {
    seq(n, j requires 0 <= j < n => buf[(r + j) % BufferSize])
  }

  /** Storing x in the slot after the n entries of a ring that has room appends x to them. */
  lemma {:induction false} WindowPush(buf: seq<StubId>, r: U4, n: nat, x: StubId)
    requires |buf| == BufferSize && n < BufferSize
    ensures Window(buf[(r + n) % BufferSize := x], r, n + 1) == Window(buf, r, n) + [x]
  {
    var s, t := Window(buf[(r + n) % BufferSize := x], r, n + 1), Window(buf, r, n) + [x];
    forall j | 0 <= j < n + 1
      ensures s[j] == t[j]
    {
      if j < n {
        assert (r + j) % BufferSize == if r + j < BufferSize then r + j else r + j - BufferSize;
        assert (r + n) % BufferSize == if r + n < BufferSize then r + n else r + n - BufferSize;
      }
    }
  }

  /** Storing into the slot after the n entries leaves those entries alone: at most fifteen are queued, so that slot is never one of them. */
  lemma {:induction false} WindowKeep(buf: seq<StubId>, r: U4, n: nat, x: StubId)
    requires |buf| == BufferSize && n < BufferSize
    ensures Window(buf[(r + n) % BufferSize := x], r, n) == Window(buf, r, n)
  {
    WindowPush(buf, r, n, x);
    assert Window(buf[(r + n) % BufferSize := x], r, n) == Window(buf[(r + n) % BufferSize := x], r, n + 1)[..n];
  }

  /** Moving the start of a nonempty window on by one slot drops its oldest entry. */
  lemma {:induction false} WindowPop(buf: seq<StubId>, r: U4, n: nat)
    requires |buf| == BufferSize && 0 < n <= BufferSize
    ensures Window(buf, (r + 1) % BufferSize, n - 1) == Window(buf, r, n)[1..]
  {
    var s, t := Window(buf, (r + 1) % BufferSize, n - 1), Window(buf, r, n)[1..];
    forall j | 0 <= j < n - 1
      ensures s[j] == t[j]
    {
      assert ((r + 1) % BufferSize + j) % BufferSize == (r + (j + 1)) % BufferSize;
    }
  }

  // ---------------------------------------------------------------------
  // The pieces of one scan tick

  lemma {:induction false} Pow2Sixteen()
    ensures Pow2(16) == 0x1_0000
  {
    assert Pow2(4) == 16;
    Pow2Add(4, 4);
    Pow2Add(8, 8);
  }

  /**
   * The region scanned: the lowest set bit of the pending mask among bits
   * 0 .. 14, and 15 when none of those is set (whatever bit 15 is).
   */
  function RegionIndex(masktmp: nat): (m: U4)
    ensures m < 15 ==> Bit(masktmp, m)
    ensures forall j :: 0 <= j < m && j < 15 ==> !Bit(masktmp, j)
  {
    LowestSetBitIsLowest(masktmp, 0, 15);
    LowestSetBit(masktmp, 0, 15)
  }

  /** Number of stubs of region m: the four-bit field at bits 4m .. 4m + 3 of memstubs, where the counts are packed. */
  function RegionCount(memstubs: nat, m: nat): (n: U4)
  {
    if m == 0 then memstubs % 16 else RegionCount(memstubs / 16, m - 1)
  }

  /** Bit j of region m's count is bit 4m + j of memstubs. */
  lemma {:induction false} RegionCountBits(memstubs: nat, m: nat, j: nat)
    requires j < 4
    ensures Bit(RegionCount(memstubs, m), j) == Bit(memstubs, 4 * m + j)
  {
    if m == 0 {
      assert Pow2(4) == 16;
      TruncatedBit(memstubs, 4, j);
    } else {
      RegionCountBits(memstubs / 16, m - 1, j);
      NibbleShift(memstubs, 4 * (m - 1) + j);
    }
  }

  /** Address of stub istub of bin ibin of region ireg in the outer memory: the bit concatenation (ireg, ibin, istub). */
  function StubAddress(ireg: U3, ibin: U3, istub: U4): (a: nat)
    ensures a < 0x1000
  {
    ireg * 128 + ibin * 16 + istub
  }

  /** The three fields of an address read back as region, bin and stub. */
  lemma {:induction false} StubAddressFields(ireg: U3, ibin: U3, istub: U4)
    ensures var a := StubAddress(ireg, ibin, istub);
      a / 128 == ireg && (a / 16) % 8 == ibin && a % 16 == istub
  {
    var a := StubAddress(ireg, ibin, istub);
    DivUnique(a, 128, ireg, ibin * 16 + istub);
    DivUnique(a, 16, ireg * 8 + ibin, istub);
    DivUnique(ireg * 8 + ibin, 8, ireg, ibin);
  }

  /** The stub counter after a tick: one more, in four bits, and back to zero when that reaches the region's count. */
  function NextIStub(istub: U4, nstubs: U4): (next: U4)
    ensures istub < nstubs ==> next < nstubs
    ensures next != 0 ==> next == istub + 1
  {
    var istubtmp := (istub + 1) % 16;
    if istubtmp == nstubs then 0 else istubtmp
  }

  /** The stub counter after k ticks on a region of n stubs, starting from zero. */
  function IStubAfter(n: U4, k: nat): U4
  {
    if k == 0 then 0 else NextIStub(IStubAfter(n, k - 1), n)
  }

  /**
   * On a region of n stubs (sixteen when the four-bit count n is 0) the
   * counter visits stubs 0, 1, ..., in turn, each once, and is back at 0 after
   * the last one, which is the tick that clears the region's mask bit.
   */
  lemma {:induction false} IStubOrbit(n: U4, k: nat)
    requires k <= (if n == 0 then 16 else n)
    ensures k < (if n == 0 then 16 else n) ==> IStubAfter(n, k) == k
    ensures k == (if n == 0 then 16 else n) ==> IStubAfter(n, k) == 0
  {
    if k > 0 {
      IStubOrbit(n, k - 1);
    }
  }

  /**
   * Fine phi difference of the pair: the outer stub's fine phi prefixed with
   * the AllStub copy (1) and the region, as an eight-bit value, less the inner
   * stub's fine phi.
   */
  function PhiDiff(ireg: U3, outerFinePhi: U3, innerFinePhi: nat): int
  {
    (8 + ireg) * 8 + outerFinePhi - innerFinePhi
  }

  /**
   * The eight-bit outer phi the difference starts from reads back as the
   * AllStub copy 1 in its top two bits, then the region, then the fine phi.
   */
  lemma {:induction false} PhiDiffFields(ireg: U3, outerFinePhi: U3, innerFinePhi: nat)
    ensures var o := PhiDiff(ireg, outerFinePhi, innerFinePhi) + innerFinePhi;
      0 <= o < 256 && o / 64 == 1 && (o / 8) % 8 == ireg && o % 8 == outerFinePhi
  {
    var o := PhiDiff(ireg, outerFinePhi, innerFinePhi) + innerFinePhi;
    DivUnique(o, 64, 1, ireg * 8 + outerFinePhi);
    DivUnique(o, 8, 8 + ireg, outerFinePhi);
    DivUnique(8 + ireg, 8, 1, ireg);
  }

  /** The row of the bend tables a phi difference in the window selects: the difference taken modulo 32. */
  function PhiRow(idphi: int): (row: int)
    ensures -32 < idphi < 32 ==> 0 <= row < 32 && row == idphi % 32
  {
    if idphi < 0 then idphi + 32 else idphi
  }

  /** The rz bin of the outer stub, (next, fineZ), lies in the window [first, first + diffmax]. */
  predicate RzPass(next: U1, fineZ: U3, rzbinfirst: U3, rzbindiffmax: U3)
  {
    !(next * 8 + fineZ < rzbinfirst || next * 8 + fineZ > rzbinfirst + rzbindiffmax)
  }

  /**
   * Over the sixteen four-bit rz bins the passing ones form one run: its ends
   * rzbinfirst and rzbinfirst + rzbindiffmax pass, the bins just outside them
   * do not, and every bin between two passing bins passes.
   */
  lemma {:induction false} RzWindow(rzbinfirst: U3, rzbindiffmax: U3, b1: nat, b2: nat)
    requires b1 <= b2 < 16
    ensures RzPass(rzbinfirst / 8, rzbinfirst % 8, rzbinfirst, rzbindiffmax)
    ensures var e := rzbinfirst + rzbindiffmax; RzPass(e / 8, e % 8, rzbinfirst, rzbindiffmax)
    ensures rzbinfirst > 0 ==> var e := rzbinfirst - 1; !RzPass(e / 8, e % 8, rzbinfirst, rzbindiffmax)
    ensures var e := rzbinfirst + rzbindiffmax + 1; !RzPass(e / 8, e % 8, rzbinfirst, rzbindiffmax)
    ensures RzPass(b1 / 8, b1 % 8, rzbinfirst, rzbindiffmax) && RzPass(b2 / 8, b2 % 8, rzbinfirst, rzbindiffmax) ==>
      forall b :: b1 <= b <= b2 ==> RzPass(b / 8, b % 8, rzbinfirst, rzbindiffmax)
  {
  }

  /**
   * The cuts a pair must pass: phi difference strictly inside (-32, 32), both
   * bend tables set at (phi row, bend) and the rz bin in its window.
   */
  predicate PairPasses(ireg: U3, next: U1, outer: VMStubTEOuter, inner: InnerStub,
                       rzbinfirst: U3, rzbindiffmax: U3, ptinnerLUT: seq<bool>, ptouterLUT: seq<bool>)
    requires OuterFits(outer) && |ptinnerLUT| == 256 && |ptouterLUT| == 256
  {
    var idphi := PhiDiff(ireg, outer.finePhi, inner.finePhi);
    && -32 < idphi < 32
    && ptinnerLUT[PhiRow(idphi) * 8 + inner.bend]
    && ptouterLUT[PhiRow(idphi) * 8 + outer.bend]
    && RzPass(next, outer.fineZ, rzbinfirst, rzbindiffmax)
  }

  /**
   * The cuts read the bend tables at the row the masked form
   * ((32 + difference) & 31) gives, which is what the branch adding 32 to a
   * negative difference computes inside the window; and they depend on the
   * outer stub only through its fine phi, fine z and bend, not its index.
   */
  lemma {:induction false} PairPassesMasked(ireg: U3, next: U1, outer: VMStubTEOuter, inner: InnerStub,
                          rzbinfirst: U3, rzbindiffmax: U3, ptinnerLUT: seq<bool>, ptouterLUT: seq<bool>, index: nat)
    requires OuterFits(outer) && |ptinnerLUT| == 256 && |ptouterLUT| == 256
    ensures var idphi := PhiDiff(ireg, outer.finePhi, inner.finePhi);
      PairPasses(ireg, next, outer, inner, rzbinfirst, rzbindiffmax, ptinnerLUT, ptouterLUT)
      <==> && -32 < idphi < 32
           && ptinnerLUT[((32 + idphi) % 32) * 8 + inner.bend] && ptouterLUT[((32 + idphi) % 32) * 8 + outer.bend]
           && RzPass(next, outer.fineZ, rzbinfirst, rzbindiffmax)
    ensures PairPasses(ireg, next, outer.(index := index), inner, rzbinfirst, rzbindiffmax, ptinnerLUT, ptouterLUT)
      == PairPasses(ireg, next, outer, inner, rzbinfirst, rzbindiffmax, ptinnerLUT, ptouterLUT)
  {
  }

  /** Once region m (below 15) is finished and its bit cleared, the next region scanned comes after m. */
  lemma {:induction false} NextRegionLater(memmask: U16, maskmask: U16, masknext: U16)
    requires RegionIndex(And(memmask, maskmask)) < 15
    requires masknext == SetBit(maskmask, RegionIndex(And(memmask, maskmask)), false)
    ensures RegionIndex(And(memmask, masknext)) > RegionIndex(And(memmask, maskmask))
  {
    var m := RegionIndex(And(memmask, maskmask));
    var m' := RegionIndex(And(memmask, masknext));
    if m' <= m {
      AndBits(memmask, masknext, m');
      SetBitBits(maskmask, m, false, m');
      if m' < m {
        AndBits(memmask, maskmask, m');
      }
      assert false;
    }
  }

  /**
   * Storing x at the write slot w changes nothing the window shows when the
   * cursor stays; when the cursor moves on and the ring had room, x joins the
   * end of the window.
   */
  lemma {:induction false} StoreWindow(buf: seq<StubId>, w: U4, r: U4, x: StubId, save: bool)
    requires |buf| == BufferSize
    ensures !save ==> Window(buf[w := x], r, Occupancy(w, r)) == Window(buf, r, Occupancy(w, r))
    ensures save && Occupancy(w, r) < 15 ==>
      Window(buf[w := x], r, Occupancy((w + 1) % BufferSize, r)) == Window(buf, r, Occupancy(w, r)) + [x]
  {
    var n := Occupancy(w, r);
    if save {
      OccupancyWrite(w, r);
      if n < 15 {
        WindowPush(buf, r, n, x);
      }
    } else {
      WindowKeep(buf, r, n, x);
    }
  }

  // ---------------------------------------------------------------------
  // One tick on register values

  /** The registers `init` loads and a tick only reads. */
  datatype Loaded = Loaded(bx: U3, inner: InnerStub, memstubs: U64, memmask: U16,
                           slot: U3, rzbinfirst: U3, rzbindiffmax: U3)

  /** The registers a tick updates, apart from the buffer and its write cursor. */
  datatype Scan = Scan(idle: bool, istub: U4, maskmask: U16, ireg: U3, next: U1, nstubs: U4)

  /** The region a tick scans: the lowest region still pending in both masks, or 15. */
  function TickRegion(s: Scan, l: Loaded): U4
  {
    RegionIndex(And(l.memmask, s.maskmask))
  }

  /** Below 15, the region scanned is pending in both masks, and no lower region is. */
  lemma {:induction false} TickRegionLowest(s: Scan, l: Loaded)
    ensures var m := TickRegion(s, l);
      && (m < 15 ==> Bit(l.memmask, m) && Bit(s.maskmask, m))
      && (forall j :: 0 <= j < m && j < 15 ==> !(Bit(l.memmask, j) && Bit(s.maskmask, j)))
  {
    var m := TickRegion(s, l);
    AndBits(l.memmask, s.maskmask, m);
    forall j | 0 <= j < m && j < 15
      ensures !(Bit(l.memmask, j) && Bit(s.maskmask, j))
    {
      AndBits(l.memmask, s.maskmask, j);
    }
  }

  /** The scan registers after a tick. */
  function NextScan(s: Scan, l: Loaded): Scan
  {
    var m := TickRegion(s, l);
    var n := RegionCount(l.memstubs, m);
    var done := (s.istub + 1) % 16 == n;
    Pow2Sixteen();
    SetBitBound(s.maskmask, m, !done, 16);
    Scan(s.idle || n == 0 || (l.memmask == 0 && done), NextIStub(s.istub, n), SetBit(s.maskmask, m, !done), m % 8, m / 8, n)
  }

  /**
   * A tick scans region m and loads its count; the region's bit in the region
   * mask is cleared exactly when the stub counter wraps at that count, every
   * other bit is kept; the unit turns idle on an empty region, or on a
   * finished region under an empty memory mask, and never stops being idle.
   */
  lemma {:induction false} NextScanMeaning(s: Scan, l: Loaded)
    ensures var m, s' := TickRegion(s, l), NextScan(s, l);
      && s'.ireg == m % 8 && s'.next == m / 8 && s'.nstubs == RegionCount(l.memstubs, m)
      && s'.istub == NextIStub(s.istub, s'.nstubs)
      && (Bit(s'.maskmask, m) <==> (s.istub + 1) % 16 != s'.nstubs)
      && (forall j :: j != m ==> Bit(s'.maskmask, j) == Bit(s.maskmask, j))
      && (s'.idle <==> s.idle || s'.nstubs == 0 || (l.memmask == 0 && (s.istub + 1) % 16 == s'.nstubs))
  {
    var m := TickRegion(s, l);
    var done := (s.istub + 1) % 16 == RegionCount(l.memstubs, m);
    SetBitBits(s.maskmask, m, !done, m);
    forall j | j != m
      ensures Bit(SetBit(s.maskmask, m, !done), j) == Bit(s.maskmask, j)
    {
      SetBitBits(s.maskmask, m, !done, j);
    }
  }

  /** The outer stub a tick reads: stub istub of bin slot + next (in three bits) of the region's memory. */
  function TickOuter(s: Scan, l: Loaded, mem: OuterMemory): VMStubTEOuter
    requires MemoryFits(mem)
  {
    var m := TickRegion(s, l);
    mem[l.bx][StubAddress(m % 8, (l.slot + m / 8) % 8, s.istub)]
  }

  /**
   * The address a tick reads holds stub istub of the region's eight-bit bin
   * (slot + next) % 8 in the memory of region ireg, the two halves of the
   * scanned region's number.
   */
  lemma {:induction false} TickOuterAddress(s: Scan, l: Loaded, mem: OuterMemory)
    requires MemoryFits(mem)
    ensures var m := TickRegion(s, l);
      exists a :: 0 <= a < 0x1000 && TickOuter(s, l, mem) == mem[l.bx][a]
        && a / 128 == m % 8 && (a / 16) % 8 == (l.slot + m / 8) % 8 && a % 16 == s.istub
  {
    var m := TickRegion(s, l);
    var a := StubAddress(m % 8, (l.slot + m / 8) % 8, s.istub);
    StubAddressFields(m % 8, (l.slot + m / 8) % 8, s.istub);
    assert TickOuter(s, l, mem) == mem[l.bx][a];
  }

  /**
   * A tick stores its pair: the unit is not idle (nor does the region turn
   * out empty), the caller reports room, and the pair passes the cuts.
   */
  predicate TickSaves(s: Scan, l: Loaded, mem: OuterMemory,
                      ptinnerLUT: seq<bool>, ptouterLUT: seq<bool>, nearfull: bool)
    requires MemoryFits(mem) && |ptinnerLUT| == 256 && |ptouterLUT| == 256
  {
    var m := TickRegion(s, l);
    && !(s.idle || RegionCount(l.memstubs, m) == 0 || nearfull)
    && PairPasses(m % 8, m / 8, TickOuter(s, l, mem), l.inner, l.rzbinfirst, l.rzbindiffmax, ptinnerLUT, ptouterLUT)
  }

  /** A tick saves nothing once the unit is idle, or while the caller reports the buffer nearly full. */
  lemma {:induction false} IdleSavesNothing(s: Scan, l: Loaded, mem: OuterMemory,
                         ptinnerLUT: seq<bool>, ptouterLUT: seq<bool>, nearfull: bool)
    requires MemoryFits(mem) && |ptinnerLUT| == 256 && |ptouterLUT| == 256
    requires s.idle || nearfull
    ensures !TickSaves(s, l, mem, ptinnerLUT, ptouterLUT, nearfull)
    ensures s.idle ==> NextScan(s, l).idle
  {
  }

  /**
   * Once every pending region below 15 is finished, a tick scans region 15
   * whatever the masks say; under a nonempty memory mask the unit turns idle
   * only if region 15's count is zero, and otherwise rescans that region.
   */
  lemma {:induction false} DrainedRescansFifteen(s: Scan, l: Loaded)
    requires forall j :: 0 <= j < 15 ==> !(Bit(l.memmask, j) && Bit(s.maskmask, j))
    requires !s.idle && l.memmask != 0
    ensures TickRegion(s, l) == 15
    ensures NextScan(s, l).idle <==> RegionCount(l.memstubs, 15) == 0
  {
    var m := TickRegion(s, l);
    TickRegionLowest(s, l);
    if m < 15 {
      assert false;
    }
  }

  // ---------------------------------------------------------------------
  // The engine

  class TrackletEngineUnit {
    var memstubs: U64
    var memmask: U16
    var maskmask: U16
    var slot: U3
    var rzbinfirst: U3
    var rzbindiffmax: U3
    var ireg: U3
    var next: U1
    var nstubs: U4
    var innerstub: InnerStub
    var writeIndex: U4
    var readIndex: U4
    var idle: bool
    var bx: U3
    var istub: U4
    const stubids: array<StubId>

    ghost predicate Valid()
    {
      stubids.Length == BufferSize
    }

    /** The loaded registers. */
    function LoadedRegs(): Loaded
      reads this`bx, this`innerstub, this`memstubs, this`memmask, this`slot, this`rzbinfirst, this`rzbindiffmax
    {
      Loaded(bx, innerstub, memstubs, memmask, slot, rzbinfirst, rzbindiffmax)
    }

    /** The scan registers. */
    function ScanRegs(): Scan
      reads this`idle, this`istub, this`maskmask, this`ireg, this`next, this`nstubs
    {
      Scan(idle, istub, maskmask, ireg, next, nstubs)
    }

    /** Entries in the candidate buffer. */
    function Count(): (n: U4)
      reads this`writeIndex, this`readIndex
      ensures (readIndex + n) % BufferSize == writeIndex
    {
      Occupancy(writeIndex, readIndex)
    }

    /** The buffered candidates, oldest first. */
    ghost function Contents(): (s: seq<StubId>)
      requires Valid()
      reads this`writeIndex, this`readIndex, stubids
      ensures |s| == Count()
    {
      Window(stubids[..], readIndex, Count())
    }

    /** A new unit is idle and its stub counter is zero; every other register holds an arbitrary value. */
    constructor ()
      ensures Valid() && fresh(stubids)
      ensures idle && istub == 0
    {
      stubids := new StubId[BufferSize];
      idle := true;
      istub := 0;
    }

    /**
     * Loads the unit for one inner stub: it stops being idle, restarts the stub
     * counter and the region mask, and keeps the buffer and its cursors.
     */
    method Init(bxin: U3, inner: InnerStub, memstubsIn: U64, memmaskIn: U16, slotIn: U3,
                rzbinfirstIn: U3, rzbindiffmaxIn: U3)
      modifies this`idle, this`bx, this`memstubs, this`memmask, this`maskmask, this`istub,
               this`innerstub, this`slot, this`rzbinfirst, this`rzbindiffmax
      ensures LoadedRegs() == Loaded(bxin, inner, memstubsIn, memmaskIn, slotIn, rzbinfirstIn, rzbindiffmaxIn)
      ensures ScanRegs() == Scan(false, 0, 0xFFFF, old(ireg), old(next), old(nstubs))
    {
      idle := false;
      bx := bxin;
      memstubs := memstubsIn;
      memmask := memmaskIn;
      // All ones, cut to the sixteen bits of the register.
      maskmask := 0xFFFF_FFFF % 0x1_0000;
      istub := 0;
      innerstub := inner;
      slot := slotIn;
      rzbinfirst := rzbinfirstIn;
      rzbindiffmax := rzbindiffmaxIn;
    }

    /** Empties the buffer and makes the unit idle. */
    method Reset()
      requires Valid()
      modifies this`writeIndex, this`readIndex, this`idle
      ensures writeIndex == 0 && readIndex == 0
      ensures Empty() && Contents() == [] && Idle()
    {
      writeIndex := 0;
      readIndex := 0;
      idle := true;
    }

    /** The buffer is empty: the cursors coincide. */
    predicate Empty()
      reads this
      ensures Empty() <==> Count() == 0
    {
      writeIndex == readIndex
    }

    /** The unit has no more stubs to scan: the idle register a tick can only turn on (see Step). */
    predicate Idle()
      reads this
      ensures Idle() <==> ScanRegs().idle
    {
      idle
    }

    /** `full()` as the engine reports it; see FullAsWritten. */
    predicate FullReported()
      reads this
      ensures FullReported() <==> Full(writeIndex, readIndex) && writeIndex < readIndex
      ensures FullReported() <==> Count() == 15 && writeIndex < readIndex
    {
      FullAsWritten(writeIndex, readIndex)
    }

    /** `nearfull()` as the engine reports it; see NearFullAsWritten. */
    predicate NearFullReported()
      reads this
      ensures NearFullReported() <==> NearFull(writeIndex, readIndex) && writeIndex < readIndex
      ensures NearFullReported() ==> Count() >= 14
      ensures FullReported() ==> NearFullReported()
    {
      NearFullAsWritten(writeIndex, readIndex)
    }

    /**
     * Takes the candidate at the read cursor and moves the cursor on. When the
     * buffer held something, that is its oldest entry and it leaves the
     * buffer; the buffer is read without a check, and reading an empty one
     * makes it look as if it held fifteen entries.
     */
    method Read() returns (x: StubId)
      requires Valid()
      modifies this`readIndex
      ensures x == stubids[old(readIndex)] && readIndex == (old(readIndex) + 1) % BufferSize
      ensures old(Count()) > 0 ==> x == old(Contents())[0] && Contents() == old(Contents())[1..]
      ensures old(Count()) == 0 ==> Count() == 15
    {
      x := stubids[readIndex];
      readIndex := (readIndex + 1) % BufferSize;
      OccupancyRead(writeIndex, old(readIndex));
      if old(Count()) > 0 {
        WindowPop(stubids[..], old(readIndex), old(Count()));
      }
    }

    /**
     * Stores a candidate at the write cursor and moves the cursor on. With
     * room left the candidate joins the end of the buffer; there is no check,
     * and a write into a buffer of fifteen entries leaves it reading as empty.
     */
    method Write(x: StubId)
      requires Valid()
      modifies this`writeIndex, stubids
      ensures stubids[..] == old(stubids[..])[old(writeIndex) := x]
      ensures writeIndex == (old(writeIndex) + 1) % BufferSize
      ensures old(Count()) < 15 ==> Contents() == old(Contents()) + [x]
      ensures old(Count()) == 15 ==> Contents() == []
    {
      stubids[writeIndex] := x;
      writeIndex := (writeIndex + 1) % BufferSize;
      OccupancyWrite(old(writeIndex), readIndex);
      if old(Count()) < 15 {
        WindowPush(old(stubids[..]), readIndex, old(Count()), x);
      }
    }

    /**
     * The start of a tick: picks the lowest region pending in both masks (15
     * when none is), loads its stub count, turns idle on an empty region, and
     * says whether the tick may save a pair.
     */
    method SelectRegion(nearfull: bool) returns (good: bool, memindex: U4)
      modifies this`next, this`ireg, this`nstubs, this`idle
      ensures memindex == TickRegion(old(ScanRegs()), LoadedRegs())
      ensures next == memindex / 8 && ireg == memindex % 8 && nstubs == RegionCount(memstubs, memindex)
      ensures idle == (old(idle) || nstubs == 0) && good == !(idle || nearfull)
    {
      AndBound(memmask, maskmask);
      var masktmp: U16 := And(memmask, maskmask);
      memindex := RegionIndex(masktmp);
      next, ireg := memindex / 8, memindex % 8;
      nstubs := RegionCount(memstubs, memindex);
      idle := idle || nstubs == 0;
      good := !(idle || nearfull);
    }

    /**
     * The end of a tick's scan: the stub counter moves on and wraps at the
     * region's count, the region's bit is cleared when it wraps, and the unit
     * turns idle when it wraps under an empty memory mask.
     */
    method MoveCounter(memindex: U4)
      modifies this`istub, this`maskmask, this`idle
      ensures istub == NextIStub(old(istub), nstubs)
      ensures maskmask == SetBit(old(maskmask), memindex, (old(istub) + 1) % 16 != nstubs)
      ensures idle == (old(idle) || (memmask == 0 && (old(istub) + 1) % 16 == nstubs))
    {
      var istubtmp: U4 := (istub + 1) % 16;
      var allstubs := istubtmp == nstubs;
      istub := if allstubs then 0 else istubtmp;
      Pow2Sixteen();
      SetBitBound(maskmask, memindex, !allstubs, 16);
      maskmask := SetBit(maskmask, memindex, !allstubs);
      idle := idle || (memmask == 0 && allstubs);
    }

    /** The end of a tick: the pair always goes to the write slot, and the write cursor moves on only when it is saved. */
    method Store(x: StubId, save: bool)
      requires Valid()
      modifies this`writeIndex, stubids
      ensures stubids[..] == old(stubids[..])[old(writeIndex) := x]
      ensures writeIndex == (old(writeIndex) + if save then 1 else 0) % BufferSize
      ensures !save ==> Contents() == old(Contents())
      ensures save && old(Count()) < 15 ==> Contents() == old(Contents()) + [x]
    {
      ghost var buf, w := stubids[..], writeIndex;
      stubids[writeIndex] := x;
      writeIndex := (writeIndex + if save then 1 else 0) % BufferSize;
      assert stubids[..] == buf[w := x];
      StoreWindow(buf, w, readIndex, x, save);
    }

    /**
     * One scan tick. It picks the region, reads that region's count and its
     * current outer stub, moves the stub counter and the region mask on
     * whether or not the tick is a bubble, turns idle when the region is empty
     * (or the whole mask is and the region is finished), and writes the pair
     * to the write cursor, which moves on only when the pair is saved.
     */
    method Step(mem: OuterMemory, ptinnerLUT: seq<bool>, ptouterLUT: seq<bool>, nearfull: bool)
      requires Valid() && MemoryFits(mem) && |ptinnerLUT| == 256 && |ptouterLUT| == 256
      modifies this`idle, this`istub, this`maskmask, this`ireg, this`next, this`nstubs, this`writeIndex, stubids
      ensures ScanRegs() == NextScan(old(ScanRegs()), old(LoadedRegs()))
      ensures var pair := StubId(TickOuter(old(ScanRegs()), old(LoadedRegs()), mem).index, innerstub.raw);
        var saves := TickSaves(old(ScanRegs()), old(LoadedRegs()), mem, ptinnerLUT, ptouterLUT, nearfull);
        && stubids[..] == old(stubids[..])[old(writeIndex) := pair]
        && writeIndex == (old(writeIndex) + if saves then 1 else 0) % BufferSize
        && (!saves ==> Contents() == old(Contents()))
        && (saves && old(Count()) < 15 ==> Contents() == old(Contents()) + [pair])
    ensures old(Idle()) ==> Idle() && writeIndex == old(writeIndex)
    {
      ghost var s0, l0 := ScanRegs(), LoadedRegs();
      var good, memindex := SelectRegion(nearfull);
      var ibin: U3 := (slot + next) % 8;
      var stubadd := StubAddress(ireg, ibin, istub);
      MoveCounter(memindex);
      assert ScanRegs() == NextScan(s0, l0);
      var outervmstub := mem[bx][stubadd];
      var savestub := good && PairPasses(ireg, next, outervmstub, innerstub, rzbinfirst, rzbindiffmax, ptinnerLUT, ptouterLUT);
      assert outervmstub == TickOuter(s0, l0, mem);
      assert savestub == TickSaves(s0, l0, mem, ptinnerLUT, ptouterLUT, nearfull);
      Store(StubId(outervmstub.index, innerstub.raw), savestub);
      if s0.idle {
        IdleSavesNothing(s0, l0, mem, ptinnerLUT, ptouterLUT, nearfull);
      }
    }
  }
}
