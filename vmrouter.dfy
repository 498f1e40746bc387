/**
 * The router itself: one call empties the enabled output memories, then
 * reads up to maxProc stubs from its inputs in input priority and writes
 * each to the AllStub copies, the ME memories and the inner, overlap and
 * outer pairing memories, as the functions of StubRoute decide.
 *
 * The memories are arrays indexed as the router's arguments are; an
 * AllStub, inner or overlap copy is an address-to-record map, and an ME or
 * outer copy is the list of (bin, record) entries appended to it.
 */
module VMRouterMain {
  import opened Bits
  import opened Stubs
  import opened VMRouterFunctions
  import opened RouterConfig
  import opened StubRoute
  import opened InputStream
  import opened RouterSpec
  import opened InputReader

  /** The output memory arrays have the sizes the instance gives them. */
  predicate Shaped(c: Config, allStub: array<map<nat, InputStub>>, me: array<seq<Binned<VMStubME>>>,
                   tei: array2<map<nat, VMStubTEInner>>, ol: array2<map<nat, VMStubTEInner>>,
                   teo: array2<seq<Binned<VMStubTEOuter>>>)
  {
    && RegionOk(c)
    && allStub.Length == c.maxAllCopies
    && me.Length == NVmMe(c)
    && tei.Length0 == NVmTe(c) && tei.Length1 == c.maxTEICopies
    && ol.Length0 == NVmOl(c) && ol.Length1 == c.maxOLCopies
    && teo.Length0 == NVmTe(c) && teo.Length1 == c.maxTEOCopies
  }

  // ---------------------------------------------------------------------
  // Clearing the outputs

  /** Every AllStub copy is emptied. */
  method ClearAllStub(allStub: array<map<nat, InputStub>>)
    modifies allStub
    ensures forall n :: 0 <= n < allStub.Length ==> allStub[n] == map[]
  {
    for n := 0 to allStub.Length
      invariant forall x :: 0 <= x < n ==> allStub[x] == map[]
    {
      allStub[n] := map[];
    }
  }

  /** ME memory j is emptied when the mask enables module firstme + j. */
  method ClearME(c: Config, firstme: nat, me: array<seq<Binned<VMStubME>>>)
    requires firstme == FirstMe(c)
    modifies me
    ensures forall j :: 0 <= j < me.Length ==> me[j] == MEBase(c, old(me[j]), j)
  {
    if c.memask != 0 {
      for j := 0 to me.Length
        invariant forall x :: 0 <= x < j ==> me[x] == MEBase(c, old(me[x]), x)
        invariant forall x :: j <= x < me.Length ==> me[x] == old(me[x])
      {
        if Bit(c.memask, j + firstme) {
          me[j] := [];
        }
      }
    } else {
      forall j | 0 <= j < me.Length
        ensures me[j] == MEBase(c, old(me[j]), j)
      {
        ZeroHasNoBits(j + firstme);
      }
    }
  }

  /** Every copy of address-counted row m is emptied when the mask enables module first + m. */
  method ClearRows<T>(mask: nat, first: nat, rows: array2<map<nat, T>>)
    modifies rows
    ensures forall m, k :: 0 <= m < rows.Length0 && 0 <= k < rows.Length1 ==>
      rows[m, k] == RowBase(mask, first, old(rows[m, k]), m)
  {
    if mask != 0 {
      for m := 0 to rows.Length0
        invariant forall x, k :: 0 <= x < m && 0 <= k < rows.Length1 ==> rows[x, k] == RowBase(mask, first, old(rows[x, k]), x)
        invariant forall x, k :: m <= x < rows.Length0 && 0 <= k < rows.Length1 ==> rows[x, k] == old(rows[x, k])
      {
        if Bit(mask, m + first) {
          for k := 0 to rows.Length1
            invariant forall x, y :: 0 <= x < m && 0 <= y < rows.Length1 ==> rows[x, y] == RowBase(mask, first, old(rows[x, y]), x)
            invariant forall y :: 0 <= y < k ==> rows[m, y] == map[]
            invariant forall x, y :: (m < x < rows.Length0 || (x == m && k <= y)) && 0 <= x < rows.Length0 && 0 <= y < rows.Length1 ==>
              rows[x, y] == old(rows[x, y])
          {
            rows[m, k] := map[];
          }
        }
      }
    } else {
      forall m, k | 0 <= m < rows.Length0 && 0 <= k < rows.Length1
        ensures rows[m, k] == RowBase(mask, first, old(rows[m, k]), m)
      {
        ZeroHasNoBits(m + first);
      }
    }
  }

  /** Every copy of binned row m is emptied when the mask enables module first + m. */
  method ClearBinnedRows<T>(mask: nat, first: nat, rows: array2<seq<T>>)
    modifies rows
    ensures forall m, k :: 0 <= m < rows.Length0 && 0 <= k < rows.Length1 ==>
      rows[m, k] == BinnedBase(mask, first, old(rows[m, k]), m)
  {
    if mask != 0 {
      for m := 0 to rows.Length0
        invariant forall x, k :: 0 <= x < m && 0 <= k < rows.Length1 ==> rows[x, k] == BinnedBase(mask, first, old(rows[x, k]), x)
        invariant forall x, k :: m <= x < rows.Length0 && 0 <= k < rows.Length1 ==> rows[x, k] == old(rows[x, k])
      {
        if Bit(mask, m + first) {
          for k := 0 to rows.Length1
            invariant forall x, y :: 0 <= x < m && 0 <= y < rows.Length1 ==> rows[x, y] == BinnedBase(mask, first, old(rows[x, y]), x)
            invariant forall y :: 0 <= y < k ==> rows[m, y] == []
            invariant forall x, y :: (m < x < rows.Length0 || (x == m && k <= y)) && 0 <= x < rows.Length0 && 0 <= y < rows.Length1 ==>
              rows[x, y] == old(rows[x, y])
          {
            rows[m, k] := [];
          }
        }
      }
    } else {
      forall m, k | 0 <= m < rows.Length0 && 0 <= k < rows.Length1
        ensures rows[m, k] == BinnedBase(mask, first, old(rows[m, k]), m)
      {
        ZeroHasNoBits(m + first);
      }
    }
  }

  // ---------------------------------------------------------------------
  // Writing one stub

  /** The stub goes to address i of every AllStub copy. */
  method WriteAllStub(allStub: array<map<nat, InputStub>>, i: nat, stub: InputStub)
    modifies allStub
    ensures forall n :: 0 <= n < allStub.Length ==> allStub[n] == old(allStub[n])[i := stub]
  {
    for n := 0 to allStub.Length
      invariant forall x :: 0 <= x < n ==> allStub[x] == old(allStub[x])[i := stub]
      invariant forall x :: n <= x < allStub.Length ==> allStub[x] == old(allStub[x])
    {
      allStub[n] := allStub[n][i := stub];
    }
  }

  /**
   * Appends x to memory n - first for every module n below 32 that the mask
   * enables and that is lo or hi.
   */
  method AppendToModules<T>(mems: array<seq<T>>, mask: nat, first: nat, lo: nat, hi: nat, x: T)
    requires mask != 0 && MaskWindow(mask, first, mems.Length, 32)
    modifies mems
    ensures forall j :: 0 <= j < mems.Length ==>
      mems[j] == old(mems[j]) + (if Bit(mask, j + first) && (lo == j + first || hi == j + first) then [x] else [])
  {
    for n := 0 to 32
      invariant forall j :: 0 <= j < mems.Length ==>
        mems[j] == old(mems[j]) + (if j + first < n && Bit(mask, j + first) && (lo == j + first || hi == j + first) then [x] else [])
    {
      if Bit(mask, n) {
        if lo == n || hi == n {
          InWindow(mask, first, mems.Length, 32, n);
          mems[n - first] := mems[n - first] + [x];
        }
      }
    }
  }

  /**
   * Writes x at the next address of copy k of row m, and counts it, for every
   * k whose bend flag table[Row6(base, k)][bend] is set: the table index is six
   * bits wide and wraps at 64.
   */
  method WriteCopiesWrapped<T>(rows: array2<map<nat, T>>, addr: array2<nat>, m: nat,
                               table: seq<seq<bool>>, base: nat, bend: nat, x: T)
    requires m < rows.Length0 && addr.Length0 == rows.Length0 && addr.Length1 == rows.Length1
    requires base < 64
    requires forall k :: 0 <= k < rows.Length1 ==> Row6(base, k) < |table| && bend < |table[Row6(base, k)]|
    modifies rows, addr
    ensures forall a, k :: 0 <= a < rows.Length0 && 0 <= k < rows.Length1 ==>
      var w := a == m && table[Row6(base, k)][bend];
      && rows[a, k] == (if w then old(rows[a, k])[old(addr[a, k]) := x] else old(rows[a, k]))
      && addr[a, k] == old(addr[a, k]) + (if w then 1 else 0)
  {
    var bendindex := base;
    ModSmall(base, 64);
    for n := 0 to rows.Length1
      invariant bendindex == Row6(base, n)
      invariant forall a, k :: 0 <= a < rows.Length0 && 0 <= k < rows.Length1 ==>
        var w := a == m && k < n && table[Row6(base, k)][bend];
        && rows[a, k] == (if w then old(rows[a, k])[old(addr[a, k]) := x] else old(rows[a, k]))
        && addr[a, k] == old(addr[a, k]) + (if w then 1 else 0)
    {
      var passbend := table[bendindex][bend];
      if passbend {
        rows[m, n] := rows[m, n][addr[m, n] := x];
        addr[m, n] := addr[m, n] + 1;
      }
      ModSucc(base + n, 64);
      bendindex := (bendindex + 1) % 64;
    }
  }

  /**
   * Writes x at the next address of copy k of row m, and counts it, for every
   * k whose bend flag table[base + k][bend] is set.
   */
  method WriteCopies<T>(rows: array2<map<nat, T>>, addr: array2<nat>, m: nat,
                        table: seq<seq<bool>>, base: nat, bend: nat, x: T)
    requires m < rows.Length0 && addr.Length0 == rows.Length0 && addr.Length1 == rows.Length1
    requires base + rows.Length1 <= |table| && RowsCover(table[base..], rows.Length1, bend + 1)
    modifies rows, addr
    ensures forall a, k :: 0 <= a < rows.Length0 && 0 <= k < rows.Length1 ==>
      var w := a == m && table[base + k][bend];
      && rows[a, k] == (if w then old(rows[a, k])[old(addr[a, k]) := x] else old(rows[a, k]))
      && addr[a, k] == old(addr[a, k]) + (if w then 1 else 0)
  {
    for n := 0 to rows.Length1
      invariant forall a, k :: 0 <= a < rows.Length0 && 0 <= k < rows.Length1 ==>
        var w := a == m && k < n && table[base + k][bend];
        && rows[a, k] == (if w then old(rows[a, k])[old(addr[a, k]) := x] else old(rows[a, k]))
        && addr[a, k] == old(addr[a, k]) + (if w then 1 else 0)
    {
      RowCovered(table[base..], rows.Length1, bend + 1, n);
      var passbend := table[base + n][bend];
      if passbend {
        rows[m, n] := rows[m, n][addr[m, n] := x];
        addr[m, n] := addr[m, n] + 1;
      }
    }
  }

  /** Appends x to copy k of row m for every k whose bend flag table[base + k][bend] is set. */
  method AppendToCopies<T>(rows: array2<seq<T>>, m: nat, table: seq<seq<bool>>, base: nat, bend: nat, x: T)
    requires m < rows.Length0
    requires base + rows.Length1 <= |table| && RowsCover(table[base..], rows.Length1, bend + 1)
    modifies rows
    ensures forall a, k :: 0 <= a < rows.Length0 && 0 <= k < rows.Length1 ==>
      rows[a, k] == old(rows[a, k]) + (if a == m && table[base + k][bend] then [x] else [])
  {
    for n := 0 to rows.Length1
      invariant forall a, k :: 0 <= a < rows.Length0 && 0 <= k < rows.Length1 ==>
        rows[a, k] == old(rows[a, k]) + (if a == m && k < n && table[base + k][bend] then [x] else [])
    {
      RowCovered(table[base..], rows.Length1, bend + 1, n);
      var passbend := table[base + n][bend];
      if passbend {
        rows[m, n] := rows[m, n] + [x];
      }
    }
  }

  /** The ME record of the i-th stub is appended to every enabled ME memory among its module and neighbour. */
  method WriteME(c: Config, tb: Tables, i: nat, t: Tagged, firstme: nat, me: array<seq<Binned<VMStubME>>>)
    requires StubPre(c, tb, t) && c.memask != 0 && MEFit(c)
    requires firstme == FirstMe(c) && me.Length == NVmMe(c)
    modifies me
    ensures forall j :: 0 <= j < me.Length ==>
      me[j] == old(me[j]) + (if MEWrites(c, tb, t, j + firstme) then [MEEntry(c, tb, i, t)] else [])
  {
    var p := MEPlace(c, tb, t);
    var stubme := MEEntry(c, tb, i, t);
    AppendToModules(me, c.memask, firstme, p.span.minus, p.span.plus, stubme);
  }

  /** The inner record goes, at each copy's next address, to the copies of its row whose bend cut it passes. */
  method WriteTEInner(c: Config, tb: Tables, i: nat, t: Tagged, firstte: nat,
                      tei: array2<map<nat, VMStubTEInner>>, addr: array2<nat>)
    requires InnerPre(c, tb, t) && c.teimask != 0 && !Disk2S(c, t.channel)
    requires firstte == FirstTe(c) && tei.Length0 == NVmTe(c) && tei.Length1 == c.maxTEICopies
    requires addr.Length0 == tei.Length0 && addr.Length1 == tei.Length1
    modifies tei, addr
    ensures forall m, k :: 0 <= m < tei.Length0 && 0 <= k < tei.Length1 ==>
      var w := TEIWrites(c, tb, t, m, k);
      && tei[m, k] == (if w then old(tei[m, k])[old(addr[m, k]) := TEIStub(c, tb, i, t)] else old(tei[m, k]))
      && addr[m, k] == old(addr[m, k]) + (if w then 1 else 0)
  {
    var stubTeInner := TEIStub(c, tb, i, t);
    var rzbits := TEIZBits(c, tb, t);
    var ivm := TEVm(c, tb, t);
    if rzbits <= 1024 && Bit(c.teimask, ivm) {
      var memindex := (ivm - firstte) % 8;
      WriteTEInnerRow(c, tb, t, stubTeInner, memindex, tei, addr);
    } else {
      assert !TEIAccepted(c, tb, t);
    }
  }

  /** An accepted inner stub goes, at each copy's next address, to the copies of its row whose bend cut it passes. */
  method WriteTEInnerRow(c: Config, tb: Tables, t: Tagged, x: VMStubTEInner, memindex: nat,
                         tei: array2<map<nat, VMStubTEInner>>, addr: array2<nat>)
    requires InnerPre(c, tb, t) && TEIAccepted(c, tb, t) && memindex == TEIMem(c, tb, t)
    requires tei.Length0 == NVmTe(c) && tei.Length1 == c.maxTEICopies
    requires addr.Length0 == tei.Length0 && addr.Length1 == tei.Length1
    modifies tei, addr
    ensures forall m, k :: 0 <= m < tei.Length0 && 0 <= k < tei.Length1 ==>
      var w := TEIWrites(c, tb, t, m, k);
      && tei[m, k] == (if w then old(tei[m, k])[old(addr[m, k]) := x] else old(tei[m, k]))
      && addr[m, k] == old(addr[m, k]) + (if w then 1 else 0)
  {
    var bendindex := (memindex * c.maxTEICopies) % 64;
    TEICells(c, tb, t, memindex, bendindex);
    WriteCopiesWrapped(tei, addr, memindex, tb.bendInner, bendindex, t.stub.bend, x);
  }

  /** The overlap record goes, at each copy's next address, to the copies of its row whose bend cut it passes. */
  method WriteOverlap(c: Config, tb: Tables, i: nat, t: Tagged, firstol: nat,
                      ol: array2<map<nat, VMStubTEInner>>, addr: array2<nat>)
    requires OverlapPre(c, tb, t) && c.olmask != 0
    requires firstol == FirstOl(c) && ol.Length0 == NVmOl(c) && ol.Length1 == c.maxOLCopies
    requires addr.Length0 == ol.Length0 && addr.Length1 == ol.Length1
    modifies ol, addr
    ensures forall m, k :: 0 <= m < ol.Length0 && 0 <= k < ol.Length1 ==>
      && ol[m, k] == (if OLWrites(c, tb, t, m, k) then old(ol[m, k])[old(addr[m, k]) := OLStub(c, tb, i, t)] else old(ol[m, k]))
      && addr[m, k] == old(addr[m, k]) + (if OLWrites(c, tb, t, m, k) then 1 else 0)
  {
    var overlap := OLZBits(c, tb, t);
    if overlap != 1023 {
      var ivmol := OLVm(c, tb, t);
      var stubOL := OLStub(c, tb, i, t);
      if Bit(c.olmask, ivmol) {
        OLRow(c, tb, t);
        var memindex := ivmol - firstol;
        var bendindex: int := memindex * c.maxOLCopies;
        OLCells(c, tb, t, memindex, bendindex);
        WriteCopies(ol, addr, memindex, tb.bendOverlap, bendindex, t.stub.bend, stubOL);
      }
    }
  }

  /** The outer record is appended, in its bin, to the copies of its row whose bend cut it passes. */
  method WriteTEOuter(c: Config, tb: Tables, i: nat, t: Tagged, firstte: nat,
                      teo: array2<seq<Binned<VMStubTEOuter>>>)
    requires OuterPre(c, tb, t) && c.teomask != 0 && !Disk2S(c, t.channel)
    requires firstte == FirstTe(c) && teo.Length0 == NVmTe(c) && teo.Length1 == c.maxTEOCopies
    modifies teo
    ensures forall m, k :: 0 <= m < teo.Length0 && 0 <= k < teo.Length1 ==>
      teo[m, k] == old(teo[m, k]) + (if TEOWrites(c, tb, t, m, k) then [TEOEntry(c, tb, i, t)] else [])
  {
    var entry := TEOEntry(c, tb, i, t);
    var ivm := TEVm(c, tb, t);
    if Bit(c.teomask, ivm) {
      TEORow(c, tb, t);
      var memindex := ivm - firstte;
      var bendindex: int := memindex * c.maxTEOCopies;
      TEOCells(c, tb, t, memindex, bendindex);
      AppendToCopies(teo, memindex, tb.bendOuter, bendindex, t.stub.bend, entry);
    }
  }

  // ---------------------------------------------------------------------
  // The memories after the first stubs processed

  /** Every AllStub copy holds the stubs st at their processing positions. */
  ghost predicate AllStubHolds(allStub: array<map<nat, InputStub>>, st: seq<Tagged>)
    reads allStub
  {
    forall n :: 0 <= n < allStub.Length ==> allStub[n] == AllStubMap(st)
  }

  /** ME memory j holds its base contents followed by the records st sent to module j + first. */
  ghost predicate MEHolds(c: Config, tb: Tables, me: array<seq<Binned<VMStubME>>>, base: seq<seq<Binned<VMStubME>>>,
                          st: seq<Tagged>, first: nat)
    reads me
  {
    |base| == me.Length && forall j :: 0 <= j < me.Length ==> me[j] == base[j] + MEList(c, tb, st, j + first)
  }

  /** Inner copy (m, k) holds the records st sent to it at addresses 0, 1, ... over its base, and counts them. */
  ghost predicate TEIHolds(c: Config, tb: Tables, tei: array2<map<nat, VMStubTEInner>>, addr: array2<nat>,
                           base: seq<seq<map<nat, VMStubTEInner>>>, st: seq<Tagged>)
    reads tei, addr
  {
    && |base| == tei.Length0 == addr.Length0 && tei.Length1 == addr.Length1
    && (forall m :: 0 <= m < tei.Length0 ==> |base[m]| == tei.Length1)
    && forall m, k :: 0 <= m < tei.Length0 && 0 <= k < tei.Length1 ==>
         tei[m, k] == Written(base[m][k], TEIList(c, tb, st, m, k)) && addr[m, k] == |TEIList(c, tb, st, m, k)|
  }

  /** Overlap copy (m, k) holds the records st sent to it at addresses 0, 1, ... over its base, and counts them. */
  ghost predicate OLHolds(c: Config, tb: Tables, ol: array2<map<nat, VMStubTEInner>>, addr: array2<nat>,
                          base: seq<seq<map<nat, VMStubTEInner>>>, st: seq<Tagged>)
    reads ol, addr
  {
    && |base| == ol.Length0 == addr.Length0 && ol.Length1 == addr.Length1
    && (forall m :: 0 <= m < ol.Length0 ==> |base[m]| == ol.Length1)
    && forall m, k :: 0 <= m < ol.Length0 && 0 <= k < ol.Length1 ==>
         ol[m, k] == Written(base[m][k], OLList(c, tb, st, m, k)) && addr[m, k] == |OLList(c, tb, st, m, k)|
  }

  /** Outer copy (m, k) holds its base contents followed by the records st sent to it. */
  ghost predicate TEOHolds(c: Config, tb: Tables, teo: array2<seq<Binned<VMStubTEOuter>>>,
                           base: seq<seq<seq<Binned<VMStubTEOuter>>>>, st: seq<Tagged>)
    reads teo
  {
    && |base| == teo.Length0
    && (forall m :: 0 <= m < teo.Length0 ==> |base[m]| == teo.Length1)
    && forall m, k :: 0 <= m < teo.Length0 && 0 <= k < teo.Length1 ==>
         teo[m, k] == base[m][k] + TEOList(c, tb, st, m, k)
  }

  /** The contents of a two-dimensional array, row by row. */
  ghost function Rows<T>(a: array2<T>): (r: seq<seq<T>>)
    reads a
    ensures |r| == a.Length0
    ensures forall m :: 0 <= m < a.Length0 ==> |r[m]| == a.Length1
    ensures forall m, k :: 0 <= m < a.Length0 && 0 <= k < a.Length1 ==> r[m][k] == a[m, k]
  {
    seq(a.Length0, m requires 0 <= m < a.Length0 reads a => seq(a.Length1, k requires 0 <= k < a.Length1 reads a => a[m, k]))
  }

  // ---------------------------------------------------------------------
  // Processing one stub

  /** The i-th stub goes to address i of every AllStub copy. */
  method StepAllStub(allStub: array<map<nat, InputStub>>, i: nat, t: Tagged, ghost st: seq<Tagged>)
    requires AllStubHolds(allStub, st) && i == |st|
    modifies allStub
    ensures AllStubHolds(allStub, st + [t])
  {
    WriteAllStub(allStub, i, t.stub);
    AllStubStep(st, t);
  }

  /** The ME memories, written only when the ME mask is nonzero. */
  method StepME(c: Config, tb: Tables, i: nat, t: Tagged, firstme: nat, me: array<seq<Binned<VMStubME>>>,
                ghost base: seq<seq<Binned<VMStubME>>>, ghost st: seq<Tagged>)
    requires StubPre(c, tb, t) && MEFit(c) && firstme == FirstMe(c) && me.Length == NVmMe(c)
    requires MEHolds(c, tb, me, base, st, firstme) && i == |st|
    modifies me
    ensures MEHolds(c, tb, me, base, st + [t], firstme)
  {
    if c.memask != 0 {
      WriteME(c, tb, i, t, firstme, me);
    }
    forall j | 0 <= j < me.Length
      ensures me[j] == base[j] + MEList(c, tb, st + [t], j + firstme)
    {
      MEListStep(c, tb, st, t, j + firstme);
      AppendStep(base[j], MEList(c, tb, st, j + firstme),
                 if MEWrites(c, tb, t, j + firstme) then [MEEntry(c, tb, i, t)] else [], old(me[j]), me[j]);
    }
  }

  /** The inner memories, written only when the inner mask is nonzero and the stub is not 2S. */
  method StepTEInner(c: Config, tb: Tables, i: nat, t: Tagged, firstte: nat,
                     tei: array2<map<nat, VMStubTEInner>>, addr: array2<nat>,
                     ghost base: seq<seq<map<nat, VMStubTEInner>>>, ghost st: seq<Tagged>)
    requires InnerPre(c, tb, t) && firstte == FirstTe(c) && tei.Length0 == NVmTe(c) && tei.Length1 == c.maxTEICopies
    requires TEIHolds(c, tb, tei, addr, base, st) && i == |st|
    modifies tei, addr
    ensures TEIHolds(c, tb, tei, addr, base, st + [t])
  {
    if c.teimask != 0 && !Disk2S(c, t.channel) {
      WriteTEInner(c, tb, i, t, firstte, tei, addr);
    }
    forall m, k | 0 <= m < tei.Length0 && 0 <= k < tei.Length1
      ensures tei[m, k] == Written(base[m][k], TEIList(c, tb, st + [t], m, k))
      ensures addr[m, k] == |TEIList(c, tb, st + [t], m, k)|
    {
      TEICellStep(c, tb, st, t, m, k, base[m][k], old(tei[m, k]), old(addr[m, k]), tei[m, k], addr[m, k]);
    }
  }

  /** The overlap memories, written only when the overlap mask is nonzero. */
  method StepOverlap(c: Config, tb: Tables, i: nat, t: Tagged, firstol: nat,
                     ol: array2<map<nat, VMStubTEInner>>, addr: array2<nat>,
                     ghost base: seq<seq<map<nat, VMStubTEInner>>>, ghost st: seq<Tagged>)
    requires OverlapPre(c, tb, t) && firstol == FirstOl(c) && ol.Length0 == NVmOl(c) && ol.Length1 == c.maxOLCopies
    requires OLHolds(c, tb, ol, addr, base, st) && i == |st|
    modifies ol, addr
    ensures OLHolds(c, tb, ol, addr, base, st + [t])
  {
    if c.olmask != 0 {
      WriteOverlap(c, tb, i, t, firstol, ol, addr);
    }
    forall m, k | 0 <= m < ol.Length0 && 0 <= k < ol.Length1
      ensures ol[m, k] == Written(base[m][k], OLList(c, tb, st + [t], m, k))
      ensures addr[m, k] == |OLList(c, tb, st + [t], m, k)|
    {
      OLCellStep(c, tb, st, t, m, k, base[m][k], old(ol[m, k]), old(addr[m, k]), ol[m, k], addr[m, k]);
    }
  }

  /** The outer memories, written only when the outer mask is nonzero and the stub is not 2S. */
  method StepTEOuter(c: Config, tb: Tables, i: nat, t: Tagged, firstte: nat,
                     teo: array2<seq<Binned<VMStubTEOuter>>>,
                     ghost base: seq<seq<seq<Binned<VMStubTEOuter>>>>, ghost st: seq<Tagged>)
    requires OuterPre(c, tb, t) && firstte == FirstTe(c) && teo.Length0 == NVmTe(c) && teo.Length1 == c.maxTEOCopies
    requires TEOHolds(c, tb, teo, base, st) && i == |st|
    modifies teo
    ensures TEOHolds(c, tb, teo, base, st + [t])
  {
    if c.teomask != 0 && !Disk2S(c, t.channel) {
      WriteTEOuter(c, tb, i, t, firstte, teo);
    }
    forall m, k | 0 <= m < teo.Length0 && 0 <= k < teo.Length1
      ensures teo[m, k] == base[m][k] + TEOList(c, tb, st + [t], m, k)
    {
      TEOCellStep(c, tb, st, t, m, k, base[m][k], old(teo[m, k]), teo[m, k]);
    }
  }

  /** What the router does with the i-th stub for the AllStub, ME and inner memories. */
  method RouteStubFirst(r: RouterInstance, i: nat, t: Tagged, firstme: nat, firstte: nat,
                        allStub: array<map<nat, InputStub>>, me: array<seq<Binned<VMStubME>>>,
                        tei: array2<map<nat, VMStubTEInner>>, addrTEI: array2<nat>,
                        ghost meBase: seq<seq<Binned<VMStubME>>>, ghost teiBase: seq<seq<map<nat, VMStubTEInner>>>,
                        ghost st: seq<Tagged>)
    requires StubOk(r.c, t) && i == |st|
    requires firstme == FirstMe(r.c) && firstte == FirstTe(r.c) && me.Length == NVmMe(r.c)
    requires tei.Length0 == NVmTe(r.c) && tei.Length1 == r.c.maxTEICopies
    requires AllStubHolds(allStub, st) && MEHolds(r.c, r.tb, me, meBase, st, firstme)
    requires TEIHolds(r.c, r.tb, tei, addrTEI, teiBase, st)
    modifies allStub, me, tei, addrTEI
    ensures AllStubHolds(allStub, st + [t]) && MEHolds(r.c, r.tb, me, meBase, st + [t], firstme)
    ensures TEIHolds(r.c, r.tb, tei, addrTEI, teiBase, st + [t])
  {
    assert (me as object) != allStub && (tei as object) != allStub && (addrTEI as object) != allStub;
    assert (tei as object) != me && (addrTEI as object) != me && (addrTEI as object) != tei;
    InstanceOk(r);
    StepAllStub(allStub, i, t, st);
    StepME(r.c, r.tb, i, t, firstme, me, meBase, st);
    StepTEInner(r.c, r.tb, i, t, firstte, tei, addrTEI, teiBase, st);
  }

  /** What the router does with the i-th stub for the overlap and outer memories. */
  method RouteStubSecond(r: RouterInstance, i: nat, t: Tagged, firstte: nat, firstol: nat,
                         ol: array2<map<nat, VMStubTEInner>>, teo: array2<seq<Binned<VMStubTEOuter>>>,
                         addrOL: array2<nat>,
                         ghost olBase: seq<seq<map<nat, VMStubTEInner>>>, ghost teoBase: seq<seq<seq<Binned<VMStubTEOuter>>>>,
                         ghost st: seq<Tagged>)
    requires StubOk(r.c, t) && i == |st|
    requires firstte == FirstTe(r.c) && firstol == FirstOl(r.c)
    requires ol.Length0 == NVmOl(r.c) && ol.Length1 == r.c.maxOLCopies
    requires teo.Length0 == NVmTe(r.c) && teo.Length1 == r.c.maxTEOCopies
    requires OLHolds(r.c, r.tb, ol, addrOL, olBase, st) && TEOHolds(r.c, r.tb, teo, teoBase, st)
    modifies ol, teo, addrOL
    ensures OLHolds(r.c, r.tb, ol, addrOL, olBase, st + [t]) && TEOHolds(r.c, r.tb, teo, teoBase, st + [t])
  {
    assert (teo as object) != ol && (teo as object) != addrOL && (addrOL as object) != ol;
    InstanceOk(r);
    StepOverlap(r.c, r.tb, i, t, firstol, ol, addrOL, olBase, st);
    StepTEOuter(r.c, r.tb, i, t, firstte, teo, teoBase, st);
  }

  /** Everything the router does with the i-th stub, memory kind by memory kind. */
  method RouteStub(r: RouterInstance, i: nat, t: Tagged, firstme: nat, firstte: nat, firstol: nat,
                   allStub: array<map<nat, InputStub>>, me: array<seq<Binned<VMStubME>>>,
                   tei: array2<map<nat, VMStubTEInner>>, ol: array2<map<nat, VMStubTEInner>>,
                   teo: array2<seq<Binned<VMStubTEOuter>>>, addrTEI: array2<nat>, addrOL: array2<nat>,
                   ghost meBase: seq<seq<Binned<VMStubME>>>, ghost teiBase: seq<seq<map<nat, VMStubTEInner>>>,
                   ghost olBase: seq<seq<map<nat, VMStubTEInner>>>, ghost teoBase: seq<seq<seq<Binned<VMStubTEOuter>>>>,
                   ghost st: seq<Tagged>)
    requires StubOk(r.c, t)
    requires Shaped(r.c, allStub, me, tei, ol, teo)
    requires tei != ol && addrTEI != addrOL && i == |st|
    requires firstme == FirstMe(r.c) && firstte == FirstTe(r.c) && firstol == FirstOl(r.c)
    requires AllStubHolds(allStub, st) && MEHolds(r.c, r.tb, me, meBase, st, firstme)
    requires TEIHolds(r.c, r.tb, tei, addrTEI, teiBase, st) && OLHolds(r.c, r.tb, ol, addrOL, olBase, st)
    requires TEOHolds(r.c, r.tb, teo, teoBase, st)
    modifies allStub, me, tei, ol, teo, addrTEI, addrOL
    ensures AllStubHolds(allStub, st + [t]) && MEHolds(r.c, r.tb, me, meBase, st + [t], firstme)
    ensures TEIHolds(r.c, r.tb, tei, addrTEI, teiBase, st + [t]) && OLHolds(r.c, r.tb, ol, addrOL, olBase, st + [t])
    ensures TEOHolds(r.c, r.tb, teo, teoBase, st + [t])
  {
    assert (ol as object) != allStub && (ol as object) != me && (ol as object) != addrTEI;
    assert (teo as object) != allStub && (teo as object) != me && (teo as object) != tei && (teo as object) != addrTEI;
    assert (addrOL as object) != allStub && (addrOL as object) != me && (addrOL as object) != tei;
    RouteStubFirst(r, i, t, firstme, firstte, allStub, me, tei, addrTEI, meBase, teiBase, st);
    RouteStubSecond(r, i, t, firstte, firstol, ol, teo, addrOL, olBase, teoBase, st);
  }

  // ---------------------------------------------------------------------
  // What one call leaves behind, against the contents before the call

  /** The ME memories after clearing: emptied where the ME mask enables the module. */
  ghost function MECleared(c: Config, before: seq<seq<Binned<VMStubME>>>): (r: seq<seq<Binned<VMStubME>>>)
    ensures |r| == |before| && forall j :: 0 <= j < |r| ==> r[j] == MEBase(c, before[j], j)
  {
    seq(|before|, j requires 0 <= j < |before| => MEBase(c, before[j], j))
  }

  /** Rows of inner or overlap copies after clearing: emptied where the mask enables the row's module. */
  ghost function RowsCleared<T>(mask: nat, first: nat, before: seq<seq<map<nat, T>>>): (r: seq<seq<map<nat, T>>>)
    ensures |r| == |before|
    ensures forall m :: 0 <= m < |r| ==> |r[m]| == |before[m]|
    ensures forall m, k :: 0 <= m < |r| && 0 <= k < |r[m]| ==> r[m][k] == RowBase(mask, first, before[m][k], m)
  {
    seq(|before|, m requires 0 <= m < |before| =>
      seq(|before[m]|, k requires 0 <= k < |before[m]| => RowBase(mask, first, before[m][k], m)))
  }

  /** Rows of outer copies after clearing: emptied where the mask enables the row's module. */
  ghost function BinnedRowsCleared<T>(mask: nat, first: nat, before: seq<seq<seq<T>>>): (r: seq<seq<seq<T>>>)
    ensures |r| == |before|
    ensures forall m :: 0 <= m < |r| ==> |r[m]| == |before[m]|
    ensures forall m, k :: 0 <= m < |r| && 0 <= k < |r[m]| ==> r[m][k] == BinnedBase(mask, first, before[m][k], m)
  {
    seq(|before|, m requires 0 <= m < |before| =>
      seq(|before[m]|, k requires 0 <= k < |before[m]| => BinnedBase(mask, first, before[m][k], m)))
  }

  /** ME memory j: its contents before (or nothing, when cleared), then the records the stubs st sent it. */
  ghost predicate MEResult(c: Config, tb: Tables, me: array<seq<Binned<VMStubME>>>, before: seq<seq<Binned<VMStubME>>>,
                           st: seq<Tagged>)
    reads me
  {
    |before| == me.Length
    && forall j :: 0 <= j < me.Length ==> me[j] == MEBase(c, before[j], j) + MEList(c, tb, st, j + FirstMe(c))
  }

  /** Inner copy (m, k): the records the stubs st sent it, at addresses 0, 1, ..., over its contents before (or nothing). */
  ghost predicate TEIResult(c: Config, tb: Tables, tei: array2<map<nat, VMStubTEInner>>,
                            before: seq<seq<map<nat, VMStubTEInner>>>, st: seq<Tagged>)
    reads tei
  {
    |before| == tei.Length0 && (forall m :: 0 <= m < tei.Length0 ==> |before[m]| == tei.Length1)
    && forall m, k :: 0 <= m < tei.Length0 && 0 <= k < tei.Length1 ==>
         tei[m, k] == Written(RowBase(c.teimask, FirstTe(c), before[m][k], m), TEIList(c, tb, st, m, k))
  }

  /** Overlap copy (m, k): the records the stubs st sent it, at addresses 0, 1, ..., over its contents before (or nothing). */
  ghost predicate OLResult(c: Config, tb: Tables, ol: array2<map<nat, VMStubTEInner>>,
                           before: seq<seq<map<nat, VMStubTEInner>>>, st: seq<Tagged>)
    reads ol
  {
    |before| == ol.Length0 && (forall m :: 0 <= m < ol.Length0 ==> |before[m]| == ol.Length1)
    && forall m, k :: 0 <= m < ol.Length0 && 0 <= k < ol.Length1 ==>
         ol[m, k] == Written(RowBase(c.olmask, FirstOl(c), before[m][k], m), OLList(c, tb, st, m, k))
  }

  /** Outer copy (m, k): its contents before (or nothing, when cleared), then the records the stubs st sent it. */
  ghost predicate TEOResult(c: Config, tb: Tables, teo: array2<seq<Binned<VMStubTEOuter>>>,
                            before: seq<seq<seq<Binned<VMStubTEOuter>>>>, st: seq<Tagged>)
    reads teo
  {
    |before| == teo.Length0 && (forall m :: 0 <= m < teo.Length0 ==> |before[m]| == teo.Length1)
    && forall m, k :: 0 <= m < teo.Length0 && 0 <= k < teo.Length1 ==>
         teo[m, k] == BinnedBase(c.teomask, FirstTe(c), before[m][k], m) + TEOList(c, tb, st, m, k)
  }

  /** Writing nothing over a memory leaves it as it is. */
  lemma WrittenNothing<T>(base: map<nat, T>)
    ensures Written(base, []) == base
  {
    assert Written(base, []).Keys == base.Keys;
  }

  /** Before the loop every memory holds its cleared contents and every address counter is zero. */
  lemma MEStart(c: Config, tb: Tables, me: array<seq<Binned<VMStubME>>>, base: seq<seq<Binned<VMStubME>>>, first: nat)
    requires |base| == me.Length && forall j :: 0 <= j < me.Length ==> me[j] == base[j]
    ensures MEHolds(c, tb, me, base, [], first)
  {
  }

  lemma TEIStart(c: Config, tb: Tables, tei: array2<map<nat, VMStubTEInner>>, addr: array2<nat>,
                 base: seq<seq<map<nat, VMStubTEInner>>>)
    requires |base| == tei.Length0 == addr.Length0 && tei.Length1 == addr.Length1
    requires forall m :: 0 <= m < tei.Length0 ==> |base[m]| == tei.Length1
    requires forall m, k :: 0 <= m < tei.Length0 && 0 <= k < tei.Length1 ==> tei[m, k] == base[m][k] && addr[m, k] == 0
    ensures TEIHolds(c, tb, tei, addr, base, [])
  {
    forall m, k | 0 <= m < tei.Length0 && 0 <= k < tei.Length1
      ensures tei[m, k] == Written(base[m][k], TEIList(c, tb, [], m, k))
    {
      WrittenNothing(base[m][k]);
    }
  }

  lemma OLStart(c: Config, tb: Tables, ol: array2<map<nat, VMStubTEInner>>, addr: array2<nat>,
                base: seq<seq<map<nat, VMStubTEInner>>>)
    requires |base| == ol.Length0 == addr.Length0 && ol.Length1 == addr.Length1
    requires forall m :: 0 <= m < ol.Length0 ==> |base[m]| == ol.Length1
    requires forall m, k :: 0 <= m < ol.Length0 && 0 <= k < ol.Length1 ==> ol[m, k] == base[m][k] && addr[m, k] == 0
    ensures OLHolds(c, tb, ol, addr, base, [])
  {
    forall m, k | 0 <= m < ol.Length0 && 0 <= k < ol.Length1
      ensures ol[m, k] == Written(base[m][k], OLList(c, tb, [], m, k))
    {
      WrittenNothing(base[m][k]);
    }
  }

  lemma TEOStart(c: Config, tb: Tables, teo: array2<seq<Binned<VMStubTEOuter>>>, base: seq<seq<seq<Binned<VMStubTEOuter>>>>)
    requires |base| == teo.Length0
    requires forall m :: 0 <= m < teo.Length0 ==> |base[m]| == teo.Length1
    requires forall m, k :: 0 <= m < teo.Length0 && 0 <= k < teo.Length1 ==> teo[m, k] == base[m][k]
    ensures TEOHolds(c, tb, teo, base, [])
  {
  }

  /** After the loop, the memories over their cleared contents are the call's result. */
  lemma MEFinal(c: Config, tb: Tables, me: array<seq<Binned<VMStubME>>>, before: seq<seq<Binned<VMStubME>>>, st: seq<Tagged>)
    requires MEHolds(c, tb, me, MECleared(c, before), st, FirstMe(c))
    ensures MEResult(c, tb, me, before, st)
  {
  }

  lemma TEIFinal(c: Config, tb: Tables, tei: array2<map<nat, VMStubTEInner>>, addr: array2<nat>,
                 before: seq<seq<map<nat, VMStubTEInner>>>, st: seq<Tagged>)
    requires TEIHolds(c, tb, tei, addr, RowsCleared(c.teimask, FirstTe(c), before), st)
    ensures TEIResult(c, tb, tei, before, st)
  {
  }

  lemma OLFinal(c: Config, tb: Tables, ol: array2<map<nat, VMStubTEInner>>, addr: array2<nat>,
                before: seq<seq<map<nat, VMStubTEInner>>>, st: seq<Tagged>)
    requires OLHolds(c, tb, ol, addr, RowsCleared(c.olmask, FirstOl(c), before), st)
    ensures OLResult(c, tb, ol, before, st)
  {
  }

  lemma TEOFinal(c: Config, tb: Tables, teo: array2<seq<Binned<VMStubTEOuter>>>,
                 before: seq<seq<seq<Binned<VMStubTEOuter>>>>, st: seq<Tagged>)
    requires TEOHolds(c, tb, teo, BinnedRowsCleared(c.teomask, FirstTe(c), before), st)
    ensures TEOResult(c, tb, teo, before, st)
  {
  }

  // ---------------------------------------------------------------------
  // The router

    /** One iteration with stubs left: read the next stub in priority order and route it. */
  method ProcessNext(r: RouterInstance, inputs: seq<seq<InputStub>>, i: nat, firstme: nat, firstte: nat, firstol: nat,
                     rd: Reader,
                     allStub: array<map<nat, InputStub>>, me: array<seq<Binned<VMStubME>>>,
                     tei: array2<map<nat, VMStubTEInner>>, ol: array2<map<nat, VMStubTEInner>>,
                     teo: array2<seq<Binned<VMStubTEOuter>>>, addrTEI: array2<nat>, addrOL: array2<nat>,
                     ghost meBase: seq<seq<Binned<VMStubME>>>, ghost teiBase: seq<seq<map<nat, VMStubTEInner>>>,
                     ghost olBase: seq<seq<map<nat, VMStubTEInner>>>, ghost teoBase: seq<seq<seq<Binned<VMStubTEOuter>>>>,
                     ghost st: seq<Tagged>)
    returns (rd': Reader, ghost st': seq<Tagged>)
    requires InputsOk(r.c, inputs) && Shaped(r.c, allStub, me, tei, ol, teo)
    requires tei != ol && addrTEI != addrOL
    requires firstme == FirstMe(r.c) && firstte == FirstTe(r.c) && firstol == FirstOl(r.c)
    requires ReadState(r.c.imask, inputs, rd, |st|) && rd.ntot != 0 && i == |st|
    requires st == Stream(r.c.imask, inputs)[..|st|]
    requires AllStubHolds(allStub, st) && MEHolds(r.c, r.tb, me, meBase, st, firstme)
    requires TEIHolds(r.c, r.tb, tei, addrTEI, teiBase, st) && OLHolds(r.c, r.tb, ol, addrOL, olBase, st)
    requires TEOHolds(r.c, r.tb, teo, teoBase, st)
    modifies allStub, me, tei, ol, teo, addrTEI, addrOL
    ensures ReadState(r.c.imask, inputs, rd', |st'|) && |st'| == |st| + 1
    ensures st' == Stream(r.c.imask, inputs)[..|st'|]
    ensures AllStubHolds(allStub, st') && MEHolds(r.c, r.tb, me, meBase, st', firstme)
    ensures TEIHolds(r.c, r.tb, tei, addrTEI, teiBase, st') && OLHolds(r.c, r.tb, ol, addrOL, olBase, st')
    ensures TEOHolds(r.c, r.tb, teo, teoBase, st')
  {
    var (t, next) := ReadNext(r.c, inputs, rd, |st|);
    rd' := next;
    NextInStream(r.c, r.tb, inputs, st);
    RouteStub(r, i, t, firstme, firstte, firstol, allStub, me, tei, ol, teo, addrTEI, addrOL,
              meBase, teiBase, olBase, teoBase, st);
    st' := st + [t];
  }

/**
   * The main loop: up to maxProc iterations, each reading the next stub in
   * input priority order, while any is left, and routing it.
   */
  method RouteAll(r: RouterInstance, inputs: seq<seq<InputStub>>, firstme: nat, firstte: nat, firstol: nat,
                  allStub: array<map<nat, InputStub>>, me: array<seq<Binned<VMStubME>>>,
                  tei: array2<map<nat, VMStubTEInner>>, ol: array2<map<nat, VMStubTEInner>>,
                  teo: array2<seq<Binned<VMStubTEOuter>>>, addrTEI: array2<nat>, addrOL: array2<nat>,
                  ghost meBase: seq<seq<Binned<VMStubME>>>, ghost teiBase: seq<seq<map<nat, VMStubTEInner>>>,
                  ghost olBase: seq<seq<map<nat, VMStubTEInner>>>, ghost teoBase: seq<seq<seq<Binned<VMStubTEOuter>>>>)
    requires InputsOk(r.c, inputs) && Shaped(r.c, allStub, me, tei, ol, teo)
    requires tei != ol && addrTEI != addrOL
    requires firstme == FirstMe(r.c) && firstte == FirstTe(r.c) && firstol == FirstOl(r.c)
    requires AllStubHolds(allStub, []) && MEHolds(r.c, r.tb, me, meBase, [], firstme)
    requires TEIHolds(r.c, r.tb, tei, addrTEI, teiBase, []) && OLHolds(r.c, r.tb, ol, addrOL, olBase, [])
    requires TEOHolds(r.c, r.tb, teo, teoBase, [])
    modifies allStub, me, tei, ol, teo, addrTEI, addrOL
    ensures AllOk(r.c, r.tb, Processed(r.c, inputs))
    ensures AllStubHolds(allStub, Processed(r.c, inputs)) && MEHolds(r.c, r.tb, me, meBase, Processed(r.c, inputs), firstme)
    ensures TEIHolds(r.c, r.tb, tei, addrTEI, teiBase, Processed(r.c, inputs))
    ensures OLHolds(r.c, r.tb, ol, addrOL, olBase, Processed(r.c, inputs))
    ensures TEOHolds(r.c, r.tb, teo, teoBase, Processed(r.c, inputs))
  {
    var rd := StartReading(r.c.imask, inputs);
    ghost var stream := Stream(r.c.imask, inputs);
    ghost var st: seq<Tagged> := [];
    for i := 0 to r.c.maxProc
      invariant ReadState(r.c.imask, inputs, rd, |st|)
      invariant |st| == (if i < Total(r.c.imask, inputs) then i else Total(r.c.imask, inputs))
      invariant st == stream[..|st|]
      invariant AllStubHolds(allStub, st) && MEHolds(r.c, r.tb, me, meBase, st, firstme)
      invariant TEIHolds(r.c, r.tb, tei, addrTEI, teiBase, st) && OLHolds(r.c, r.tb, ol, addrOL, olBase, st)
      invariant TEOHolds(r.c, r.tb, teo, teoBase, st)
    {
      if i <= r.c.maxProc && rd.ntot != 0 {
        rd, st := ProcessNext(r, inputs, i, firstme, firstte, firstol, rd,
                                               allStub, me, tei, ol, teo, addrTEI, addrOL,
                                               meBase, teiBase, olBase, teoBase, st);
      }
    }
    ProcessedPrefix(r.c, r.tb, inputs, st);
  }

  /**
   * Before the loop: the AllStub copies are emptied, the enabled ME memories
   * and the enabled rows of the other memories are cleared, and every address
   * counter starts at zero.
   */
  method ClearOutputs(c: Config, tb: Tables, firstme: nat, firstte: nat, firstol: nat,
                      allStub: array<map<nat, InputStub>>, me: array<seq<Binned<VMStubME>>>,
                      tei: array2<map<nat, VMStubTEInner>>, ol: array2<map<nat, VMStubTEInner>>,
                      teo: array2<seq<Binned<VMStubTEOuter>>>)
    returns (addrTEI: array2<nat>, addrOL: array2<nat>)
    requires firstme == FirstMe(c) && tei != ol
    modifies allStub, me, tei, ol, teo
    ensures fresh(addrTEI) && fresh(addrOL)
    ensures AllStubHolds(allStub, []) && MEHolds(c, tb, me, MECleared(c, old(me[..])), [], firstme)
    ensures TEIHolds(c, tb, tei, addrTEI, RowsCleared(c.teimask, firstte, old(Rows(tei))), [])
    ensures OLHolds(c, tb, ol, addrOL, RowsCleared(c.olmask, firstol, old(Rows(ol))), [])
    ensures TEOHolds(c, tb, teo, BinnedRowsCleared(c.teomask, firstte, old(Rows(teo))), [])
  {
    assert (me as object) != allStub && (tei as object) != allStub && (ol as object) != allStub && (teo as object) != allStub;
    assert (tei as object) != me && (ol as object) != me && (teo as object) != me;
    assert (teo as object) != tei && (teo as object) != ol;
    ghost var meBefore, teiBefore, olBefore, teoBefore := me[..], Rows(tei), Rows(ol), Rows(teo);
    ClearAllStub(allStub);
    ClearME(c, firstme, me);
    ClearRows(c.teimask, firstte, tei);
    ClearBinnedRows(c.teomask, firstte, teo);
    ClearRows(c.olmask, firstol, ol);
    addrTEI := new nat[tei.Length0, tei.Length1]((m, k) => 0);
    addrOL := new nat[ol.Length0, ol.Length1]((m, k) => 0);
    MEStart(c, tb, me, MECleared(c, meBefore), firstme);
    TEIStart(c, tb, tei, addrTEI, RowsCleared(c.teimask, firstte, teiBefore));
    OLStart(c, tb, ol, addrOL, RowsCleared(c.olmask, firstol, olBefore));
    TEOStart(c, tb, teo, BinnedRowsCleared(c.teomask, firstte, teoBefore));
  }

  /**
   * One call of the router. Afterwards every AllStub copy holds the stubs
   * processed at their processing positions; every ME memory and outer copy
   * holds what it held before (or nothing, when cleared) followed by the
   * records routed to it in processing order; and every inner and overlap
   * copy holds those records at addresses 0, 1, ... over its earlier contents.
   */
  method VMRouter(r: RouterInstance, inputs: seq<seq<InputStub>>,
                  allStub: array<map<nat, InputStub>>, me: array<seq<Binned<VMStubME>>>,
                  tei: array2<map<nat, VMStubTEInner>>, ol: array2<map<nat, VMStubTEInner>>,
                  teo: array2<seq<Binned<VMStubTEOuter>>>)
    requires InputsOk(r.c, inputs) && Shaped(r.c, allStub, me, tei, ol, teo) && tei != ol
    modifies allStub, me, tei, ol, teo
    ensures AllOk(r.c, r.tb, Processed(r.c, inputs))
    ensures forall n :: 0 <= n < allStub.Length ==> allStub[n] == AllStubMap(Processed(r.c, inputs))
    ensures MEResult(r.c, r.tb, me, old(me[..]), Processed(r.c, inputs))
    ensures TEIResult(r.c, r.tb, tei, old(Rows(tei)), Processed(r.c, inputs))
    ensures OLResult(r.c, r.tb, ol, old(Rows(ol)), Processed(r.c, inputs))
    ensures TEOResult(r.c, r.tb, teo, old(Rows(teo)), Processed(r.c, inputs))
  {
    var firstme := GetFirstMemNumber(r.c.memask);
    var firstte: nat;
    if r.c.teimask != 0 {
      firstte := GetFirstMemNumber(r.c.teimask);
    } else {
      firstte := GetFirstMemNumber(r.c.teomask);
    }
    var firstol: nat := 0;
    if r.c.olmask != 0 {
      firstol := GetFirstMemNumber(r.c.olmask);
    }
    assert (me as object) != allStub && (tei as object) != allStub && (ol as object) != allStub && (teo as object) != allStub;
    assert (tei as object) != me && (ol as object) != me && (teo as object) != me;
    assert (teo as object) != tei && (teo as object) != ol;
    var addrTEI, addrOL := ClearOutputs(r.c, r.tb, firstme, firstte, firstol, allStub, me, tei, ol, teo);
    RouteAll(r, inputs, firstme, firstte, firstol, allStub, me, tei, ol, teo, addrTEI, addrOL,
             MECleared(r.c, old(me[..])), RowsCleared(r.c.teimask, firstte, old(Rows(tei))),
             RowsCleared(r.c.olmask, firstol, old(Rows(ol))), BinnedRowsCleared(r.c.teomask, firstte, old(Rows(teo))));
    MEFinal(r.c, r.tb, me, old(me[..]), Processed(r.c, inputs));
    TEIFinal(r.c, r.tb, tei, addrTEI, old(Rows(tei)), Processed(r.c, inputs));
    OLFinal(r.c, r.tb, ol, addrOL, old(Rows(ol)), Processed(r.c, inputs));
    TEOFinal(r.c, r.tb, teo, old(Rows(teo)), Processed(r.c, inputs));
  }
}
