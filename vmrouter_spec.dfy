/**
 * What one call of the router leaves in its output memories, as functions
 * of the stubs it processed: the d-th stub processed (numbered from 0) goes
 * to address d of every AllStub copy, and each virtual-module memory ends up
 * holding, in processing order, the records of exactly the stubs routed to it.
 */
module RouterSpec {
  import opened Bits
  import opened Stubs
  import opened VMRouterFunctions
  import opened RouterConfig
  import opened StubRoute
  import opened InputStream

  /** Every stub of st is one the per-stub arithmetic accepts. */
  predicate AllOk(c: Config, tb: Tables, st: seq<Tagged>)
  {
    Wellformed(c) && LutsFit(c, tb) && forall d :: 0 <= d < |st| ==> StubOk(c, st[d])
  }

  /** The inputs of one call: six memories, each within its depth, every entry of its input's format. */
  predicate InputsOk(c: Config, inputs: seq<seq<InputStub>>)
  {
    && InputsShaped(inputs)
    && (forall k :: 0 <= k < NInputs ==> |inputs[k]| <= Pow2(c.memAddrBits))
    && (forall k, j :: 0 <= k < NInputs && 0 <= j < |inputs[k]| ==> Fits(inputs[k][j], FormatOf(c, k)))
  }

  /** The stubs one call processes: the first maxProc of the stream. */
  function Processed(c: Config, inputs: seq<seq<InputStub>>): (st: seq<Tagged>)
    requires InputsShaped(inputs)
    ensures |st| == if c.maxProc < Total(c.imask, inputs) then c.maxProc else Total(c.imask, inputs)
  {
    var s := Stream(c.imask, inputs);
    if c.maxProc < |s| then s[..c.maxProc] else s
  }

  /** Every stub of the stream is tagged with its input and fits that input's format. */
  lemma StreamOk(c: Config, tb: Tables, inputs: seq<seq<InputStub>>)
    requires Wellformed(c) && LutsFit(c, tb) && InputsOk(c, inputs)
    ensures AllOk(c, tb, Stream(c.imask, inputs))
  {
    var s := Stream(c.imask, inputs);
    forall d | 0 <= d < |s|
      ensures StubOk(c, s[d])
    {
      var j := BlockOf(c.imask, inputs, NInputs, d);
      StreamAt(c.imask, inputs, j, d);
      var x := d - Start(c.imask, inputs, j);
      assert Bit(c.imask, j) && s[d] == Tagged(j, inputs[j][x]);
      assert Fits(inputs[j][x], FormatOf(c, j));
    }
  }

  lemma AllOkAppend(c: Config, tb: Tables, st: seq<Tagged>, t: Tagged)
    requires AllOk(c, tb, st) && StubPre(c, tb, t)
    ensures AllOk(c, tb, st + [t])
  {
    forall d | 0 <= d < |st| + 1
      ensures StubPre(c, tb, (st + [t])[d])
    {
      if d < |st| {
        assert (st + [t])[d] == st[d];
      }
    }
  }

  /** A prefix of a sequence, extended by the next element, is the next prefix. */
  lemma PrefixStep(s: seq<Tagged>, st: seq<Tagged>)
    requires |st| < |s| && st == s[..|st|]
    ensures st + [s[|st|]] == s[..|st| + 1]
  {
  }

  /** The next stub of the stream is well formed, and appending it to a prefix read so far gives the next prefix. */
  lemma NextInStream(c: Config, tb: Tables, inputs: seq<seq<InputStub>>, st: seq<Tagged>)
    requires Wellformed(c) && LutsFit(c, tb) && InputsOk(c, inputs)
    requires |st| < Total(c.imask, inputs) && st == Stream(c.imask, inputs)[..|st|]
    ensures StubPre(c, tb, Stream(c.imask, inputs)[|st|])
    ensures st + [Stream(c.imask, inputs)[|st|]] == Stream(c.imask, inputs)[..|st| + 1]
  {
    StreamOk(c, tb, inputs);
    PrefixStep(Stream(c.imask, inputs), st);
  }

  /** The stubs read so far, once the loop has read min(maxProc, Total) of them, are the processed ones, all well formed. */
  lemma ProcessedPrefix(c: Config, tb: Tables, inputs: seq<seq<InputStub>>, st: seq<Tagged>)
    requires Wellformed(c) && LutsFit(c, tb) && InputsOk(c, inputs)
    requires |st| == (if c.maxProc < Total(c.imask, inputs) then c.maxProc else Total(c.imask, inputs))
    requires st == Stream(c.imask, inputs)[..|st|]
    ensures st == Processed(c, inputs) && AllOk(c, tb, st)
  {
    var s := Stream(c.imask, inputs);
    StreamOk(c, tb, inputs);
    assert s[..|s|] == s;
    forall d | 0 <= d < |st|
      ensures StubPre(c, tb, st[d])
    {
      assert st[d] == s[d];
    }
  }

  lemma AllOkPrefix(c: Config, tb: Tables, st: seq<Tagged>, t: Tagged)
    requires AllOk(c, tb, st + [t])
    ensures AllOk(c, tb, st) && StubPre(c, tb, t)
  {
    forall d | 0 <= d < |st|
      ensures StubPre(c, tb, st[d])
    {
      assert (st + [t])[d] == st[d];
    }
    assert (st + [t])[|st|] == t;
  }

  // ---------------------------------------------------------------------
  // Selecting the records a memory receives

  datatype Option<T> = None | Some(value: T)

  /** The values of the present entries of o, in order. */
  function Keep<T>(o: seq<Option<T>>): seq<T>
    decreases |o|
  {
    if o == [] then []
    else
      var v := o[|o| - 1];
      Keep(o[..|o| - 1]) + (if v.Some? then [v.value] else [])
  }

  /** x is kept exactly when some entry of o holds it. */
  lemma {:induction false} KeepMembers<T>(o: seq<Option<T>>, x: T)
    ensures x in Keep(o) <==> exists d :: 0 <= d < |o| && o[d] == Some(x)
    decreases |o|
  {
    if o != [] {
      var n := |o| - 1;
      KeepMembers(o[..n], x);
      if x in Keep(o[..n]) {
        var d :| 0 <= d < n && o[..n][d] == Some(x);
        assert o[d] == Some(x);
      }
      if exists d :: 0 <= d < |o| && o[d] == Some(x) {
        var d :| 0 <= d < |o| && o[d] == Some(x);
        if d < n {
          assert o[..n][d] == Some(x);
        }
      }
    }
  }

  /** Selecting from one more entry appends its value when it is present. */
  lemma KeepStep<T>(o: seq<Option<T>>, v: Option<T>)
    ensures Keep(o + [v]) == Keep(o) + (if v.Some? then [v.value] else [])
  {
    assert (o + [v])[..|o|] == o;
  }

  /**
   * The records one memory receives from the stubs st, in processing order,
   * where out(d, t) is what the d-th stub processed, t, contributes to it.
   */
  function Selected<T>(st: seq<Tagged>, out: (nat, Tagged) -> Option<T>): seq<T>
  {
    Keep(seq(|st|, d requires 0 <= d < |st| => out(d, st[d])))
  }

  /** What the d-th stub contributes is selected. */
  lemma SelectedHas<T>(st: seq<Tagged>, out: (nat, Tagged) -> Option<T>, d: nat)
    requires d < |st| && out(d, st[d]).Some?
    ensures out(d, st[d]).value in Selected(st, out)
  {
    var o := seq(|st|, d requires 0 <= d < |st| => out(d, st[d]));
    KeepMembers(o, out(d, st[d]).value);
    assert o[d] == out(d, st[d]);
  }

  /** A selected record is contributed by some processed stub. */
  lemma SelectedFrom<T>(st: seq<Tagged>, out: (nat, Tagged) -> Option<T>, x: T) returns (d: nat)
    requires x in Selected(st, out)
    ensures d < |st| && out(d, st[d]) == Some(x)
  {
    var o := seq(|st|, d requires 0 <= d < |st| => out(d, st[d]));
    KeepMembers(o, x);
    var e :| 0 <= e < |o| && o[e] == Some(x);
    d := e;
  }

  /** Processing one more stub appends what it contributes, if anything. */
  lemma SelectedStep<T>(st: seq<Tagged>, t: Tagged, out: (nat, Tagged) -> Option<T>)
    ensures Selected(st + [t], out)
         == Selected(st, out) + (if out(|st|, t).Some? then [out(|st|, t).value] else [])
  {
    var o := seq(|st|, d requires 0 <= d < |st| => out(d, st[d]));
    var o' := seq(|st| + 1, d requires 0 <= d < |st| + 1 => out(d, (st + [t])[d]));
    assert o' == o + [out(|st|, t)];
    KeepStep(o, out(|st|, t));
  }

  // ---------------------------------------------------------------------
  // AllStub memories

  /** Every AllStub copy: the d-th stub processed at address d. */
  function AllStubMap(st: seq<Tagged>): (m: map<nat, InputStub>)
    ensures forall a: nat :: a in m <==> a < |st|
    ensures forall d :: 0 <= d < |st| ==> m[d] == st[d].stub
  {
    map d: nat | d < |st| :: st[d].stub
  }

  /** Processing one more stub adds it at the next address. */
  lemma AllStubStep(st: seq<Tagged>, t: Tagged)
    ensures AllStubMap(st + [t]) == AllStubMap(st)[|st| := t.stub]
  {
    var lhs, rhs := AllStubMap(st + [t]), AllStubMap(st)[|st| := t.stub];
    forall a: nat | a in lhs
      ensures lhs[a] == rhs[a]
    {
      if a < |st| {
        assert (st + [t])[a] == st[a];
      }
    }
    assert lhs.Keys == rhs.Keys;
  }

  // ---------------------------------------------------------------------
  // ME memories

  /** The record ME memory n receives from the d-th stub processed, if any. */
  function MEOut(c: Config, tb: Tables, d: nat, t: Tagged, n: nat): Option<Binned<VMStubME>>
  {
    if StubPre(c, tb, t) && MEWrites(c, tb, t, n) then Some(MEEntry(c, tb, d, t)) else None
  }

  /** The records ME memory n receives from the stubs st, in processing order. */
  function MEList(c: Config, tb: Tables, st: seq<Tagged>, n: nat): seq<Binned<VMStubME>>
  {
    Selected(st, (d, u) => MEOut(c, tb, d, u, n))
  }

  /** The record of every stub routed to ME memory n is in it. */
  lemma MEListHas(c: Config, tb: Tables, st: seq<Tagged>, n: nat, d: nat)
    requires AllOk(c, tb, st) && d < |st| && MEWrites(c, tb, st[d], n)
    ensures MEEntry(c, tb, d, st[d]) in MEList(c, tb, st, n)
  {
    SelectedHas(st, (d: nat, u: Tagged) => MEOut(c, tb, d, u, n), d);
  }

  /** Every record in ME memory n is the record of a stub routed there. */
  lemma MEListFrom(c: Config, tb: Tables, st: seq<Tagged>, n: nat, e: Binned<VMStubME>) returns (d: nat)
    requires AllOk(c, tb, st) && e in MEList(c, tb, st, n)
    ensures d < |st| && MEWrites(c, tb, st[d], n) && e == MEEntry(c, tb, d, st[d])
  {
    d := SelectedFrom(st, (d: nat, u: Tagged) => MEOut(c, tb, d, u, n), e);
    var t := st[d];
    assert StubOk(c, t);
    assert MEOut(c, tb, d, t, n) == Some(e);
  }

  /** Processing one more stub appends its record when it is routed to memory n. */
  lemma MEListStep(c: Config, tb: Tables, st: seq<Tagged>, t: Tagged, n: nat)
    requires StubPre(c, tb, t)
    ensures MEList(c, tb, st + [t], n)
         == MEList(c, tb, st, n) + (if MEWrites(c, tb, t, n) then [MEEntry(c, tb, |st|, t)] else [])
  {
    SelectedStep(st, t, (d, u) => MEOut(c, tb, d, u, n));
  }

  /** The contents ME memory j holds before the first write: emptied when its mask bit is set. */
  function MEBase(c: Config, old_: seq<Binned<VMStubME>>, j: nat): seq<Binned<VMStubME>>
  {
    if Bit(c.memask, j + FirstMe(c)) then [] else old_
  }

  // ---------------------------------------------------------------------
  // TE-inner memories

  /** The record copy k of te-inner memory row m receives from the d-th stub processed, if any. */
  function TEIOut(c: Config, tb: Tables, d: nat, t: Tagged, m: nat, k: nat): Option<VMStubTEInner>
  {
    if InnerPre(c, tb, t) && TEIWrites(c, tb, t, m, k) then Some(TEIStub(c, tb, d, t)) else None
  }

  /** The records copy k of te-inner memory row m receives, in processing order. */
  function TEIList(c: Config, tb: Tables, st: seq<Tagged>, m: nat, k: nat): seq<VMStubTEInner>
  {
    Selected(st, (d, u) => TEIOut(c, tb, d, u, m, k))
  }

  /** The record of every stub routed to inner copy (m, k) is in it. */
  lemma TEIListHas(c: Config, tb: Tables, st: seq<Tagged>, m: nat, k: nat, d: nat)
    requires AllOk(c, tb, st) && InnerFit(c, tb) && d < |st| && TEIWrites(c, tb, st[d], m, k)
    ensures TEIStub(c, tb, d, st[d]) in TEIList(c, tb, st, m, k)
  {
    SelectedHas(st, (d: nat, u: Tagged) => TEIOut(c, tb, d, u, m, k), d);
  }

  /** Every record in inner copy (m, k) is the record of a stub routed there. */
  lemma TEIListFrom(c: Config, tb: Tables, st: seq<Tagged>, m: nat, k: nat, e: VMStubTEInner) returns (d: nat)
    requires AllOk(c, tb, st) && InnerFit(c, tb) && e in TEIList(c, tb, st, m, k)
    ensures d < |st| && TEIWrites(c, tb, st[d], m, k) && e == TEIStub(c, tb, d, st[d])
  {
    d := SelectedFrom(st, (d: nat, u: Tagged) => TEIOut(c, tb, d, u, m, k), e);
    var t := st[d];
    assert StubOk(c, t);
    assert TEIOut(c, tb, d, t, m, k) == Some(e);
  }

  /** Processing one more stub appends its record when it is routed to copy (m, k). */
  lemma TEIListStep(c: Config, tb: Tables, st: seq<Tagged>, t: Tagged, m: nat, k: nat)
    requires InnerPre(c, tb, t)
    ensures TEIList(c, tb, st + [t], m, k)
         == TEIList(c, tb, st, m, k) + (if TEIWrites(c, tb, t, m, k) then [TEIStub(c, tb, |st|, t)] else [])
  {
    SelectedStep(st, t, (d, u) => TEIOut(c, tb, d, u, m, k));
  }

  /** No inner record carries an invalid look-up (above 1024), and only rows and copies the router holds get any. */
  lemma TEIListValid(c: Config, tb: Tables, st: seq<Tagged>, m: nat, k: nat, e: VMStubTEInner)
    requires AllOk(c, tb, st) && InnerFit(c, tb) && e in TEIList(c, tb, st, m, k)
    ensures e.zBits <= 1024
    ensures m < NVmTe(c) && k < c.maxTEICopies
  {
    var d := TEIListFrom(c, tb, st, m, k, e);
    TEIWriteSound(c, tb, st[d], m, k);
  }

  // ---------------------------------------------------------------------
  // Overlap memories

  /** The record copy k of overlap memory row m receives from the d-th stub processed, if any. */
  function OLOut(c: Config, tb: Tables, d: nat, t: Tagged, m: nat, k: nat): Option<VMStubTEInner>
  {
    if OverlapPre(c, tb, t) && OLWrites(c, tb, t, m, k) then Some(OLStub(c, tb, d, t)) else None
  }

  /** The records copy k of overlap memory row m receives, in processing order. */
  function OLList(c: Config, tb: Tables, st: seq<Tagged>, m: nat, k: nat): seq<VMStubTEInner>
  {
    Selected(st, (d, u) => OLOut(c, tb, d, u, m, k))
  }

  /** The record of every stub routed to overlap copy (m, k) is in it. */
  lemma OLListHas(c: Config, tb: Tables, st: seq<Tagged>, m: nat, k: nat, d: nat)
    requires AllOk(c, tb, st) && OverlapFit(c, tb) && d < |st| && OLWrites(c, tb, st[d], m, k)
    ensures OLStub(c, tb, d, st[d]) in OLList(c, tb, st, m, k)
  {
    SelectedHas(st, (d: nat, u: Tagged) => OLOut(c, tb, d, u, m, k), d);
  }

  /** Every record in overlap copy (m, k) is the record of a stub routed there. */
  lemma OLListFrom(c: Config, tb: Tables, st: seq<Tagged>, m: nat, k: nat, e: VMStubTEInner) returns (d: nat)
    requires AllOk(c, tb, st) && OverlapFit(c, tb) && e in OLList(c, tb, st, m, k)
    ensures d < |st| && OLWrites(c, tb, st[d], m, k) && e == OLStub(c, tb, d, st[d])
  {
    d := SelectedFrom(st, (d: nat, u: Tagged) => OLOut(c, tb, d, u, m, k), e);
    var t := st[d];
    assert StubOk(c, t);
    assert OLOut(c, tb, d, t, m, k) == Some(e);
  }

  /** Processing one more stub appends its record when it is routed to copy (m, k). */
  lemma OLListStep(c: Config, tb: Tables, st: seq<Tagged>, t: Tagged, m: nat, k: nat)
    requires OverlapPre(c, tb, t)
    ensures OLList(c, tb, st + [t], m, k)
         == OLList(c, tb, st, m, k) + (if OLWrites(c, tb, t, m, k) then [OLStub(c, tb, |st|, t)] else [])
  {
    SelectedStep(st, t, (d, u) => OLOut(c, tb, d, u, m, k));
  }

  /** No overlap record carries the 1023 marker, and only rows and copies the router holds get any. */
  lemma OLListValid(c: Config, tb: Tables, st: seq<Tagged>, m: nat, k: nat, e: VMStubTEInner)
    requires AllOk(c, tb, st) && OverlapFit(c, tb) && e in OLList(c, tb, st, m, k)
    ensures e.zBits != 1023
    ensures m < NVmOl(c) && k < c.maxOLCopies
  {
    var d := OLListFrom(c, tb, st, m, k, e);
    OLWriteSound(c, tb, st[d], m, k);
  }

  // ---------------------------------------------------------------------
  // TE-outer memories

  /** The record copy k of te-outer memory row m receives from the d-th stub processed, if any. */
  function TEOOut(c: Config, tb: Tables, d: nat, t: Tagged, m: nat, k: nat): Option<Binned<VMStubTEOuter>>
  {
    if OuterPre(c, tb, t) && TEOWrites(c, tb, t, m, k) then Some(TEOEntry(c, tb, d, t)) else None
  }

  /** The records copy k of te-outer memory row m receives, in processing order. */
  function TEOList(c: Config, tb: Tables, st: seq<Tagged>, m: nat, k: nat): seq<Binned<VMStubTEOuter>>
  {
    Selected(st, (d, u) => TEOOut(c, tb, d, u, m, k))
  }

  /** The record of every stub routed to outer copy (m, k) is in it. */
  lemma TEOListHas(c: Config, tb: Tables, st: seq<Tagged>, m: nat, k: nat, d: nat)
    requires AllOk(c, tb, st) && OuterFit(c, tb) && d < |st| && TEOWrites(c, tb, st[d], m, k)
    ensures TEOEntry(c, tb, d, st[d]) in TEOList(c, tb, st, m, k)
  {
    SelectedHas(st, (d: nat, u: Tagged) => TEOOut(c, tb, d, u, m, k), d);
  }

  /** Every record in outer copy (m, k) is the record of a stub routed there. */
  lemma TEOListFrom(c: Config, tb: Tables, st: seq<Tagged>, m: nat, k: nat, e: Binned<VMStubTEOuter>) returns (d: nat)
    requires AllOk(c, tb, st) && OuterFit(c, tb) && e in TEOList(c, tb, st, m, k)
    ensures d < |st| && TEOWrites(c, tb, st[d], m, k) && e == TEOEntry(c, tb, d, st[d])
  {
    d := SelectedFrom(st, (d: nat, u: Tagged) => TEOOut(c, tb, d, u, m, k), e);
    var t := st[d];
    assert StubOk(c, t);
    assert TEOOut(c, tb, d, t, m, k) == Some(e);
  }

  /** Processing one more stub appends its record when it is routed to copy (m, k). */
  lemma TEOListStep(c: Config, tb: Tables, st: seq<Tagged>, t: Tagged, m: nat, k: nat)
    requires OuterPre(c, tb, t)
    ensures TEOList(c, tb, st + [t], m, k)
         == TEOList(c, tb, st, m, k) + (if TEOWrites(c, tb, t, m, k) then [TEOEntry(c, tb, |st|, t)] else [])
  {
    SelectedStep(st, t, (d, u) => TEOOut(c, tb, d, u, m, k));
  }

  // ---------------------------------------------------------------------
  // Address-counted memories (inner and overlap)

  /** Writing l[0], l[1], ... at addresses 0, 1, ... over the contents base. */
  function Written<T>(base: map<nat, T>, l: seq<T>): (r: map<nat, T>)
    ensures forall a: nat :: a in r <==> a in base || a < |l|
    ensures forall a :: 0 <= a < |l| ==> r[a] == l[a]
    ensures forall a: nat :: a in base && a >= |l| ==> r[a] == base[a]
  {
    base + map a: nat | a < |l| :: l[a]
  }

  /** Writing one more record at the next address extends the written list by it. */
  lemma WrittenStep<T>(base: map<nat, T>, l: seq<T>, x: T)
    ensures Written(base, l)[|l| := x] == Written(base, l + [x])
  {
    var lhs, rhs := Written(base, l)[|l| := x], Written(base, l + [x]);
    assert forall a :: a in lhs <==> a in rhs;
    forall a | a in lhs
      ensures lhs[a] == rhs[a]
    {
      if a < |l| {
        assert (l + [x])[a] == l[a];
      }
    }
  }

  /** The contents an inner or overlap copy of row m holds before the first write. */
  function RowBase<T>(mask: nat, first: nat, old_: map<nat, T>, m: nat): map<nat, T>
  {
    if Bit(mask, m + first) then map[] else old_
  }

  /** The contents a binned outer copy of row m holds before the first write. */
  function BinnedBase<T>(mask: nat, first: nat, old_: seq<T>, m: nat): seq<T>
  {
    if Bit(mask, m + first) then [] else old_
  }

  /** A memory holding base followed by list l, with the new records xs appended, holds base followed by l + xs. */
  lemma AppendStep<T>(base: seq<T>, l: seq<T>, xs: seq<T>, cell: seq<T>, cell': seq<T>)
    requires cell == base + l && cell' == cell + xs
    ensures cell' == base + (l + xs)
  {
  }

  /** An outer copy holding its list after its initial contents still does so once one more stub's record, if routed there, is appended. */
  lemma TEOCellStep(c: Config, tb: Tables, st: seq<Tagged>, t: Tagged, m: nat, k: nat,
                    base: seq<Binned<VMStubTEOuter>>, cell: seq<Binned<VMStubTEOuter>>, cell': seq<Binned<VMStubTEOuter>>)
    requires OuterPre(c, tb, t)
    requires cell == base + TEOList(c, tb, st, m, k)
    requires cell' == cell + (if TEOWrites(c, tb, t, m, k) then [TEOEntry(c, tb, |st|, t)] else [])
    ensures cell' == base + TEOList(c, tb, st + [t], m, k)
  {
    TEOListStep(c, tb, st, t, m, k);
    AppendStep(base, TEOList(c, tb, st, m, k),
               if TEOWrites(c, tb, t, m, k) then [TEOEntry(c, tb, |st|, t)] else [], cell, cell');
  }

  /** A copy holding list l over base, with its address at the end of l, still does so once the new records xs (at most one) are written there. */
  lemma CellStep<T>(base: map<nat, T>, l: seq<T>, xs: seq<T>, cell: map<nat, T>, a: nat, cell': map<nat, T>, a': nat)
    requires |xs| <= 1
    requires cell == Written(base, l) && a == |l|
    requires cell' == (if |xs| == 1 then cell[a := xs[0]] else cell) && a' == a + |xs|
    ensures cell' == Written(base, l + xs) && a' == |l + xs|
  {
    if |xs| == 1 {
      assert xs == [xs[0]];
      WrittenStep(base, l, xs[0]);
    } else {
      assert l + xs == l;
    }
  }

  /**
   * One stub more, seen from a single inner copy (m, k): if the copy held its
   * list over base with the address at the list's end, writing the stub's
   * record at that address when the stub is routed there keeps it so.
   */
  lemma TEICellStep(c: Config, tb: Tables, st: seq<Tagged>, t: Tagged, m: nat, k: nat,
                    base: map<nat, VMStubTEInner>, cell: map<nat, VMStubTEInner>, a: nat,
                    cell': map<nat, VMStubTEInner>, a': nat)
    requires InnerPre(c, tb, t)
    requires cell == Written(base, TEIList(c, tb, st, m, k)) && a == |TEIList(c, tb, st, m, k)|
    requires cell' == (if TEIWrites(c, tb, t, m, k) then cell[a := TEIStub(c, tb, |st|, t)] else cell)
    requires a' == a + (if TEIWrites(c, tb, t, m, k) then 1 else 0)
    ensures cell' == Written(base, TEIList(c, tb, st + [t], m, k)) && a' == |TEIList(c, tb, st + [t], m, k)|
  {
    TEIListStep(c, tb, st, t, m, k);
    var xs := if TEIWrites(c, tb, t, m, k) then [TEIStub(c, tb, |st|, t)] else [];
    CellStep(base, TEIList(c, tb, st, m, k), xs, cell, a, cell', a');
  }

  /** The same for a single overlap copy (m, k). */
  lemma OLCellStep(c: Config, tb: Tables, st: seq<Tagged>, t: Tagged, m: nat, k: nat,
                   base: map<nat, VMStubTEInner>, cell: map<nat, VMStubTEInner>, a: nat,
                   cell': map<nat, VMStubTEInner>, a': nat)
    requires OverlapPre(c, tb, t)
    requires cell == Written(base, OLList(c, tb, st, m, k)) && a == |OLList(c, tb, st, m, k)|
    requires cell' == (if OLWrites(c, tb, t, m, k) then cell[a := OLStub(c, tb, |st|, t)] else cell)
    requires a' == a + (if OLWrites(c, tb, t, m, k) then 1 else 0)
    ensures cell' == Written(base, OLList(c, tb, st + [t], m, k)) && a' == |OLList(c, tb, st + [t], m, k)|
  {
    OLListStep(c, tb, st, t, m, k);
    var xs := if OLWrites(c, tb, t, m, k) then [OLStub(c, tb, |st|, t)] else [];
    CellStep(base, OLList(c, tb, st, m, k), xs, cell, a, cell', a');
  }
}
