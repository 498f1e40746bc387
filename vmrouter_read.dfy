/**
 * The router's reading side: six entry counters, a running total and one
 * shared read address, updated once per stub read.
 *
 * ReadState ties these variables to the processing order of InputStream
 * after d stubs: counter k is what input k has left, the total is what all
 * inputs have left, and the read address is the position reached in the
 * input being read.
 */
module InputReader {
  import opened Bits
  import opened Stubs
  import opened InputStream
  import opened RouterConfig
  import opened RouterSpec

  /**
   * The input read next: the first of inputs 0 .. 4 with entries left,
   * otherwise input 5 (which is read without looking at its counter).
   */
  function ReadPriority(cnt: seq<nat>): (k: nat)
    requires |cnt| == NInputs
    ensures k < NInputs
    ensures forall j :: 0 <= j < k ==> cnt[j] == 0
    ensures (exists j :: 0 <= j < NInputs && cnt[j] != 0) ==> cnt[k] != 0
  {
    if cnt[0] != 0 then 0
    else if cnt[1] != 0 then 1
    else if cnt[2] != 0 then 2
    else if cnt[3] != 0 then 3
    else if cnt[4] != 0 then 4
    else 5
  }

  /** The reading variables of the main loop: the six entry counters, their total and the shared read address. */
  datatype Reader = Reader(cnt: seq<nat>, ntot: nat, readAddr: nat)

  /** The reading variables after d stubs have been read. */
  ghost predicate ReadState(imask: nat, inputs: seq<seq<InputStub>>, rd: Reader, d: nat)
  {
    && InputsShaped(inputs)
    && d <= Total(imask, inputs) && rd.ntot == Total(imask, inputs) - d
    && rd.cnt == Counts(imask, inputs, d)
    && (rd.ntot > 0 ==> rd.readAddr + rd.cnt[ReadPriority(rd.cnt)] == |Active(imask, inputs, ReadPriority(rd.cnt))|)
  }

  /** The stub total is the sum of the six input counts. */
  lemma TotalIsSum(imask: nat, inputs: seq<seq<InputStub>>)
    requires InputsShaped(inputs)
    ensures Total(imask, inputs)
         == |Active(imask, inputs, 0)| + |Active(imask, inputs, 1)| + |Active(imask, inputs, 2)|
          + |Active(imask, inputs, 3)| + |Active(imask, inputs, 4)| + |Active(imask, inputs, 5)|
  {
    assert Start(imask, inputs, 1) == |Active(imask, inputs, 0)|;
    assert Start(imask, inputs, 2) == Start(imask, inputs, 1) + |Active(imask, inputs, 1)|;
    assert Start(imask, inputs, 3) == Start(imask, inputs, 2) + |Active(imask, inputs, 2)|;
    assert Start(imask, inputs, 4) == Start(imask, inputs, 3) + |Active(imask, inputs, 3)|;
    assert Start(imask, inputs, 5) == Start(imask, inputs, 4) + |Active(imask, inputs, 4)|;
  }

  /** The entry count the router takes for input k: zero when the input mask disables it. */
  function EntryCount(imask: nat, inputs: seq<seq<InputStub>>, k: nat): (n: nat)
    requires InputsShaped(inputs) && k < NInputs
    ensures n == |Active(imask, inputs, k)|
    ensures n == Remaining(imask, inputs, k, 0)
  {
    RemainingAtStart(imask, inputs, k);
    if Bit(imask, k) then |inputs[k]| else 0
  }

  /**
   * Before the loop: each counter holds its input's entry count, zero when the
   * input mask disables it, the total their sum, and the read address zero.
   */
  function StartReading(imask: nat, inputs: seq<seq<InputStub>>): (rd: Reader)
    requires InputsShaped(inputs)
    ensures ReadState(imask, inputs, rd, 0)
    ensures rd.ntot == Total(imask, inputs) && rd.readAddr == 0
  {
    var cnt := [EntryCount(imask, inputs, 0), EntryCount(imask, inputs, 1), EntryCount(imask, inputs, 2),
                EntryCount(imask, inputs, 3), EntryCount(imask, inputs, 4), EntryCount(imask, inputs, 5)];
    TotalIsSum(imask, inputs);
    assert cnt == Counts(imask, inputs, 0);
    Reader(cnt, cnt[0] + cnt[1] + cnt[2] + cnt[3] + cnt[4] + cnt[5], 0)
  }

  /**
   * While stubs are left, the input with priority is the enabled input whose
   * block holds d, its counter runs to the end of that block, and the read
   * address is the position of entry d inside it.
   */
  lemma ReadFrom(imask: nat, inputs: seq<seq<InputStub>>, rd: Reader, d: nat)
    requires ReadState(imask, inputs, rd, d) && rd.ntot != 0
    ensures var k := ReadPriority(rd.cnt);
      && Start(imask, inputs, k) <= d < Start(imask, inputs, k + 1)
      && Bit(imask, k) && rd.readAddr == d - Start(imask, inputs, k) < |inputs[k]|
      && rd.cnt[k] == Start(imask, inputs, k + 1) - d
      && Stream(imask, inputs)[d] == Tagged(k, inputs[k][rd.readAddr])
  {
    var j := BlockOf(imask, inputs, NInputs, d);
    assert rd.cnt[j] != 0;
    var k := ReadPriority(rd.cnt);
    FirstNonEmpty(imask, inputs, k, d);
    StreamAt(imask, inputs, k, d);
  }

  /** Reading the last entry of input k: its counter drops to zero, and the next input with entries starts at address zero. */
  lemma ReadLast(imask: nat, inputs: seq<seq<InputStub>>, rd: Reader, d: nat, k: nat)
    requires ReadState(imask, inputs, rd, d) && rd.ntot != 0
    requires k == ReadPriority(rd.cnt) && rd.cnt[k] == 1
    requires Start(imask, inputs, k) <= d < Start(imask, inputs, k + 1)
    ensures ReadState(imask, inputs, Reader(rd.cnt[k := 0], rd.ntot - 1, 0), d + 1)
  {
    var cnt' := rd.cnt[k := 0];
    RemainingStep(imask, inputs, k, d);
    if rd.ntot - 1 > 0 {
      var k' := ReadPriority(cnt');
      var j' := BlockOf(imask, inputs, NInputs, d + 1);
      assert cnt'[j'] != 0;
      assert forall j :: 0 <= j <= k ==> cnt'[j] == 0;
      assert k < k';
      LaterBlocks(imask, inputs, k, k', d);
    }
  }

  /** Reading an entry of input k that is not its last: the counter drops by one and the address moves to the next entry. */
  lemma ReadMore(imask: nat, inputs: seq<seq<InputStub>>, rd: Reader, d: nat, k: nat)
    requires ReadState(imask, inputs, rd, d) && rd.ntot != 0
    requires k == ReadPriority(rd.cnt) && rd.cnt[k] > 1
    requires Start(imask, inputs, k) <= d < Start(imask, inputs, k + 1)
    ensures ReadState(imask, inputs, Reader(rd.cnt[k := rd.cnt[k] - 1], rd.ntot - 1, rd.readAddr + 1), d + 1)
  {
    RemainingStep(imask, inputs, k, d);
    assert ReadPriority(rd.cnt[k := rd.cnt[k] - 1]) == k;
  }

  /**
   * One read: the stub taken is the d-th of the processing order, from the
   * input with priority, at the current read address; that input's counter
   * and the total drop by one, and the read address moves on, or returns to
   * zero when the input is used up.
   */
  function ReadNext(c: Config, inputs: seq<seq<InputStub>>, rd: Reader, ghost d: nat): (r: (Tagged, Reader))
    requires InputsOk(c, inputs) && ReadState(c.imask, inputs, rd, d) && rd.ntot != 0
    ensures d < Total(c.imask, inputs) && r.0 == Stream(c.imask, inputs)[d]
    ensures ReadState(c.imask, inputs, r.1, d + 1)
  {
    var k := ReadPriority(rd.cnt);
    ReadFrom(c.imask, inputs, rd, d);
    var t := Tagged(k, inputs[k][rd.readAddr]);
    var cnt' := rd.cnt[k := rd.cnt[k] - 1];
    if cnt'[k] == 0 then
      ReadLast(c.imask, inputs, rd, d, k);
      (t, Reader(cnt', rd.ntot - 1, 0))
    else
      assert rd.readAddr + 1 < |inputs[k]| <= Pow2(c.memAddrBits);
      ModSmall(rd.readAddr + 1, Pow2(c.memAddrBits));
      ReadMore(c.imask, inputs, rd, d, k);
      (t, Reader(cnt', rd.ntot - 1, (rd.readAddr + 1) % Pow2(c.memAddrBits)))
  }
}
