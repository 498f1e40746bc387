/**
 * The order in which the router reads its six input memories.
 *
 * Each iteration reads one stub from the lowest-numbered input that still
 * has unread entries; an input disabled by the input mask counts as empty.
 * So the stubs are processed as the concatenation of the enabled inputs in
 * input order, and the d-th stub processed is entry d - Start(k) of the input
 * k whose block [Start(k), Start(k + 1)) contains d.
 */
module InputStream {
  import opened Bits
  import opened Stubs

  /** The router has six input memories. */
  const NInputs: nat := 6

  predicate InputsShaped(inputs: seq<seq<InputStub>>)
  {
    |inputs| == NInputs
  }

  /** The entries of input k that the router sees: none when the input mask disables it. */
  function Active(imask: nat, inputs: seq<seq<InputStub>>, k: nat): seq<InputStub>
    requires InputsShaped(inputs) && k < NInputs
  {
    if Bit(imask, k) then inputs[k] else []
  }

  /** Position in the processing order of the first entry of input k (k = 6: the total count). */
  function Start(imask: nat, inputs: seq<seq<InputStub>>, k: nat): nat
    requires InputsShaped(inputs) && k <= NInputs
  {
    if k == 0 then 0 else Start(imask, inputs, k - 1) + |Active(imask, inputs, k - 1)|
  }

  /** Number of stubs the router has to process. */
  function Total(imask: nat, inputs: seq<seq<InputStub>>): nat
    requires InputsShaped(inputs)
  {
    Start(imask, inputs, NInputs)
  }

  /** The entries of input k, each tagged with the input it came from. */
  function Tag(k: nat, s: seq<InputStub>): (r: seq<Tagged>)
    ensures |r| == |s|
  {
    seq(|s|, j requires 0 <= j < |s| => Tagged(k, s[j]))
  }

  /** Inputs 0 .. k - 1 in input order. */
  function StreamUpTo(imask: nat, inputs: seq<seq<InputStub>>, k: nat): (s: seq<Tagged>)
    requires InputsShaped(inputs) && k <= NInputs
    ensures |s| == Start(imask, inputs, k)
  {
    if k == 0 then [] else StreamUpTo(imask, inputs, k - 1) + Tag(k - 1, Active(imask, inputs, k - 1))
  }

  /** Every stub the router would process, in processing order. */
  function Stream(imask: nat, inputs: seq<seq<InputStub>>): (s: seq<Tagged>)
    requires InputsShaped(inputs)
    ensures |s| == Total(imask, inputs)
  {
    StreamUpTo(imask, inputs, NInputs)
  }

  /** The blocks of the inputs follow each other. */
  lemma {:induction false} StartMonotone(imask: nat, inputs: seq<seq<InputStub>>, j: nat, k: nat)
    requires InputsShaped(inputs) && j <= k <= NInputs
    ensures Start(imask, inputs, j) <= Start(imask, inputs, k)
    decreases k - j
  {
    if j < k {
      StartMonotone(imask, inputs, j, k - 1);
    }
  }

  /** Entry d of inputs 0 .. k - 1 is an entry of the input j whose block holds d. */
  lemma {:induction false} StreamUpToAt(imask: nat, inputs: seq<seq<InputStub>>, k: nat, j: nat, d: nat)
    requires InputsShaped(inputs) && j < k <= NInputs
    requires Start(imask, inputs, j) <= d < Start(imask, inputs, j + 1)
    ensures d < |StreamUpTo(imask, inputs, k)|
    ensures StreamUpTo(imask, inputs, k)[d] == Tagged(j, Active(imask, inputs, j)[d - Start(imask, inputs, j)])
    decreases k
  {
    var a, b := StreamUpTo(imask, inputs, k - 1), Tag(k - 1, Active(imask, inputs, k - 1));
    assert StreamUpTo(imask, inputs, k) == a + b;
    if k == j + 1 {
      assert (a + b)[d] == b[d - |a|];
    } else {
      StreamUpToAt(imask, inputs, k - 1, j, d);
      StartMonotone(imask, inputs, j + 1, k);
      assert (a + b)[d] == a[d];
    }
  }

  /**
   * The d-th stub processed is entry d - Start(j) of input j, for the input j
   * whose block holds d, and it is tagged with j.
   */
  lemma StreamAt(imask: nat, inputs: seq<seq<InputStub>>, j: nat, d: nat)
    requires InputsShaped(inputs) && j < NInputs
    requires Start(imask, inputs, j) <= d < Start(imask, inputs, j + 1)
    ensures d < |Stream(imask, inputs)| == Total(imask, inputs)
    ensures Stream(imask, inputs)[d] == Tagged(j, Active(imask, inputs, j)[d - Start(imask, inputs, j)])
  {
    StreamUpToAt(imask, inputs, NInputs, j, d);
  }

  /** Entries of input k not yet read after d stubs have been processed. */
  function Remaining(imask: nat, inputs: seq<seq<InputStub>>, k: nat, d: nat): (n: nat)
    requires InputsShaped(inputs) && k < NInputs
    ensures n <= |Active(imask, inputs, k)|
    ensures n == 0 <==> d >= Start(imask, inputs, k + 1) || |Active(imask, inputs, k)| == 0
  {
    var s, e := Start(imask, inputs, k), Start(imask, inputs, k + 1);
    if d <= s then e - s else if d >= e then 0 else e - d
  }

  /** Sum of the remaining counts of inputs k .. 5. */
  function RemainingFrom(imask: nat, inputs: seq<seq<InputStub>>, k: nat, d: nat): nat
    requires InputsShaped(inputs) && k <= NInputs
    decreases NInputs - k
  {
    if k == NInputs then 0 else Remaining(imask, inputs, k, d) + RemainingFrom(imask, inputs, k + 1, d)
  }

  /** Before any stub is processed, every enabled input still holds all its entries. */
  lemma {:induction false} RemainingAtStart(imask: nat, inputs: seq<seq<InputStub>>, k: nat)
    requires InputsShaped(inputs) && k < NInputs
    ensures Remaining(imask, inputs, k, 0) == |Active(imask, inputs, k)|
  {
  }

  /** The remaining counts add up to the stubs not yet processed. */
  lemma {:induction false} RemainingTotal(imask: nat, inputs: seq<seq<InputStub>>, k: nat, d: nat)
    requires InputsShaped(inputs) && k <= NInputs
    requires Start(imask, inputs, k) <= d <= Total(imask, inputs)
    ensures RemainingFrom(imask, inputs, k, d) == Total(imask, inputs) - d
    decreases NInputs - k
  {
    if k < NInputs {
      var e := Start(imask, inputs, k + 1);
      if d <= e {
        RemainingFromBefore(imask, inputs, k + 1, d);
      } else {
        RemainingTotal(imask, inputs, k + 1, d);
      }
    }
  }

  /** Before input k's block starts, inputs k .. 5 still hold all their entries. */
  lemma {:induction false} RemainingFromBefore(imask: nat, inputs: seq<seq<InputStub>>, k: nat, d: nat)
    requires InputsShaped(inputs) && k <= NInputs
    requires d <= Start(imask, inputs, k)
    ensures RemainingFrom(imask, inputs, k, d) == Total(imask, inputs) - Start(imask, inputs, k)
    decreases NInputs - k
  {
    if k < NInputs {
      StartMonotone(imask, inputs, k, k + 1);
      RemainingFromBefore(imask, inputs, k + 1, d);
    }
  }

  /**
   * The input the router reads from after d stubs (the lowest one with
   * entries left) is the one whose block holds d.
   */
  lemma {:induction false} FirstNonEmpty(imask: nat, inputs: seq<seq<InputStub>>, k: nat, d: nat)
    requires InputsShaped(inputs) && k < NInputs
    requires forall j :: 0 <= j < k ==> Remaining(imask, inputs, j, d) == 0
    requires Remaining(imask, inputs, k, d) > 0
    ensures Start(imask, inputs, k) <= d < Start(imask, inputs, k + 1)
  {
    if d < Start(imask, inputs, k) {
      var j := BlockOf(imask, inputs, k, d);
      assert false;
    }
  }

  /** The nonempty block before Start(k) that holds d. */
  lemma {:induction false} BlockOf(imask: nat, inputs: seq<seq<InputStub>>, k: nat, d: nat) returns (j: nat)
    requires InputsShaped(inputs) && k <= NInputs && d < Start(imask, inputs, k)
    ensures j < k && Start(imask, inputs, j) <= d < Start(imask, inputs, j + 1)
    ensures Remaining(imask, inputs, j, d) > 0
  {
    if d >= Start(imask, inputs, k - 1) {
      j := k - 1;
    } else {
      j := BlockOf(imask, inputs, k - 1, d);
    }
  }

  /** Once input k's block is finished, every input after it whose block starts later is untouched. */
  lemma {:induction false} LaterBlocks(imask: nat, inputs: seq<seq<InputStub>>, k: nat, j: nat, d: nat)
    requires InputsShaped(inputs) && k < j < NInputs
    requires d < Start(imask, inputs, k + 1)
    ensures Remaining(imask, inputs, j, d) == |Active(imask, inputs, j)|
  {
    StartMonotone(imask, inputs, k + 1, j);
  }

  /** The six remaining counts after d stubs have been processed. */
  function Counts(imask: nat, inputs: seq<seq<InputStub>>, d: nat): (cnt: seq<nat>)
    requires InputsShaped(inputs)
    ensures |cnt| == NInputs
    ensures forall k :: 0 <= k < NInputs ==> cnt[k] == Remaining(imask, inputs, k, d)
  {
    seq(NInputs, k requires 0 <= k < NInputs => Remaining(imask, inputs, k, d))
  }

  /**
   * Reading stub d from input k (whose block holds d) takes one entry off
   * input k and leaves the others alone; afterwards the block holding d + 1
   * is still k's, or it starts at d + 1.
   */
  lemma {:induction false} RemainingStep(imask: nat, inputs: seq<seq<InputStub>>, k: nat, d: nat)
    requires InputsShaped(inputs) && k < NInputs
    requires Start(imask, inputs, k) <= d < Start(imask, inputs, k + 1)
    ensures Counts(imask, inputs, d + 1) == Counts(imask, inputs, d)[k := Counts(imask, inputs, d)[k] - 1]
  {
    var before, after := Counts(imask, inputs, d), Counts(imask, inputs, d + 1);
    forall j | 0 <= j < NInputs
      ensures after[j] == before[k := before[k] - 1][j]
    {
      if j < k {
        StartMonotone(imask, inputs, j + 1, k);
      } else if j > k {
        StartMonotone(imask, inputs, k + 1, j);
      }
    }
  }
}
