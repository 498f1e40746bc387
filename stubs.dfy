/**
 * The stub records that flow between the router and the matching engine.
 *
 * The firmware packs each record into one bit vector and reads it back with
 * accessors (`getPhi`, `getZ`, `setFinePhi`, ...). Here a record is a value
 * with one named field per accessor; the field widths live in `StubFormat`.
 */
module Stubs {
  import opened Bits

  /** Field widths of one input stub kind (`AllStub<InType>`). */
  datatype StubFormat = StubFormat(phiBits: nat, zBits: nat, rBits: nat, bendBits: nat)

  /**
   * One input stub: `phi`, `r` and `bend` are the raw unsigned bit patterns the
   * router reads with `.range()`, `z` is the two's-complement value of its field.
   */
  datatype InputStub = InputStub(phi: nat, z: int, r: nat, bend: nat)

  /** The stub fits the widths of format f. */
  predicate Fits(s: InputStub, f: StubFormat)
  {
    && f.zBits >= 1
    && s.phi < Pow2(f.phiBits)
    && 0 <= s.z + Pow2(f.zBits - 1) < Pow2(f.zBits)
    && s.r < Pow2(f.rBits)
    && s.bend < Pow2(f.bendBits)
  }

  /** A stub read from input channel `channel`. */
  datatype Tagged = Tagged(channel: nat, stub: InputStub)

  /** Record written to a mid-layer (ME) memory. */
  datatype VMStubME = VMStubME(index: nat, bend: nat, fineZ: nat)

  /** Record written to an inner-pairing (TE-inner) or overlap memory. */
  datatype VMStubTEInner = VMStubTEInner(index: nat, bend: nat, zBits: int, finePhi: nat)

  /** Record written to an outer-pairing (TE-outer) memory; the engine reads these back. */
  datatype VMStubTEOuter = VMStubTEOuter(index: nat, bend: nat, finePhi: nat, fineZ: nat)

  /** A record appended to bin `bin` of a binned memory. */
  datatype Binned<T> = Binned(bin: nat, stub: T)
}
