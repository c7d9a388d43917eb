/** The four scenarios exercised against RollCycleEncodeSequence, stated for every
    roll-cycle geometry whose shift leaves room for their values, rather than for
    the four named cycles whose constants are not part of this model. */
module EncodeSequenceScenarios {
  import opened Words
  import opened SequenceCodec
  import opened TwoLongReference
  import opened EncodeSequence

  /** A cell holding the raw words (1, 2), not written by `setSequence`, answers
      "retry" to a lookup for write position 0x8001cc54 (a value that is negative
      once narrowed to an `int`). */
  method ForWritePosition(indexCount: nat, indexSpacing: nat) returns (sequence: SequenceLookup)
    requires ValidGeometry(indexCount, indexSpacing) && CycleShift(indexCount, indexSpacing) <= 61
    ensures sequence == NotFoundRetry
  {
    var cell := new BinaryTwoLongReference();
    var codec := new RollCycleEncodeSequence(cell, indexCount, indexSpacing);
    cell.SetOrderedValue(1);
    cell.SetOrderedValue2(2);
    sequence := codec.GetSequence(0x8001cc54);
    UnwrittenWordAsksRetry(codec.cycleShift);
  }

  /** Stores sequence 0xb at `position`, then looks `position` up. */
  method SetThenGet(indexCount: nat, indexSpacing: nat, position: Long) returns (sequence: SequenceLookup)
    requires ValidGeometry(indexCount, indexSpacing) && CycleShift(indexCount, indexSpacing) >= 4
    ensures sequence == Found(0xb)
  {
    var cell := new BinaryTwoLongReference();
    var codec := new RollCycleEncodeSequence(cell, indexCount, indexSpacing);
    codec.SetSequence(0xb, position);
    sequence := codec.GetSequence(position);
    Pow2Monotone(4, codec.cycleShift);
    RoundTrip(codec.cycleShift, 0xb, position);
  }

  /** `setGet`: a position below 2^32. */
  method SetGet(indexCount: nat, indexSpacing: nat) returns (sequence: SequenceLookup)
    requires ValidGeometry(indexCount, indexSpacing) && CycleShift(indexCount, indexSpacing) >= 4
    ensures sequence == Found(0xb)
  {
    sequence := SetThenGet(indexCount, indexSpacing, 0x40284);
  }

  /** `setGetPositionNeedsMasking`: a position wider than 32 bits is masked the same
      way on store and on lookup. */
  method SetGetPositionNeedsMasking(indexCount: nat, indexSpacing: nat) returns (sequence: SequenceLookup)
    requires ValidGeometry(indexCount, indexSpacing) && CycleShift(indexCount, indexSpacing) >= 4
    ensures sequence == Found(0xb)
  {
    sequence := SetThenGet(indexCount, indexSpacing, 0x123_4567_89ab);
  }

  /** `setGetPositionMinus1`: the largest 48-bit position. */
  method SetGetPositionMinus1(indexCount: nat, indexSpacing: nat) returns (sequence: SequenceLookup)
    requires ValidGeometry(indexCount, indexSpacing) && CycleShift(indexCount, indexSpacing) >= 4
    ensures sequence == Found(0xb)
  {
    sequence := SetThenGet(indexCount, indexSpacing, 0xFFFF_FFFF_FFFF);
  }
}
