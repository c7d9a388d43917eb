/** RollCycleEncodeSequence: publishes the last write position together with its
    sequence number in the second word of a two-long cell, and answers, for a
    write position, the sequence stored for it. */
module EncodeSequence {
  import opened Words
  import opened SequenceCodec
  import opened TwoLongReference

  class RollCycleEncodeSequence {
    const writePositionAndSequence: BinaryTwoLongReference
    const indexCount: nat
    const indexSpacing: nat
    const cycleShift: nat

    ghost predicate Valid()
    {
      ValidGeometry(indexCount, indexSpacing)
      && cycleShift == CycleShift(indexCount, indexSpacing)
    }

    /** Built over a cell and a roll cycle's index count and spacing; the shift that
        splits the packed word is derived from the geometry once. */
    constructor (cell: BinaryTwoLongReference, indexCount: nat, indexSpacing: nat)
      requires ValidGeometry(indexCount, indexSpacing)
      ensures Valid()
      ensures writePositionAndSequence == cell
      ensures this.indexCount == indexCount && this.indexSpacing == indexSpacing
    {
      writePositionAndSequence := cell;
      this.indexCount := indexCount;
      this.indexSpacing := indexSpacing;
      cycleShift := CycleShift(indexCount, indexSpacing);
    }

    /** `setSequence(sequence, position)`: overwrites the cell's second word with the
        packed slot; the first word is untouched. The stored word decodes to the
        position's low `64 - shift` bits and the sequence's low `shift` bits. */
    method SetSequence(sequence: Long, position: Long)
      requires Valid()
      modifies writePositionAndSequence`value2
      ensures Decode(cycleShift, ToWord(writePositionAndSequence.value2))
           == Slot(position % Pow2(64 - cycleShift), sequence % Pow2(cycleShift))
      ensures ToWord(writePositionAndSequence.value2) == Encode(cycleShift, position, sequence)
    {
      var packed := Encode(cycleShift, position, sequence);
      DecodeEncode(cycleShift, position, sequence);
      writePositionAndSequence.SetOrderedValue2(ToLong(packed));
    }

    /** `getSequence(forWritePosition)`: reads the cell's second word only. The pure
        function `Lookup` is its specification; this body computes the same answer
        step by step from the word. */
    method GetSequence(forWritePosition: Long) returns (r: SequenceLookup)
      requires Valid()
      ensures r == Lookup(cycleShift, ToWord(writePositionAndSequence.value2), forWritePosition)
    {
      var sequenceValue := writePositionAndSequence.value2;
      if sequenceValue == 0 {
        return NotFound;
      }
      var stored := ToWord(sequenceValue);
      var writePositionAsCycle := Encode(cycleShift, forWritePosition, 0);
      if PositionKey(cycleShift, writePositionAsCycle) == PositionKey(cycleShift, stored) {
        r := Found(SequenceNumber(cycleShift, stored));
      } else {
        r := NotFoundRetry;
      }
    }
  }
}
