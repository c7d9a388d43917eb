/** The pure part of RollCycleEncodeSequence: how a write position and a sequence
    number are packed into the second word of a two-long cell, and how a lookup by
    write position reads that word back. The split between the two fields is a shift
    derived from the roll cycle's index geometry: the low `shift` bits hold the
    sequence, the high `64 - shift` bits hold the low bits of the position. */
module SequenceCodec {
  import opened Words

  /** The shift leaves at least one bit for the sequence and one for the position. */
  predicate ValidShift(shift: nat)
  {
    1 <= shift <= 63
  }

  /** What `getSequence` answers: the stored sequence, "retry" when the cell was
      written for another position, or "not found" when the cell was never written. */
  datatype SequenceLookup = Found(sequence: nat) | NotFoundRetry | NotFound

  /** The two fields of a packed word. */
  datatype Slot = Slot(position: nat, sequence: nat)

  // ---------------------------------------------------------------------------
  // Index geometry

  /** floor(log2(n)). */
  function Log2(n: nat): (r: nat)
    requires n >= 1
    ensures Pow2(r) <= n < Pow2(r + 1)
    decreases n
  {
    if n == 1 then 0 else 1 + Log2(n / 2)
  }

  predicate IsPowerOfTwo(n: nat)
  {
    n >= 1 && Pow2(Log2(n)) == n
  }

  /** Bits reserved for the sequence: enough to number every entry that a two-level
      index of `indexCount` leaves of `indexCount` slots, one slot every
      `indexSpacing` entries, can address. */
  function CycleShift(indexCount: nat, indexSpacing: nat): nat
    requires indexCount >= 1 && indexSpacing >= 1
  {
    2 * Log2(indexCount) + Log2(indexSpacing)
  }

  predicate ValidGeometry(indexCount: nat, indexSpacing: nat)
  {
    indexCount >= 1 && indexSpacing >= 1 && ValidShift(CycleShift(indexCount, indexSpacing))
  }

  /** For power-of-two geometries the sequence field numbers exactly the
      `indexCount * indexCount * indexSpacing` entries the index can address. */
  lemma SequenceFieldCoversIndex(indexCount: nat, indexSpacing: nat)
    requires IsPowerOfTwo(indexCount) && IsPowerOfTwo(indexSpacing)
    ensures Pow2(CycleShift(indexCount, indexSpacing)) == indexCount * indexCount * indexSpacing
  {
    var c, s := Log2(indexCount), Log2(indexSpacing);
    Pow2Add(c, c);
    Pow2Add(c + c, s);
  }

  // ---------------------------------------------------------------------------
  // 64-bit shift and mask

  /** `Pow2(shift) * Pow2(64 - shift)` is the whole word range. */
  lemma SplitWord(shift: nat)
    requires ValidShift(shift)
    ensures Pow2(shift) * Pow2(64 - shift) == WordModulus
  {
    Pow2Add(shift, 64 - shift);
    Pow2Word();
  }

  /** Java's `x << shift` on a long drops the bits shifted out of the 64-bit word. */
  lemma ShiftLeftDropsHighBits(x: int, shift: nat)
    requires ValidShift(shift)
    ensures (x * Pow2(shift)) % WordModulus == (x % Pow2(64 - shift)) * Pow2(shift)
  {
    SplitWord(shift);
    ScaledMod(x, Pow2(shift), Pow2(64 - shift));
  }

  /** The long `x << shift`, as a bit pattern. */
  function ShiftLeft(x: Long, shift: nat): (w: Word)
    requires ValidShift(shift)
    ensures w == (x % Pow2(64 - shift)) * Pow2(shift)
  {
    ShiftLeftDropsHighBits(x, shift);
    (x * Pow2(shift)) % WordModulus
  }

  /** `w >>> shift`: the position field of a packed word. */
  function PositionKey(shift: nat, w: Word): nat
    requires ValidShift(shift)
  {
    QuotientNonNegative(w, Pow2(shift));
    w / Pow2(shift)
  }

  /** `w & ((1L << shift) - 1)`: the sequence field of a packed word. */
  function SequenceNumber(shift: nat, w: Word): nat
    requires ValidShift(shift)
  {
    w % Pow2(shift)
  }

  /** A high part below `Pow2(64 - shift)` and a low part below `Pow2(shift)` add up
      without overlap and without leaving the word. */
  lemma NoCarry(hi: int, lo: int, shift: nat)
    requires ValidShift(shift)
    requires 0 <= hi < Pow2(64 - shift) && 0 <= lo < Pow2(shift)
    ensures 0 <= hi * Pow2(shift) + lo < WordModulus
    ensures (hi * Pow2(shift) + lo) / Pow2(shift) == hi
    ensures (hi * Pow2(shift) + lo) % Pow2(shift) == lo
  {
    SplitWord(shift);
    PackedParts(hi, lo, Pow2(shift), Pow2(64 - shift));
  }

  /** `(position << shift) + (sequence & mask)` in 64-bit arithmetic: the position
      field holds the position's low `64 - shift` bits (higher bits are discarded),
      the sequence field the sequence's low `shift` bits. */
  function Encode(shift: nat, position: Long, sequence: Long): (w: Word)
    requires ValidShift(shift)
    ensures PositionKey(shift, w) == position % Pow2(64 - shift)
    ensures SequenceNumber(shift, w) == sequence % Pow2(shift)
  {
    var hi, lo := ShiftLeft(position, shift), sequence % Pow2(shift);
    NoCarry(position % Pow2(64 - shift), lo, shift);
    ModBelow(hi + lo, WordModulus);
    (hi + lo) % WordModulus
  }

  /** Splits a packed word into its two fields. */
  function Decode(shift: nat, w: Word): (d: Slot)
    requires ValidShift(shift)
    ensures d.position < Pow2(64 - shift) && d.sequence < Pow2(shift)
  {
    SplitWord(shift);
    QuotientBelow(w, Pow2(shift), Pow2(64 - shift));
    Slot(PositionKey(shift, w), SequenceNumber(shift, w))
  }

  // ---------------------------------------------------------------------------
  // Lookup

  /** `getSequence(forWritePosition)` over the cell's second word `word`: a zero word
      was never written; otherwise the stored sequence is returned exactly when the
      stored position field equals the queried position, shifted and masked the same
      way; any other word asks the caller to retry. */
  function Lookup(shift: nat, word: Word, forWritePosition: Long): (r: SequenceLookup)
    requires ValidShift(shift)
    ensures r.NotFound? <==> word == 0
    ensures r.Found? <==> word != 0 && Decode(shift, word).position == forWritePosition % Pow2(64 - shift)
    ensures r.Found? ==> r.sequence == Decode(shift, word).sequence
  {
    if word == 0 then
      NotFound
    else if PositionKey(shift, Encode(shift, forWritePosition, 0)) == PositionKey(shift, word) then
      Found(SequenceNumber(shift, word))
    else
      NotFoundRetry
  }

  // ---------------------------------------------------------------------------
  // Properties of the packing

  /** Two words with the same position field and the same sequence field are equal. */
  lemma FieldsDetermineWord(shift: nat, a: Word, b: Word)
    requires ValidShift(shift)
    requires PositionKey(shift, a) == PositionKey(shift, b)
    requires SequenceNumber(shift, a) == SequenceNumber(shift, b)
    ensures a == b
  {
    SameQuotientRemainder(a, b, Pow2(shift));
  }

  /** Decoding an encoded slot gives back the position and the sequence, each reduced
      to the width of its field; a position below `Pow2(64 - shift)` and a sequence
      below `Pow2(shift)` come back unchanged. */
  lemma DecodeEncode(shift: nat, position: Long, sequence: Long)
    requires ValidShift(shift)
    ensures Decode(shift, Encode(shift, position, sequence))
         == Slot(position % Pow2(64 - shift), sequence % Pow2(shift))
    ensures 0 <= position < Pow2(64 - shift) && 0 <= sequence < Pow2(shift) ==>
              Decode(shift, Encode(shift, position, sequence)) == Slot(position, sequence)
  {
    if 0 <= position < Pow2(64 - shift) && 0 <= sequence < Pow2(shift) {
      ModBelow(position, Pow2(64 - shift));
      ModBelow(sequence, Pow2(shift));
    }
  }

  /** With a shift of at most 16 the position field is at least 48 bits wide, so every
      48-bit position, up to `(1L << 48) - 1`, is stored without loss. */
  lemma FortyEightBitPositionsKept(shift: nat, position: Long, sequence: Long)
    requires 1 <= shift <= 16
    requires 0 <= position < Pow2(48) && 0 <= sequence < Pow2(shift)
    ensures Decode(shift, Encode(shift, position, sequence)) == Slot(position, sequence)
  {
    Pow2Monotone(48, 64 - shift);
    DecodeEncode(shift, position, sequence);
  }

  /** Every word is the encoding of its own decoded fields: no word is outside the codec. */
  lemma EncodeDecode(shift: nat, w: Word)
    requires ValidShift(shift)
    ensures Decode(shift, w).position < 0x8000_0000_0000_0000
    ensures Decode(shift, w).sequence < 0x8000_0000_0000_0000
    ensures Encode(shift, Decode(shift, w).position, Decode(shift, w).sequence) == w
  {
    var d := Decode(shift, w);
    Pow2Word();
    Pow2Monotone(64 - shift, 63);
    Pow2Monotone(shift, 63);
    ModBelow(d.position, Pow2(64 - shift));
    ModBelow(d.sequence, Pow2(shift));
    FieldsDetermineWord(shift, Encode(shift, d.position, d.sequence), w);
  }

  /** An encoded word is zero, the "never written" value, exactly when both the
      masked position and the masked sequence are zero. */
  lemma EncodeIsZero(shift: nat, position: Long, sequence: Long)
    requires ValidShift(shift)
    ensures Encode(shift, position, sequence) == 0
        <==> position % Pow2(64 - shift) == 0 && sequence % Pow2(shift) == 0
  {
    if position % Pow2(64 - shift) == 0 && sequence % Pow2(shift) == 0 {
      FieldsDetermineWord(shift, Encode(shift, position, sequence), 0);
    }
  }

  /** What a lookup answers after `setSequence(sequence, position)`: "not found" when
      the slot encodes to zero, the masked sequence when the queried position agrees
      with the stored one in its low `64 - shift` bits, and "retry" otherwise. */
  lemma LookupAfterSet(shift: nat, sequence: Long, position: Long, forWritePosition: Long)
    requires ValidShift(shift)
    ensures Lookup(shift, Encode(shift, position, sequence), forWritePosition)
         == if position % Pow2(64 - shift) == 0 && sequence % Pow2(shift) == 0 then NotFound
            else if forWritePosition % Pow2(64 - shift) == position % Pow2(64 - shift) then Found(sequence % Pow2(shift))
            else NotFoundRetry
  {
    EncodeIsZero(shift, position, sequence);
  }

  /** Round trip: a sequence that fits its field is found again under the position it
      was stored with, whatever that position's high bits are, unless the slot is
      the all-zero "never written" word. */
  lemma RoundTrip(shift: nat, sequence: Long, position: Long)
    requires ValidShift(shift)
    requires 0 <= sequence < Pow2(shift)
    requires sequence != 0 || position % Pow2(64 - shift) != 0
    ensures Lookup(shift, Encode(shift, position, sequence), position) == Found(sequence)
  {
    LookupAfterSet(shift, sequence, position, position);
    ModBelow(sequence, Pow2(shift));
  }

  /** No false match: two different positions that both fit the position field never
      answer for each other. */
  lemma DistinctPositionsNeverMatch(shift: nat, sequence: Long, position: Long, forWritePosition: Long)
    requires ValidShift(shift)
    requires 0 <= position < Pow2(64 - shift) && 0 <= forWritePosition < Pow2(64 - shift)
    requires position != forWritePosition
    ensures !Lookup(shift, Encode(shift, position, sequence), forWritePosition).Found?
  {
    ModBelow(position, Pow2(64 - shift));
    ModBelow(forWritePosition, Pow2(64 - shift));
  }

  /** The key a lookup compares is the whole queried position whenever that position
      fits the field: a position at or above 2^31 is not narrowed. */
  lemma WritePositionKeyIsFullWidth(shift: nat, forWritePosition: Long)
    requires ValidShift(shift)
    requires 0 <= forWritePosition < Pow2(64 - shift)
    ensures PositionKey(shift, Encode(shift, forWritePosition, 0)) == forWritePosition
  {
    ModBelow(forWritePosition, Pow2(64 - shift));
  }

  /** Java's `(long) (int) x`: keep the low 32 bits and sign-extend them. */
  function NarrowToInt(x: Long): (r: Long)
    ensures -0x8000_0000 <= r < 0x8000_0000
    ensures (r - x) % 0x1_0000_0000 == 0
  {
    (x + 0x8000_0000) % 0x1_0000_0000 - 0x8000_0000
  }

  /** A lookup that narrowed the queried position to an `int` would miss a slot
      stored at a position between 2^31 and 2^32 whenever the position field is
      wider than 32 bits. */
  lemma NarrowedQueryMisses(shift: nat, sequence: Long, position: Long)
    requires 1 <= shift <= 31
    requires 0x8000_0000 <= position < 0x1_0000_0000
    requires 0 <= sequence < Pow2(shift)
    ensures Lookup(shift, Encode(shift, position, sequence), position) == Found(sequence)
    ensures Lookup(shift, Encode(shift, position, sequence), NarrowToInt(position)) == NotFoundRetry
  {
    NarrowingChangesKey(shift, position);
    RoundTrip(shift, sequence, position);
    LookupAfterSet(shift, sequence, position, NarrowToInt(position));
  }

  /** Narrowing a position between 2^31 and 2^32 to an `int` yields a negative long
      whose low `64 - shift` bits differ from the position's when `64 - shift > 32`. */
  lemma NarrowingChangesKey(shift: nat, position: Long)
    requires 1 <= shift <= 31
    requires 0x8000_0000 <= position < 0x1_0000_0000
    ensures position % Pow2(64 - shift) == position
    ensures NarrowToInt(position) % Pow2(64 - shift) != position
  {
    var p := Pow2(64 - shift);
    Pow2Monotone(33, 64 - shift);
    Pow2Word();
    DivModOfSum(1, position - 0x8000_0000, 0x1_0000_0000);
    var narrowed := NarrowToInt(position);
    assert narrowed == position - 0x1_0000_0000;
    DivModOfSum(-1, narrowed + p, p);
    ModBelow(position, p);
  }

  /** The cell holding the raw word 2 (not written by `setSequence`) answers "retry"
      to a lookup for position 0x8001cc54, for every shift that leaves the position
      field at least three bits. */
  lemma UnwrittenWordAsksRetry(shift: nat)
    requires 1 <= shift <= 61
    ensures Lookup(shift, 2, 0x8001cc54) == NotFoundRetry
  {
    Pow2Monotone(1, shift);
    QuotientBelow(2, Pow2(shift), 2);
    assert Decode(shift, 2).position <= 1;
    QueriedKeyLowBits(shift);
  }

  /** The low three bits of 0x8001cc54 (binary 100) survive any position field of at
      least three bits. */
  lemma QueriedKeyLowBits(shift: nat)
    requires 1 <= shift <= 61
    ensures (0x8001cc54 % Pow2(64 - shift)) % 8 == 4
  {
    Pow2Byte();
    Pow2Add(3, 61 - shift);
    ModOfMultiple(0x8001cc54, 8, Pow2(61 - shift));
  }
}
