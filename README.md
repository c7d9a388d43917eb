# RollCycleEncodeSequence: write position and sequence packed in a two-long cell

Chronicle Queue publishes the position of the last write into a queue store together
with that entry's sequence number. Both go into one 64-bit word, the second long of a
16-byte `BinaryTwoLongReference` cell, so a reader never sees one without the other.
`RollCycleEncodeSequence` owns that word. It is built over the cell and over a roll
cycle's `defaultIndexCount()` and `defaultIndexSpacing()`, from which it derives a
shift:

The implementation of `RollCycleEncodeSequence` is not part of this model; only its
unit test is. The encoding below is reconstructed from what that test expects, plus
the convention that a zero word means "not yet written":

- `setSequence(sequence, position)` stores `(position << shift) + (sequence & mask)`.
  The low `shift` bits hold the sequence. The high `64 - shift` bits hold the low bits
  of the position. Higher position bits are discarded.
- `getSequence(forWritePosition)` shifts and masks the queried position the same way.
  If the position fields agree, it returns the stored sequence. If they do not, it
  returns the retry sentinel (`Sequence.NOT_FOUND_RETRY`). If the word is still zero
  (never written), it returns "not found". No test writes or queries a zero word, so
  this last answer is an assumption of the model.

The model has these parts:

- `Words` (words.dfy): Java `long`s, their 64-bit patterns, and the power-of-two
  division and remainder facts that make shifts and masks provable without
  bit-vectors.
- `SequenceCodec` (sequence_codec.dfy): the pure codec. It has the index geometry and
  the derived shift, `Encode`, `Decode` and `Lookup`, and the lemmas about them:
  round trip, no false match, the zero word, the narrowing cast, and the unwritten
  cell.
- `TwoLongReference` (two_long_reference.dfy): the cell, a class with two `long`
  fields. Each setter changes only its own word.
- `EncodeSequence` (roll_cycle_encode_sequence.dfy): the class
  `RollCycleEncodeSequence`. `SetSequence` updates only the cell's second word.
  `GetSequence` only reads it.
- `EncodeSequenceScenarios` (encode_sequence_scenarios.dfy): the four unit-test
  scenarios, stated against the class. Each is proved for every geometry whose shift leaves room for
  its values, not just for the four named roll cycles.

A shift is admissible when it is between 1 and 63, so that each field keeps at least
one bit. `Encode`, `Decode`, `Lookup` and the general lemmas (`DecodeEncode`,
`EncodeDecode`, `EncodeIsZero`, `LookupAfterSet`, `RoundTrip`,
`DistinctPositionsNeverMatch`, `WritePositionKeyIsFullWidth`) hold for every
admissible shift. The others hold on a narrower range, because outside it the
property is false:

- `FortyEightBitPositionsKept`: shift at most 16 (the position field must be 48 bits wide).
- `NarrowingChangesKey`, `NarrowedQueryMisses`: shift at most 31 (the position field must be wider than 32 bits).
- `UnwrittenWordAsksRetry`, `ForWritePosition`: shift at most 61. At shift 62 the raw
  word 2 matches position 0x8001cc54, whose low two bits are zero.
- `SetThenGet`, `SetGet`, `SetGetPositionNeedsMasking`, `SetGetPositionMinus1`: shift
  at least 4. A smaller sequence field cannot hold 0xb.

The exact split per roll cycle is not known. The model derives the shift as
`2 * log2(indexCount) + log2(indexSpacing)`. `SequenceFieldCoversIndex` justifies this
formula: for power-of-two geometries, that many bits number exactly the entries the
two-level index can address. It is a property of the chosen formula, not of anything in
the source.

The scenario `setGetPositionNeedsMasking` stores a position wider than 32 bits, looks
it up, and expects the sequence back. So the model masks: store and lookup discard the
same high bits. Positions wider than the field are never rejected.

A consequence of the zero "never written" word: storing sequence 0 at a position whose
kept bits are all zero produces the zero word. A later lookup then answers "not
found" (`EncodeIsZero`, `LookupAfterSet`).

## Model

| member | source | states |
|---|---|---|
| `SequenceCodec.Log2` | src/test/java/net/openhft/chronicle/queue/impl/single/RollCycleEncodeSequenceTest.java:41 | the derived bit count r satisfies 2^r <= n < 2^(r+1), for the index count and spacing the codec is built with |
| `SequenceCodec.SequenceFieldCoversIndex` | src/test/java/net/openhft/chronicle/queue/impl/single/RollCycleEncodeSequenceTest.java:41 | justifies the model's chosen shift formula: for power-of-two geometries the sequence field has exactly indexCount * indexCount * indexSpacing values |
| `SequenceCodec.Encode` | src/test/java/net/openhft/chronicle/queue/impl/single/RollCycleEncodeSequenceTest.java:63 | the packed word's position field is the position modulo 2^(64-shift) (bits shifted out of the word are dropped) and its sequence field is the sequence modulo 2^shift |
| `SequenceCodec.Decode` | src/test/java/net/openhft/chronicle/queue/impl/single/RollCycleEncodeSequenceTest.java:64 | splitting a word gives a position below 2^(64-shift) and a sequence below 2^shift |
| `SequenceCodec.DecodeEncode` | src/test/java/net/openhft/chronicle/queue/impl/single/RollCycleEncodeSequenceTest.java:68-75 | decoding an encoded slot gives the masked position and the masked sequence, and gives both back unchanged when they fit their fields |
| `SequenceCodec.EncodeDecode` | src/test/java/net/openhft/chronicle/queue/impl/single/RollCycleEncodeSequenceTest.java:38-40 | every 64-bit word of the cell is the encoding of its own decoded fields |
| `SequenceCodec.FortyEightBitPositionsKept` | src/test/java/net/openhft/chronicle/queue/impl/single/RollCycleEncodeSequenceTest.java:77-84 | with a shift of at most 16, every position below 2^48 and every fitting sequence is stored without loss |
| `SequenceCodec.Lookup` | src/test/java/net/openhft/chronicle/queue/impl/single/RollCycleEncodeSequenceTest.java:55-56 | not found exactly when the word is zero; found exactly when the word is non-zero and its position field equals the query's low 64-shift bits, and then the answer is the word's sequence field; retry otherwise |
| `SequenceCodec.FieldsDetermineWord` | src/test/java/net/openhft/chronicle/queue/impl/single/RollCycleEncodeSequenceTest.java:38-40 | two words with equal position and sequence fields are the same word |
| `SequenceCodec.EncodeIsZero` | src/test/java/net/openhft/chronicle/queue/impl/single/RollCycleEncodeSequenceTest.java:55 | an encoded slot is the never-written zero word if and only if both the masked position and the masked sequence are zero |
| `SequenceCodec.LookupAfterSet` | src/test/java/net/openhft/chronicle/queue/impl/single/RollCycleEncodeSequenceTest.java:59-84 | after storing (sequence, position), a lookup answers not found, the masked sequence, or retry, exactly according to whether the slot is zero and whether the queried position agrees in its low 64-shift bits |
| `SequenceCodec.RoundTrip` | src/test/java/net/openhft/chronicle/queue/impl/single/RollCycleEncodeSequenceTest.java:59-66 | a sequence that fits its field is found again under the position it was stored with, unless the slot is the zero word |
| `SequenceCodec.DistinctPositionsNeverMatch` | src/test/java/net/openhft/chronicle/queue/impl/single/RollCycleEncodeSequenceTest.java:49-57 | two different positions that both fit the field never answer for each other |
| `SequenceCodec.WritePositionKeyIsFullWidth` | src/test/java/net/openhft/chronicle/queue/impl/single/RollCycleEncodeSequenceTest.java:53-54 | the key a lookup compares is the whole queried position whenever it fits the field, including positions at or above 2^31 |
| `SequenceCodec.NarrowToInt` | src/test/java/net/openhft/chronicle/queue/impl/single/RollCycleEncodeSequenceTest.java:53 | a cast of a long to int and back keeps a value in the int range congruent to the long modulo 2^32 |
| `SequenceCodec.NarrowingChangesKey` | src/test/java/net/openhft/chronicle/queue/impl/single/RollCycleEncodeSequenceTest.java:53 | narrowing a position between 2^31 and 2^32 to an int changes its key whenever the position field is wider than 32 bits |
| `SequenceCodec.NarrowedQueryMisses` | src/test/java/net/openhft/chronicle/queue/impl/single/RollCycleEncodeSequenceTest.java:53-56 | for such a position, the full-width lookup finds the stored sequence, while a lookup with the narrowed position would answer retry |
| `SequenceCodec.UnwrittenWordAsksRetry` | src/test/java/net/openhft/chronicle/queue/impl/single/RollCycleEncodeSequenceTest.java:49-57 | a cell whose second word is the raw value 2 answers retry for position 0x8001cc54, for every shift from 1 to 61 |
| `TwoLongReference.BinaryTwoLongReference.constructor` | src/test/java/net/openhft/chronicle/queue/impl/single/RollCycleEncodeSequenceTest.java:38-40 | a new cell over fresh storage holds two zero words |
| `TwoLongReference.BinaryTwoLongReference.SetOrderedValue` | src/test/java/net/openhft/chronicle/queue/impl/single/RollCycleEncodeSequenceTest.java:51 | writes the first word and nothing else |
| `TwoLongReference.BinaryTwoLongReference.SetOrderedValue2` | src/test/java/net/openhft/chronicle/queue/impl/single/RollCycleEncodeSequenceTest.java:52 | writes the second word and nothing else |
| `EncodeSequence.RollCycleEncodeSequence.constructor` | src/test/java/net/openhft/chronicle/queue/impl/single/RollCycleEncodeSequenceTest.java:41 | the codec keeps the cell, the index count and the index spacing, and derives its shift from them |
| `EncodeSequence.RollCycleEncodeSequence.SetSequence` | src/test/java/net/openhft/chronicle/queue/impl/single/RollCycleEncodeSequenceTest.java:63 | only the cell's second word changes; it then decodes to the position's low 64-shift bits and the sequence's low shift bits |
| `EncodeSequence.RollCycleEncodeSequence.GetSequence` | src/test/java/net/openhft/chronicle/queue/impl/single/RollCycleEncodeSequenceTest.java:55 | the answer is the lookup of the cell's second word for the queried position; nothing is modified |
| `EncodeSequenceScenarios.ForWritePosition` | src/test/java/net/openhft/chronicle/queue/impl/single/RollCycleEncodeSequenceTest.java:49-57 | with raw words (1, 2) in the cell, getSequence(0x8001cc54) is the retry sentinel for every geometry with shift at most 61 |
| `EncodeSequenceScenarios.SetThenGet` | src/test/java/net/openhft/chronicle/queue/impl/single/RollCycleEncodeSequenceTest.java:59-84 | storing sequence 0xb at any long position and looking that position up finds 0xb, for every geometry with shift at least 4 |
| `EncodeSequenceScenarios.SetGet` | src/test/java/net/openhft/chronicle/queue/impl/single/RollCycleEncodeSequenceTest.java:59-66 | setSequence(0xb, 0x40284) then getSequence(0x40284) finds 0xb |
| `EncodeSequenceScenarios.SetGetPositionNeedsMasking` | src/test/java/net/openhft/chronicle/queue/impl/single/RollCycleEncodeSequenceTest.java:68-75 | the position 0x123456789ab, wider than 32 bits, is masked alike on store and lookup, and 0xb is found |
| `EncodeSequenceScenarios.SetGetPositionMinus1` | src/test/java/net/openhft/chronicle/queue/impl/single/RollCycleEncodeSequenceTest.java:77-84 | the position (1L << 48) - 1 finds 0xb |

## Left out

- StoreTailerTest.java: on-disk queues, method-writer and method-reader proxies, cycle roll on a clock advance, `toStart`/`toEnd`, and `afterLastWritten`. These live in queue and store code that is not part of this model. The settable clock `MutableTimeProvider` goes with them.
- Memory ordering of `setOrderedValue`/`setOrderedValue2` and cross-process publication of the cell: the two words are plain sequential fields.
- Buffer allocation and release (`Bytes.elasticByteBuffer()`, `bytes.release()`): resource plumbing. The cell starts with two zero words.
- The concrete `defaultIndexCount()`/`defaultIndexSpacing()` of DAILY, HOURLY, MINUTELY and HUGE_DAILY are not part of this model. The scenarios are proved for every geometry whose derived shift lies in the range each one needs.
- The four named cycles DAILY, HOURLY, MINUTELY and HUGE_DAILY are covered only if their derived shift lies between 4 and 61. The set/get scenarios need at least 4 and the retry scenario at most 61; this model does not establish that range for those cycles.
- SequenceCodec.Lookup: the `NotFound` answer for a zero second word is an assumption ("zero means not yet written"). No visible test exercises it. It also decides the case `RoundTrip` excludes, a zero sequence stored at a position whose kept bits are zero.
- Java masks a shift distance to its low 6 bits; the model's shift is always between 1 and 63, so that masking never applies and is not modelled.
- The numeric values of the sentinels (`NOT_FOUND_RETRY`, "not found") are not part of this model. They are distinct constructors of `SequenceLookup`. A found sequence is a natural number below 2^shift.
- The first word of the cell is carried but given no meaning; the codec neither reads nor writes it.
- Rejecting a position wider than the field is not modelled; positions are masked instead (see above).
