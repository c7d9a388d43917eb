/** The 16-byte cell the codec is built over: two adjacent longs, the first written
    only by its owner, the second holding the packed write position and sequence.
    The words are plain sequential fields here. */
module TwoLongReference {
  import opened Words

  class BinaryTwoLongReference {
    var value: Long
    var value2: Long

    /** A cell over freshly allocated, zeroed storage. */
    constructor ()
      ensures value == 0 && value2 == 0
    {
      value, value2 := 0, 0;
    }

    /** `setOrderedValue`: overwrites the first word and nothing else. */
    method SetOrderedValue(v: Long)
      modifies this`value
      ensures value == v
    {
      value := v;
    }

    /** `setOrderedValue2`: overwrites the second word and nothing else. */
    method SetOrderedValue2(v: Long)
      modifies this`value2
      ensures value2 == v
    {
      value2 := v;
    }
  }
}
