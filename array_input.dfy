/**
 * The byte input `com.github.jinahya.bit.io.ArrayInput`, which hands out the
 * bytes of a source array from an index up to a limit.
 */
module ArrayInputs {
  import opened Outcomes
  import opened Bits

  class ArrayInput {
    /** The array the bytes come from; null until it is provided. */
    var source: array?<Int8>
    /** The slot the next byte comes from. */
    var index: Int32
    /** The value `index` must stay below. */
    var limit: Int32

    constructor (source: array?<Int8>, index: Int32, limit: Int32)
      ensures this.source == source && this.index == index && this.limit == limit
    {
      this.source := source;
      this.index := index;
      this.limit := limit;
    }

    /**
     * `readUnsignedByte()`: an index at or past the limit fails with
     * IndexOutOfBounds and moves nothing; otherwise the index moves up by one
     * before `source[index]` is read, so a null source or an index outside
     * the array fails after the move. A byte read is in 0..255.
     */
    method ReadUnsignedByte() returns (r: Result<Octet>)
      modifies this`index
      ensures old(index) >= limit ==> r == Err(IndexOutOfBounds) && index == old(index)
      ensures old(index) < limit ==> index == old(index) + 1
      ensures old(index) < limit && source == null ==> r == Err(NullPointer)
      ensures old(index) < limit && source != null ==>
                if 0 <= old(index) < source.Length then r == Ok(Unsigned8(source[old(index)]))
                else r == Err(IndexOutOfBounds)
    {
      if index >= limit {
        return Err(IndexOutOfBounds);
      }
      var i := index;
      index := i + 1;
      if source == null {
        return Err(NullPointer);
      }
      if i < 0 || i >= source.Length {
        return Err(IndexOutOfBounds);
      }
      return Ok(Unsigned8(source[i]));
    }
  }
}
