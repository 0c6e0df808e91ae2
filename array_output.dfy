/**
 * The byte output `com.github.jinahya.io.bit.ArrayOutput`, which stores the
 * bytes written in a target array from an offset on and counts them.
 */
module ArrayOutputs {
  import opened Outcomes
  import opened Bits

  class ArrayOutput {
    /** The array the bytes are stored in; writing to a null one fails. */
    var target: array?<Int8>
    /** The slot of the first byte. */
    var offset: Int32
    /** The number of bytes written, as a Java `int`. */
    var length: Int32

    constructor (target: array?<Int8>, offset: Int32)
      ensures this.target == target && this.offset == offset && length == 0
    {
      this.target := target;
      this.offset := offset;
      length := 0;
    }

    method GetOffset() returns (o: Int32)
      ensures o == offset
    {
      return offset;
    }

    method SetOffset(offset: Int32)
      modifies this`offset
      ensures this.offset == offset
    {
      this.offset := offset;
    }

    method GetLength() returns (n: Int32)
      ensures n == length
    {
      return length;
    }

    /**
     * `writeUnsignedByte(value)`: a null target fails with NullTarget and
     * counts nothing; otherwise the count moves up by one (wrapping as a Java
     * `int`) before `(byte) value` is stored at `offset + length`, which
     * fails with IndexOutOfBounds when that slot is outside the array.
     */
    method WriteUnsignedByte(value: Int32) returns (o: Outcome)
      modifies this`length, target
      ensures target == null ==> o == Fail(NullTarget) && length == old(length)
      ensures target != null ==> length == ToInt32(old(length) + 1)
      ensures target != null ==>
                var at := ToInt32(offset + old(length));
                if 0 <= at < target.Length then
                  o == Pass && target[..] == StoreAll(old(target[..]), at, [value])
                else
                  o == Fail(IndexOutOfBounds) && target[..] == old(target[..])
    {
      if target == null {
        return Fail(NullTarget);
      }
      var at := ToInt32(offset + length);
      length := ToInt32(length + 1);
      if at < 0 || at >= target.Length {
        return Fail(IndexOutOfBounds);
      }
      target[at] := ToInt8(value);
      return Pass;
    }
  }
}
