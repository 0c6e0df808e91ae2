/**
 * The byte output `com.github.jinahya.bit.io.ArrayByteOutput`, which stores
 * each byte in a target array at an index that may not reach a limit, and the
 * chunking byte output its factory `of(stream, length)` builds on it.
 */
module ArrayByteOutputs {
  import opened Outcomes
  import opened Bits

  class ArrayByteOutput {
    /** The array the bytes are stored in, null until it is provided. */
    var target: array?<Int8>
    /** The slot the next byte goes to. */
    var index: Int32
    /** The value `index` must stay below. */
    var limit: Int32

    constructor (target: array?<Int8>, index: Int32, limit: Int32)
      ensures this.target == target && this.index == index && this.limit == limit
    {
      this.target := target;
      this.index := index;
      this.limit := limit;
    }

    /**
     * `write(value)`: an index at or past the limit fails with IllegalState;
     * otherwise `target[index] = (byte) value` (which fails on a null target
     * or an index outside the array) and the index moves up by one.
     */
    method Write(value: Int32) returns (o: Outcome)
      modifies this`index, target
      ensures index == old(index) + (if o.Pass? then 1 else 0)
      ensures o.Fail? && target != null ==> target[..] == old(target[..])
      ensures o == Fail(IllegalState) <==> old(index) >= limit
      ensures old(index) < limit && target == null ==> o == Fail(NullPointer)
      ensures old(index) < limit && target != null ==>
                if 0 <= old(index) < target.Length then
                  o == Pass && target[..] == StoreAll(old(target[..]), old(index), [value])
                else
                  o == Fail(IndexOutOfBounds)
    {
      var i, l := index, limit;
      if i >= l {
        return Fail(IllegalState);
      }
      if target == null {
        return Fail(NullPointer);
      }
      if i < 0 || i >= target.Length {
        return Fail(IndexOutOfBounds);
      }
      target[i] := ToInt8(value);
      index := i + 1;
      return Pass;
    }
  }

  /**
   * The anonymous subclass `ArrayByteOutput.of(stream, length)` returns: the
   * array part is allocated at the first write, and every time it is full it
   * is handed to the output stream and refilled from slot 0.
   */
  class ChunkedArrayByteOutput {
    /** The `ArrayByteOutput` part of the object. */
    const base: ArrayByteOutput
    /** The size of the array the first write allocates. */
    const length: Int32
    /** The bytes handed to the output stream so far. */
    var stream: seq<Int8>

    /** Before the first write there is no array; after it, a `length`-slot array that is never full between writes. */
    ghost predicate Valid()
      reads this, base
    {
      && length >= 1
      && (base.target != null ==> && base.target.Length == length && base.limit == length
                                  && 0 <= base.index < length)
    }

    /** The bytes stored and not yet handed to the stream. */
    ghost function Pending(): seq<Int8>
      reads this, base, base.target
      requires Valid()
    {
      if base.target == null then [] else base.target[..base.index]
    }

    constructor (length: Int32)
      requires length >= 1
      ensures Valid() && fresh(base) && this.length == length
      ensures base.target == null && base.index == -1 && base.limit == -1
      ensures stream == [] && Pending() == []
    {
      base := new ArrayByteOutput(null, -1, -1);
      this.length := length;
      stream := [];
    }

    /**
     * `write(value)`: allocate the array at the first write, store the byte
     * through `ArrayByteOutput.write`, and hand the array to the stream when
     * the index reaches the limit. Every byte written ends up, in order,
     * after the bytes written before it.
     */
    method Write(value: Int32) returns (o: Outcome)
      requires Valid()
      modifies this, base, base.target
      ensures Valid() && o == Pass && base.target != null
      ensures old(base.target) == null ==> fresh(base.target)
      ensures old(base.target) != null ==> base.target == old(base.target)
      ensures stream + Pending() == old(stream + Pending()) + [ToInt8(value)]
      ensures |stream| % length == old(|stream|) % length
    {
      if base.target == null {
        Allocate();
      }
      o := Store(value);
    }

    /** The lazy allocation of the first write: a `length`-slot array, filled from slot 0. */
    method Allocate()
      requires Valid() && base.target == null
      modifies base
      ensures Valid() && fresh(base.target) && base.index == 0 && Pending() == []
    {
      var t := new Int8[length];
      base.target := t;
      base.limit := length;
      base.index := 0;
    }

    /** A write once the array exists: store the byte, and flush the array once it is full. */
    method Store(value: Int32) returns (o: Outcome)
      requires Valid() && base.target != null
      modifies this, base, base.target
      ensures Valid() && o == Pass && base.target == old(base.target)
      ensures stream + Pending() == old(stream + Pending()) + [ToInt8(value)]
      ensures |stream| % length == old(|stream|) % length
    {
      var t := base.target;
      ghost var pending := t[..base.index];
      ghost var at := base.index;
      o := base.Write(value);
      assert t[..base.index] == pending + [ToInt8(value)] by {
        assert t[..at] == pending;
      }
      if base.index == base.limit {
        assert t[..] == t[..base.index];
        ghost var before := |stream|;
        stream := stream + t[..];
        base.index := 0;
        ModUnique(|stream|, length, before / length + 1, before % length);
      }
    }
  }

  /** `ArrayByteOutput.of(stream, length)`: a positive length is required. */
  method Of(length: Int32) returns (r: Result<ChunkedArrayByteOutput>)
    ensures length <= 0 <==> r == Err(IllegalArgument)
    ensures r.Ok? ==> && fresh(r.value) && fresh(r.value.base) && r.value.Valid() && r.value.length == length
                      && r.value.stream == [] && r.value.Pending() == []
  {
    if length <= 0 {
      return Err(IllegalArgument);
    }
    var output := new ChunkedArrayByteOutput(length);
    return Ok(output);
  }
}
