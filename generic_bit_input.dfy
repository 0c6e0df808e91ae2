/**
 * The generic bit reader `com.github.jinahya.io.bit.BitInput<T>`, a second
 * generation of the reader in `BitInputs`: the same eight-slot register, slot
 * index and octet count (a Java `long` here), the same reads, and a
 * `readBytes(range, value, offset, length)` to which both other `readBytes`
 * delegate. Delegating moves the range, array and offset checks after the
 * element count has been read, so those errors now come with the count's
 * bits consumed.
 */
module GenericBitInputs {
  import opened Outcomes
  import opened Bits
  import BitInputs

  /**
   * `readBytes(scale, range, value, offset)` once the scale check passes: a
   * `scale`-bit count n, then the checks and the fill loop of
   * `readBytes(range, value, offset, n)` on the array `was` (`isNull` when
   * the array reference is null); the call answers n.
   */
  ghost predicate CountThenChecks(s: seq<bool>, p: nat, scale: nat, range: int, isNull: bool, was: seq<Int8>,
                                  now: seq<Int8>, offset: int, r: Result<int>, q: int)
  {
    if p + scale <= |s| then
      var n := Field(s, p, scale);
      if isNull then
        r == Err(if 1 <= range <= 8 then NullPointer else IllegalArgument) && now == was && q == p + scale
      else
        && (r.Ok? ==> r.value == n)
        && BitInputs.ChecksThenFills(s, p + scale, range, was, now, offset, n, Status(r), q)
    else
      r == Err(EndOfFile) && now == was && q == |s|
  }

  /**
   * `readBytes(scale, range)` once the scale check passes: the count is read
   * before the range is checked, then the array the count announces.
   */
  ghost predicate CountThenArray(s: seq<bool>, p: nat, scale: nat, range: int, r: Result<seq<Int8>>, q: int)
  {
    if 1 <= range <= 8 then
      BitInputs.ReadsByteArray(s, p, scale, range, r, q)
    else if p + scale <= |s| then
      r == Err(IllegalArgument) && q == p + scale
    else
      r == Err(EndOfFile) && q == |s|
  }

  /**
   * Where the announced count fits the array after `offset`, the delegating
   * `readBytes(scale, range, value, offset)` does exactly what the first
   * generation's does.
   */
  lemma DelegationAgrees(s: seq<bool>, p: nat, scale: nat, range: nat, was: seq<Int8>, now: seq<Int8>,
                         offset: nat, r: Result<int>, q: int)
    requires 1 <= range <= 8 && p + scale <= |s|
    requires offset + Field(s, p, scale) <= |was| < 0x8000_0000
    ensures CountThenChecks(s, p, scale, range, false, was, now, offset, r, q)
            <==> BitInputs.CountThenFills(s, p, scale, range, was, now, offset, r, q)
  {
    assert ToInt32(offset + Field(s, p, scale)) == offset + Field(s, p, scale);
  }

  /**
   * Where it does not fit (and the sum does not wrap), the delegating reader
   * consumes the count, stores nothing and rejects the call, where the first
   * generation goes on to fill the slots that exist.
   */
  lemma LateRejection(s: seq<bool>, p: nat, scale: nat, range: nat, was: seq<Int8>, now: seq<Int8>,
                      offset: nat, r: Result<int>, q: int)
    requires 1 <= range <= 8 && p + scale <= |s|
    requires |was| < offset + Field(s, p, scale) < 0x8000_0000
    requires CountThenChecks(s, p, scale, range, false, was, now, offset, r, q)
    ensures r == Err(IllegalArgument) && now == was && q == p + scale
  {
    assert ToInt32(offset + Field(s, p, scale)) == offset + Field(s, p, scale);
  }

  /** A count of at most 16 bits fits a Java `int` with room to spare. */
  lemma CountBound(s: seq<bool>, p: nat, scale: nat)
    requires scale <= 16 && p + scale <= |s|
    ensures Field(s, p, scale) < 0x1_0000
  {
    FieldBound(s, p, scale);
    Pow2Monotone(scale, 16);
    Pow2Values();
  }

  /** A count read at p and a `readBytes(range, value, offset, count)` after it make up `readBytes(scale, range, value, offset)`. */
  lemma CountThenChecksHolds(s: seq<bool>, p: nat, scale: nat, range: int, isNull: bool, was: seq<Int8>,
                             now: seq<Int8>, offset: int, length: Result<int>, m: int, o: Outcome, q: int)
    requires ReadsUnsigned(s, p, scale, length, m)
    requires length.Err? ==> now == was && q == m
    requires length.Ok? && isNull ==>
               o == Fail(if 1 <= range <= 8 then NullPointer else IllegalArgument) && now == was && q == m
    requires length.Ok? && !isNull ==> BitInputs.ChecksThenFills(s, m, range, was, now, offset, length.value, o, q)
    ensures CountThenChecks(s, p, scale, range, isNull, was, now, offset,
                            if length.Err? then length else if o.Fail? then Err(o.error) else length, q)
  {
  }

  /** Checking and filling a fresh array of the count's size is what `readBytes(scale, range)` promises. */
  lemma FreshArrayChecks(s: seq<bool>, p: nat, scale: nat, range: int, was: seq<Int8>, now: seq<Int8>,
                         o: Outcome, q: int)
    requires p + scale <= |s| && |was| == Field(s, p, scale) < 0x1_0000
    requires BitInputs.ChecksThenFills(s, p + scale, range, was, now, 0, |was|, o, q)
    ensures CountThenArray(s, p, scale, range, if o.Pass? then Ok(now) else Err(o.error), q)
  {
    assert ToInt32(0 + |was|) == |was|;
    if 1 <= range <= 8 {
      BitInputs.FillsFreshArray(s, p, scale, range, was, now, o, q);
    }
  }

  class BitInput {
    /** The octets the byte source delivers before it answers -1. */
    const input: seq<Octet>
    const flags: array<bool>
    var index: int
    /** The number of octets pulled so far, which is also the source's position. */
    var count: nat

    /** The bit stream the byte source carries. */
    ghost function Stream(): seq<bool>
    {
      StreamBits(input)
    }

    /** The number of bits consumed so far: the octets pulled, less the register bits not yet read. */
    ghost function Position(): int
      reads this
    {
      8 * count + index - 8
    }

    /**
     * The state inside `readUnsignedByte`: the register slots from `index` on
     * hold the bits of the last octet pulled that are not yet read.
     */
    ghost predicate Sound()
      reads this, flags
    {
      && flags.Length == 8 && 0 <= index <= 8 && count <= |input|
      && (index < 8 ==> count >= 1)
      && forall k {:trigger flags[k]} :: index <= k < 8 ==> flags[k] == Stream()[8 * count - 8 + k]
    }

    /** The state between calls: the register is never left at slot 0. */
    ghost predicate Valid()
      reads this, flags
    {
      Sound() && index >= 1
    }

    constructor (input: seq<Octet>)
      ensures Valid() && fresh(flags) && this.input == input
      ensures index == 8 && count == 0 && Position() == 0
    {
      this.input := input;
      flags := new bool[8];
      index := 8;
      count := 0;
    }

    /** `readUnsignedByte()`: the next octet of the source, or end of data once the source answers -1. */
    method PullOctet() returns (r: Result<Octet>)
      requires Valid() && index == 8
      modifies this`count
      ensures Valid() && index == 8
      ensures old(count) == |input| ==> r == Err(EndOfFile) && count == old(count)
      ensures old(count) < |input| ==> r == Ok(input[old(count)]) && count == old(count) + 1
    {
      if count == |input| {
        return Err(EndOfFile);
      }
      r := Ok(input[count]);
      count := count + 1;
    }

    /**
     * `readUnsignedByte(length)`: the next `length` bits, 1 <= length <= 8, most
     * significant first. A field that crosses into the next octet is read as the
     * bits left in the register followed by the high bits of a freshly pulled octet.
     */
    method ReadUnsignedByte(length: int) returns (r: Result<int>)
      requires Valid()
      modifies this, flags
      ensures Valid()
      ensures !(1 <= length <= 8) ==> r == Err(IllegalArgument) && index == old(index) && count == old(count)
      ensures 1 <= length <= 8 ==> ReadsUnsigned(Stream(), old(Position()), length, r, Position())
      decreases if length < 0 then 0 else length, 1
    {
      if length <= 0 || length > 8 {
        return Err(IllegalArgument);
      }
      if index == 8 {
        var pulled := PullOctet();
        if pulled.Err? {
          return Err(pulled.error);
        }
        var octet := pulled.value;
        if length == 8 {
          OctetField(input, count - 1);
          return Ok(octet);
        }
        OctetInStream(input, count - 1);
        Unpack(octet);
        index := 0;
        forall k | 0 <= k < 8
          ensures flags[k] == Stream()[8 * count - 8 + k]
        {
          assert Stream()[8 * (count - 1)..8 * (count - 1) + 8][k] == OctetBits(octet)[k];
        }
      }
      r := ReadRegister(length);
    }

    /**
     * The rest of `readUnsignedByte` once the register holds an octet: a field
     * longer than the bits left is read as two recursive reads joined by
     * shift-and-or, a shorter one by the extraction loop.
     */
    method ReadRegister(length: int) returns (r: Result<int>)
      requires Sound() && 1 <= length <= 8 && index < 8
      modifies this, flags
      ensures Valid()
      ensures ReadsUnsigned(Stream(), old(Position()), length, r, Position())
      decreases length, 0
    {
      var available := 8 - index;
      var required := length - available;
      if required > 0 {
        ghost var p := Position();
        var high := ReadUnsignedByte(available);
        ghost var m := Position();
        var low := ReadUnsignedByte(required);
        ReadsConcat(Stream(), p, available, required, high, m, low, Position());
        if low.Err? {
          return low;
        }
        return Ok(Shl(high.value, required) + low.value);
      }
      FieldCongruent(flags[..], index, Stream(), Position(), length);
      var value := Extract(length);
      return Ok(value);
    }

    /** `readBoolean()`: the next bit. */
    method ReadBoolean() returns (r: Result<bool>)
      requires Valid()
      modifies this, flags
      ensures Valid()
      ensures ReadsBit(Stream(), old(Position()), r, Position())
    {
      ghost var p: nat := Position();
      var bit := ReadUnsignedByte(1);
      ReadsBitUnsigned(Stream(), p, bit, Position());
      if bit.Err? {
        return Err(bit.error);
      }
      return Ok(bit.value == 1);
    }

    /** `isNull()`: a leading 0 bit flags the object that follows as null. */
    method IsNull() returns (r: Result<bool>)
      requires Valid()
      modifies this, flags
      ensures Valid()
      ensures ReadsBit(Stream(), old(Position()), if r.Ok? then Ok(!r.value) else r, Position())
    {
      ghost var p: nat := Position();
      var bit := ReadUnsignedByte(1);
      ReadsBitUnsigned(Stream(), p, bit, Position());
      if bit.Err? {
        return Err(bit.error);
      }
      return Ok(bit.value == 0);
    }

    /** `isNotNull()`: the negation of `isNull()`, so a leading 1 bit. */
    method IsNotNull() returns (r: Result<bool>)
      requires Valid()
      modifies this, flags
      ensures Valid()
      ensures ReadsBit(Stream(), old(Position()), r, Position())
    {
      var isNull := IsNull();
      if isNull.Err? {
        return isNull;
      }
      return Ok(!isNull.value);
    }

    /** The loop of `readUnsignedShort`: `quotient` chunks of eight bits, accumulated by shift-and-or. */
    method ReadOctetChunks(quotient: nat) returns (r: Result<int>)
      requires Valid()
      modifies this, flags
      ensures Valid()
      ensures ReadsUnsigned(Stream(), old(Position()), 8 * quotient, r, Position())
    {
      ghost var s := Stream();
      ghost var p0: nat := Position();
      var value := 0;
      var i := 0;
      while i < quotient
        invariant 0 <= i <= quotient && Valid()
        invariant p0 + 8 * i <= |s| && Position() == p0 + 8 * i
        invariant value == Field(s, p0, 8 * i)
      {
        var chunk := ReadUnsignedByte(8);
        ReadsChunk(s, p0, 8, i, 8 * quotient, value, chunk, Position());
        if chunk.Err? {
          return chunk;
        }
        value := Shl(value, 8) + chunk.value;
        i := i + 1;
      }
      ReadsWhole(s, p0, 8 * i, 8 * quotient, value, Position());
      return Ok(value);
    }

    /** `readUnsignedShort(length)`: 1 <= length <= 16 bits as whole octets, then the remainder. */
    method ReadUnsignedShort(length: int) returns (r: Result<int>)
      requires Valid()
      modifies this, flags
      ensures Valid()
      ensures !(1 <= length <= 16) ==> r == Err(IllegalArgument) && index == old(index) && count == old(count)
      ensures 1 <= length <= 16 ==> ReadsUnsigned(Stream(), old(Position()), length, r, Position())
    {
      if length <= 0 || length > 16 {
        return Err(IllegalArgument);
      }
      var quotient, remainder := length / 8, length % 8;
      assert 8 * quotient + remainder == length && 0 <= remainder < 8;
      ghost var p: nat := Position();
      var high := ReadOctetChunks(quotient);
      if high.Err? || remainder == 0 {
        return high;
      }
      ghost var m: nat := Position();
      var low := ReadUnsignedByte(remainder);
      ReadsConcat(Stream(), p, 8 * quotient, remainder, high, m, low, Position());
      if low.Err? {
        return low;
      }
      return Ok(Shl(high.value, remainder) + low.value);
    }

    /** The loop of `readUnsignedInt`: `quotient` chunks of 16 bits, accumulated by shift-and-or. */
    method ReadShortChunks(quotient: nat) returns (r: Result<int>)
      requires Valid()
      modifies this, flags
      ensures Valid()
      ensures ReadsUnsigned(Stream(), old(Position()), 16 * quotient, r, Position())
    {
      ghost var s := Stream();
      ghost var p0: nat := Position();
      var value := 0;
      var i := 0;
      while i < quotient
        invariant 0 <= i <= quotient && Valid()
        invariant p0 + 16 * i <= |s| && Position() == p0 + 16 * i
        invariant value == Field(s, p0, 16 * i)
      {
        var chunk := ReadUnsignedShort(16);
        ReadsChunk(s, p0, 16, i, 16 * quotient, value, chunk, Position());
        if chunk.Err? {
          return chunk;
        }
        value := Shl(value, 16) + chunk.value;
        i := i + 1;
      }
      ReadsWhole(s, p0, 16 * i, 16 * quotient, value, Position());
      return Ok(value);
    }

    /** `readUnsignedInt(length)`: 1 <= length <= 31 bits as 16-bit chunks, then the remainder. */
    method ReadUnsignedInt(length: int) returns (r: Result<int>)
      requires Valid()
      modifies this, flags
      ensures Valid()
      ensures !(1 <= length <= 31) ==> r == Err(IllegalArgument) && index == old(index) && count == old(count)
      ensures 1 <= length <= 31 ==> ReadsUnsigned(Stream(), old(Position()), length, r, Position())
    {
      if length < 1 || length >= 32 {
        return Err(IllegalArgument);
      }
      var quotient, remainder := length / 16, length % 16;
      assert 16 * quotient + remainder == length && 0 <= remainder < 16;
      ghost var p: nat := Position();
      var high := ReadShortChunks(quotient);
      if high.Err? || remainder == 0 {
        return high;
      }
      ghost var m: nat := Position();
      var low := ReadUnsignedShort(remainder);
      ReadsConcat(Stream(), p, 16 * quotient, remainder, high, m, low, Position());
      if low.Err? {
        return low;
      }
      return Ok(Shl(high.value, remainder) + low.value);
    }

    /** `readInt(length)`: a sign bit and length - 1 magnitude bits, 2 <= length <= 32, sign-extended. */
    method ReadInt(length: int) returns (r: Result<int>)
      requires Valid()
      modifies this, flags
      ensures Valid()
      ensures !(2 <= length <= 32) ==> r == Err(IllegalArgument) && index == old(index) && count == old(count)
      ensures 2 <= length <= 32 ==> ReadsSigned(Stream(), old(Position()), length, r, Position())
    {
      if length <= 1 || length > 32 {
        return Err(IllegalArgument);
      }
      ghost var p: nat := Position();
      var sign := ReadBoolean();
      if sign.Err? {
        return Err(sign.error);
      }
      ghost var m: nat := Position();
      var magnitude := ReadUnsignedInt(length - 1);
      ReadsSignedConcat(Stream(), p, length, sign, m, magnitude, Position());
      if magnitude.Err? {
        return magnitude;
      }
      return Ok(Shl(if sign.value then -1 else 0, length - 1) + magnitude.value);
    }

    /** The loop of `readUnsignedLong`: `quotient` chunks of 31 bits, accumulated by shift-and-or. */
    method ReadIntChunks(quotient: nat) returns (r: Result<int>)
      requires Valid()
      modifies this, flags
      ensures Valid()
      ensures ReadsUnsigned(Stream(), old(Position()), 31 * quotient, r, Position())
    {
      ghost var s := Stream();
      ghost var p0: nat := Position();
      var value := 0;
      var i := 0;
      while i < quotient
        invariant 0 <= i <= quotient && Valid()
        invariant p0 + 31 * i <= |s| && Position() == p0 + 31 * i
        invariant value == Field(s, p0, 31 * i)
      {
        var chunk := ReadUnsignedInt(31);
        ReadsChunk(s, p0, 31, i, 31 * quotient, value, chunk, Position());
        if chunk.Err? {
          return chunk;
        }
        value := Shl(value, 31) + chunk.value;
        i := i + 1;
      }
      ReadsWhole(s, p0, 31 * i, 31 * quotient, value, Position());
      return Ok(value);
    }

    /** `readUnsignedLong(length)`: 1 <= length <= 63 bits as 31-bit chunks, then the remainder. */
    method ReadUnsignedLong(length: int) returns (r: Result<int>)
      requires Valid()
      modifies this, flags
      ensures Valid()
      ensures !(1 <= length <= 63) ==> r == Err(IllegalArgument) && index == old(index) && count == old(count)
      ensures 1 <= length <= 63 ==> ReadsUnsigned(Stream(), old(Position()), length, r, Position())
    {
      if length < 1 || length >= 64 {
        return Err(IllegalArgument);
      }
      var quotient, remainder := length / 31, length % 31;
      assert 31 * quotient + remainder == length && 0 <= remainder < 31;
      ghost var p: nat := Position();
      var high := ReadIntChunks(quotient);
      if high.Err? || remainder == 0 {
        return high;
      }
      ghost var m: nat := Position();
      var low := ReadUnsignedInt(remainder);
      ReadsConcat(Stream(), p, 31 * quotient, remainder, high, m, low, Position());
      if low.Err? {
        return low;
      }
      return Ok(Shl(high.value, remainder) + low.value);
    }

    /** `readLong(length)`: a sign bit and length - 1 magnitude bits, 2 <= length <= 64, sign-extended. */
    method ReadLong(length: int) returns (r: Result<int>)
      requires Valid()
      modifies this, flags
      ensures Valid()
      ensures !(2 <= length <= 64) ==> r == Err(IllegalArgument) && index == old(index) && count == old(count)
      ensures 2 <= length <= 64 ==> ReadsSigned(Stream(), old(Position()), length, r, Position())
    {
      if length <= 1 || length > 64 {
        return Err(IllegalArgument);
      }
      ghost var p: nat := Position();
      var sign := ReadBoolean();
      if sign.Err? {
        return Err(sign.error);
      }
      ghost var m: nat := Position();
      var magnitude := ReadUnsignedLong(length - 1);
      ReadsSignedConcat(Stream(), p, length, sign, m, magnitude, Position());
      if magnitude.Err? {
        return magnitude;
      }
      return Ok(Shl(if sign.value then -1 else 0, length - 1) + magnitude.value);
    }

    /** The fill loop of `readBytes(range, value, offset, length)`, `value[offset++] = (byte) readUnsignedByte(range)`. */
    method Fill(range: int, value: array<Int8>, offset: int, length: int) returns (o: Outcome)
      requires Valid() && 1 <= range <= 8 && 0 <= offset && 0 <= length
      modifies this, flags, value
      ensures Valid()
      ensures BitInputs.Fills(Stream(), old(Position()), range, old(value[..]), value[..], offset, length, o, Position())
    {
      ghost var s := Stream();
      ghost var p0: nat := Position();
      ghost var was := value[..];
      var i := 0;
      while i < length
        invariant 0 <= i <= length && (offset + i <= value.Length || i == 0) && Valid()
        invariant p0 + range * i <= |s| && Position() == p0 + range * i
        invariant BitInputs.Stored(s, p0, range, was, value[..], offset, i)
      {
        var b := ReadUnsignedByte(range);
        if b.Err? {
          BitInputs.FillsAtEnd(s, p0, range, was, value[..], offset, length, i);
          return Fail(EndOfFile);
        }
        if offset + i >= value.Length {
          BitInputs.FillsPastEnd(s, p0, range, was, value[..], offset, length, i);
          return Fail(IndexOutOfBounds);
        }
        ghost var before := value[..];
        BitInputs.StoredStep(s, p0, range, was, before, offset, i, ToInt8(b.value));
        value[offset + i] := ToInt8(b.value);
        assert value[..] == before[offset + i := ToInt8(b.value)];
        assert range * (i + 1) == range * i + range;
        i := i + 1;
      }
      BitInputs.FillsDone(s, p0, range, was, value[..], offset, length);
      return Pass;
    }

    /** `readBytes(range, value, offset, length)`: `length` elements of `range` bits into value[offset..]. */
    method ReadBytesInto(range: int, value: array?<Int8>, offset: Int32, length: Int32) returns (o: Outcome)
      requires Valid()
      modifies this, flags, value
      ensures Valid()
      ensures value == null ==> && o == Fail(if 1 <= range <= 8 then NullPointer else IllegalArgument)
                                && index == old(index) && count == old(count)
      ensures value != null ==>
                BitInputs.ChecksThenFills(Stream(), old(Position()), range, old(value[..]), value[..], offset, length, o, Position())
    {
      if range <= 0 || range > 8 {
        return Fail(IllegalArgument);
      }
      if value == null {
        return Fail(NullPointer);
      }
      if offset < 0 || length < 0 || ToInt32(offset + length) > value.Length {
        return Fail(IllegalArgument);
      }
      o := Fill(range, value, offset, length);
    }

    /**
     * `readBytes(scale, range, value, offset)`: only the scale is checked up
     * front; the `scale`-bit count is read first, and the range, array and
     * offset checks of `readBytes(range, value, offset, length)` run after it.
     */
    method ReadBytesAt(scale: int, range: int, value: array?<Int8>, offset: Int32) returns (r: Result<int>)
      requires Valid()
      modifies this, flags, value
      ensures Valid()
      ensures !(1 <= scale <= 16) ==> && r == Err(IllegalArgument) && index == old(index) && count == old(count)
                                      && (value != null ==> value[..] == old(value[..]))
      ensures 1 <= scale <= 16 && value == null ==>
                CountThenChecks(Stream(), old(Position()), scale, range, true, [], [], offset, r, Position())
      ensures 1 <= scale <= 16 && value != null ==>
                CountThenChecks(Stream(), old(Position()), scale, range, false, old(value[..]), value[..], offset, r,
                                Position())
    {
      if scale <= 0 || scale > 16 {
        return Err(IllegalArgument);
      }
      ghost var p: nat := Position();
      ghost var was := if value == null then [] else value[..];
      var length := ReadUnsignedShort(scale);
      if length.Err? {
        CountThenChecksHolds(Stream(), p, scale, range, value == null, was, was, offset, length, Position(),
                             Pass, Position());
        return length;
      }
      CountBound(Stream(), p, scale);
      ghost var m := Position();
      var o := ReadBytesInto(range, value, offset, length.value);
      CountThenChecksHolds(Stream(), p, scale, range, value == null, was, if value == null then [] else value[..],
                           offset, length, m, o, Position());
      if o.Fail? {
        return Err(o.error);
      }
      return length;
    }

    /**
     * `readBytes(scale, range)`: only the scale is checked up front; the
     * `scale`-bit count is read, a new array of that size is allocated, and
     * `readBytes(range, value, 0, value.length)` checks the range and fills it.
     */
    method ReadBytes(scale: int, range: int) returns (r: Result<array<Int8>>)
      requires Valid()
      modifies this, flags
      ensures Valid()
      ensures r.Ok? ==> fresh(r.value)
      ensures !(1 <= scale <= 16) ==> r == Err(IllegalArgument) && index == old(index) && count == old(count)
      ensures 1 <= scale <= 16 ==>
                CountThenArray(Stream(), old(Position()), scale, range,
                               if r.Ok? then Ok(r.value[..]) else Err(r.error), Position())
    {
      if scale <= 0 || scale > 16 {
        return Err(IllegalArgument);
      }
      ghost var p: nat := Position();
      var length := ReadUnsignedShort(scale);
      if length.Err? {
        return Err(length.error);
      }
      CountBound(Stream(), p, scale);
      var value := new Int8[length.value];
      ghost var was := value[..];
      var o := ReadBytesInto(range, value, 0, value.Length);
      FreshArrayChecks(Stream(), p, scale, range, was, value[..], o, Position());
      if o.Fail? {
        return Err(o.error);
      }
      return Ok(value);
    }

    /**
     * `align(length)` for a `short` length: discard the rest of the register,
     * then whole octets until the number pulled is a multiple of `length`;
     * the call answers the number of bits discarded.
     */
    method Align(length: Int16) returns (r: Result<int>)
      requires Valid()
      modifies this, flags
      ensures Valid()
      ensures length <= 0 ==> r == Err(IllegalArgument) && index == old(index) && count == old(count)
      ensures length >= 1 ==> Skips(Stream(), old(Position()), BitInputs.AlignBits(old(index), old(count), length), r, Position())
      ensures length >= 1 && r.Ok? ==> index == 8 && count % length == 0
    {
      if length <= 0 {
        return Err(IllegalArgument);
      }
      ghost var p: nat := Position();
      ghost var start, pulled := index, count;
      var bits := 0;
      if index < 8 {
        bits := 8 - index;
        var _ := ReadUnsignedByte(bits);
      }
      assert index == 8 && Position() == p + bits && count == pulled;
      var bytes := count % length;
      if bytes == 0 {
        BitInputs.AlignOutcome(Stream(), p, start, pulled, length, bits, Ok(0), Position());
        return Ok(bits);
      }
      bytes := length - bytes;
      assert bytes == AlignOctets(pulled, length);
      var skipped := DiscardOctets(bytes);
      BitInputs.AlignOutcome(Stream(), p, start, pulled, length, bits, skipped, Position());
      if skipped.Err? {
        return skipped;
      }
      return Ok(bits + skipped.value);
    }

    /** The discard loop of `align`: `bytes` whole octets, eight bits each. */
    method DiscardOctets(bytes: nat) returns (r: Result<int>)
      requires Valid() && index == 8
      modifies this, flags
      ensures Valid() && index == 8
      ensures Skips(Stream(), old(Position()), 8 * bytes, r, Position())
      ensures r.Ok? ==> count == old(count) + bytes
    {
      ghost var s := Stream();
      ghost var p: nat := Position();
      var bits := 0;
      var left := bytes;
      while left > 0
        invariant 0 <= left <= bytes && Valid() && index == 8
        invariant bits == 8 * (bytes - left) && count == old(count) + (bytes - left)
        invariant Position() == p + bits <= |s|
      {
        var octet := ReadUnsignedByte(8);
        if octet.Err? {
          return Err(octet.error);
        }
        bits := bits + 8;
        left := left - 1;
      }
      return Ok(bits);
    }

    /** `close()`: `align((short) 1)`, discarding the rest of the register. */
    method Close()
      requires Valid()
      modifies this, flags
      ensures Valid() && index == 8 && count == old(count)
      ensures Position() == old(Position()) + (if old(index) < 8 then 8 - old(index) else 0)
    {
      var _ := Align(1);
    }

    /** `getCount()`: the number of octets pulled from the byte source. */
    method GetCount() returns (c: nat)
      requires Valid()
      ensures c == count && c <= |input|
      ensures 8 * c == Position() + (8 - index)
    {
      return count;
    }

    /** The unpack loop of `readUnsignedByte`: the octet's bits into the register, most significant first. */
    method Unpack(octet: Octet)
      requires flags.Length == 8
      modifies flags
      ensures flags[..] == OctetBits(octet)
    {
      var v := octet;
      var i := 7;
      while i >= 0
        invariant -1 <= i <= 7
        invariant v == Shr(octet, 7 - i)
        invariant forall k :: i < k < 8 ==> flags[k] == OctetBits(octet)[k]
      {
        ToBitsAt(octet, 8, 7 - i);
        ShrSucc(octet, 7 - i);
        flags[i] := v % 2 == 1;
        v := v / 2;
        i := i - 1;
      }
    }

    /** The extraction loop of `readUnsignedByte`: `length` register bits taken as a number. */
    method Extract(length: nat) returns (value: int)
      requires flags.Length == 8 && 0 <= index && index + length <= 8
      modifies this`index
      ensures index == old(index) + length
      ensures value == Field(flags[..], old(index), length)
    {
      ghost var start := index;
      value := 0;
      var i := 0;
      while i < length
        invariant 0 <= i <= length && index == start + i
        invariant value == Field(flags[..], start, i)
      {
        value := Shl(value, 1);
        value := value + (if flags[index] then 1 else 0);
        index := index + 1;
        i := i + 1;
      }
    }
  }
}
