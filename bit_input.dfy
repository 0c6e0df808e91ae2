/**
 * The bit reader of `com.github.jinahya.io.BitInput`: an eight-slot register
 * holding the bits of the current octet, the index of the next unread slot
 * (8 when no octet is cached) and the number of octets pulled from the byte
 * source. Its abstract state is its position in the bit stream the source
 * carries: every read is specified by what it answers and where it leaves
 * that position.
 */
module BitInputs {
  import opened Outcomes
  import opened Bits

  /**
   * The fill loop `value[offset++] = (byte) readUnsignedByte(range)` run
   * `length` times from position p of the stream `s`, turning the array
   * contents `was` into `now` and leaving the reader at q. By the Java
   * evaluation order of an array store the element is read before its index
   * is checked, so a store past the end of the array fails with
   * IndexOutOfBounds after consuming that element's bits.
   */
  ghost predicate Fills(s: seq<bool>, p: nat, range: nat, was: seq<Int8>, now: seq<Int8>,
                        offset: nat, length: nat, o: Outcome, q: int)
    requires range >= 1
  {
    // the slots from offset to the end of the array
    var room := if offset <= |was| then |was| - offset else 0;
    // the elements the loop reads before it finishes or hits the end of the array
    var taken := if length <= room then length else room + 1;
    var fits := p + range * taken <= |s|;
    var stored := if fits then (if length <= room then length else room)
                  else if p <= |s| then (|s| - p) / range else 0;
    && Stored(s, p, range, was, now, offset, stored)
    && if fits then q == p + range * taken && o == (if length <= room then Pass else Fail(IndexOutOfBounds))
       else q == |s| && o == Fail(EndOfFile)
  }

  /** The array `now` is `was` with its slots from `offset` on replaced by the first n elements read at p. */
  ghost predicate Stored(s: seq<bool>, p: nat, range: nat, was: seq<Int8>, now: seq<Int8>, offset: nat, n: int)
  {
    && |now| == |was|
    && forall k :: 0 <= k < |was| ==>
         now[k] == if offset <= k < offset + n then Element(s, p, range, k - offset) else was[k]
  }

  /** Storing element i in its slot extends the stored prefix by one. */
  lemma StoredStep(s: seq<bool>, p: nat, range: nat, was: seq<Int8>, now: seq<Int8>, offset: nat, i: nat,
                   x: Int8)
    requires Stored(s, p, range, was, now, offset, i) && offset + i < |now|
    requires x == Element(s, p, range, i)
    ensures Stored(s, p, range, was, now[offset + i := x], offset, i + 1)
  {
  }

  /** The fill loop that ran out of data while reading element i. */
  lemma FillsAtEnd(s: seq<bool>, p: nat, range: nat, was: seq<Int8>, now: seq<Int8>, offset: nat,
                   length: nat, i: nat)
    requires range >= 1 && i < length && (offset + i <= |was| || i == 0)
    requires p + range * i <= |s| < p + range * i + range
    requires Stored(s, p, range, was, now, offset, i)
    ensures Fills(s, p, range, was, now, offset, length, Fail(EndOfFile), |s|)
  {
    var room := if offset <= |was| then |was| - offset else 0;
    var taken := if length <= room then length else room + 1;
    assert i + 1 <= taken;
    MulMonotone(range, i + 1, taken);
    assert range * (i + 1) == range * i + range;
    assert !(p + range * taken <= |s|);
    ModUnique(|s| - p, range, i, |s| - p - range * i);
    assert (|s| - p) / range == i;
  }

  /** The fill loop whose store of element i fell past the end of the array. */
  lemma FillsPastEnd(s: seq<bool>, p: nat, range: nat, was: seq<Int8>, now: seq<Int8>, offset: nat,
                     length: nat, i: nat)
    requires range >= 1 && i < length && offset + i >= |was| && (offset + i <= |was| || i == 0)
    requires p + range * i + range <= |s|
    requires Stored(s, p, range, was, now, offset, i)
    ensures Fills(s, p, range, was, now, offset, length, Fail(IndexOutOfBounds), p + range * i + range)
  {
  }

  /** The fill loop that stored all `length` elements. */
  lemma FillsDone(s: seq<bool>, p: nat, range: nat, was: seq<Int8>, now: seq<Int8>, offset: nat,
                  length: nat)
    requires range >= 1 && (offset + length <= |was| || length == 0)
    requires p + range * length <= |s|
    requires Stored(s, p, range, was, now, offset, length)
    ensures Fills(s, p, range, was, now, offset, length, Pass, p + range * length)
  {
  }

  /** When `offset + length` fits the array the loop fills exactly that window, or runs out of data. */
  lemma FillsWithinBounds(s: seq<bool>, p: nat, range: nat, was: seq<Int8>, now: seq<Int8>,
                          offset: nat, length: nat, o: Outcome, q: int)
    requires range >= 1 && offset + length <= |was|
    requires Fills(s, p, range, was, now, offset, length, o, q)
    ensures o == Pass || o == Fail(EndOfFile)
    ensures o == Pass <==> p + range * length <= |s|
    ensures o == Pass ==> && q == p + range * length
                          && now == was[..offset] + DecodeBytes(s, p, range, length) + was[offset + length..]
  {
    if o == Pass {
      var d := DecodeBytes(s, p, range, length);
      var w := was[..offset] + d + was[offset + length..];
      forall k | 0 <= k < |was|
        ensures now[k] == w[k]
      {
        if offset <= k < offset + length {
          DecodeBytesAt(s, p, range, length, k - offset);
        }
      }
    }
  }

  /**
   * `readBytes(range, value, offset, length)` on a non-null array: the range,
   * offset and length checks fail before anything is read (the sum
   * `offset + length` is taken in 32-bit arithmetic); then the fill loop runs.
   */
  ghost predicate ChecksThenFills(s: seq<bool>, p: nat, range: int, was: seq<Int8>, now: seq<Int8>,
                                  offset: int, length: int, o: Outcome, q: int)
  {
    if !(1 <= range <= 8) || offset < 0 || length < 0 || ToInt32(offset + length) > |was| then
      o == Fail(IllegalArgument) && now == was && q == p
    else
      Fills(s, p, range, was, now, offset, length, o, q)
  }

  /**
   * `readBytes(scale, range, value, offset)` once its checks pass: a
   * `scale`-bit element count, then the fill loop for that many elements with
   * no bounds check beforehand; the call answers the count.
   */
  ghost predicate CountThenFills(s: seq<bool>, p: nat, scale: nat, range: nat, was: seq<Int8>,
                                 now: seq<Int8>, offset: nat, r: Result<int>, q: int)
    requires range >= 1
  {
    if p + scale <= |s| then
      var n := Field(s, p, scale);
      (r.Ok? ==> r.value == n) && Fills(s, p + scale, range, was, now, offset, n, Status(r), q)
    else
      r == Err(EndOfFile) && now == was && q == |s|
  }

  /**
   * `readBytes(scale, range)` once its checks pass: a `scale`-bit element
   * count, then that many elements of `range` bits each, or end of data.
   */
  ghost predicate ReadsByteArray(s: seq<bool>, p: nat, scale: nat, range: nat, r: Result<seq<Int8>>, q: int)
  {
    if p + scale <= |s| && p + scale + range * Field(s, p, scale) <= |s| then
      var n := Field(s, p, scale);
      r == Ok(DecodeBytes(s, p + scale, range, n)) && q == p + scale + range * n
    else
      r == Err(EndOfFile) && q == |s|
  }

  /** Filling a fresh array of the count's size is reading the array the count announces. */
  lemma FillsFreshArray(s: seq<bool>, p: nat, scale: nat, range: nat, was: seq<Int8>, now: seq<Int8>,
                        o: Outcome, q: int)
    requires range >= 1 && p + scale <= |s| && |was| == Field(s, p, scale)
    requires Fills(s, p + scale, range, was, now, 0, |was|, o, q)
    ensures ReadsByteArray(s, p, scale, range, if o.Pass? then Ok(now) else Err(o.error), q)
  {
    FillsWithinBounds(s, p + scale, range, was, now, 0, |was|, o, q);
    if o.Pass? {
      var d := DecodeBytes(s, p + scale, range, |was|);
      assert was[..0] == [] && was[|was|..] == [];
      assert now == [] + d + [];
      assert now == d;
    }
  }

  /**
   * The bits a reader has still to read, from position 8 * count + index - 8
   * on, are the register slots from `index` on followed by the octets not yet
   * pulled. Both readers keep this register discipline.
   */
  lemma RegisterThenSource(input: seq<Octet>, register: seq<bool>, index: int, count: nat)
    requires |register| == 8 && 1 <= index <= 8 && count <= |input| && (index < 8 ==> count >= 1)
    requires forall k {:trigger register[k]} :: index <= k < 8 ==> register[k] == StreamBits(input)[8 * count - 8 + k]
    ensures StreamBits(input)[8 * count + index - 8..] == register[index..] + StreamBits(input[count..])
  {
    var head, tail := StreamBits(input[..count]), StreamBits(input[count..]);
    assert StreamBits(input) == head + tail && |head| == 8 * count by {
      StreamBitsSplit(input, count);
    }
    RegisterThenRest(StreamBits(input), head, tail, register, index, count);
  }

  /** The same on bit strings: s is head + tail, head ends with the octet the register holds. */
  lemma RegisterThenRest(s: seq<bool>, head: seq<bool>, tail: seq<bool>, register: seq<bool>, index: int, count: nat)
    requires s == head + tail && |head| == 8 * count
    requires |register| == 8 && 1 <= index <= 8 && (index < 8 ==> count >= 1)
    requires forall k {:trigger register[k]} :: index <= k < 8 ==> register[k] == s[8 * count - 8 + k]
    ensures s[8 * count + index - 8..] == register[index..] + tail
  {
    var p := |head| + index - 8;
    if index < 8 {
      SliceMatches(s, register, index, |head| - 8);
      assert (head + tail)[p..|head|] == head[p..];
    } else {
      assert head[p..] == [] == register[index..];
    }
    SuffixAcross(head, tail, p);
  }

  /** Register slots index..8 that agree with s from base + index on are the slice s[base + index..base + 8]. */
  lemma SliceMatches(s: seq<bool>, register: seq<bool>, index: int, base: int)
    requires |register| == 8 && 1 <= index <= 8 && 0 <= base + index && base + 8 <= |s|
    requires forall k {:trigger register[k]} :: index <= k < 8 ==> register[k] == s[base + k]
    ensures s[base + index..base + 8] == register[index..]
  {
    var rest := register[index..];
    forall k | 0 <= k < |rest|
      ensures s[base + index..base + 8][k] == rest[k]
    {
      assert register[index + k] == s[base + (index + k)];
    }
  }

  /** The bits `align(L)` discards: the rest of the register, then whole octets up to a multiple of L. */
  function AlignBits(index: int, count: nat, L: int): nat
    requires L >= 1 && index <= 8
  {
    (if index < 8 then 8 - index else 0) + 8 * AlignOctets(count, L)
  }

  /** The rest of the register, then the whole octets of an align, make up the bits it discards. */
  lemma AlignOutcome(s: seq<bool>, p: nat, index: int, count: nat, L: int, bits: nat, skipped: Result<int>, q: int)
    requires L >= 1 && index <= 8 && bits == (if index < 8 then 8 - index else 0) && p + bits <= |s|
    requires Skips(s, p + bits, 8 * AlignOctets(count, L), skipped, q)
    ensures Skips(s, p, AlignBits(index, count, L), if skipped.Ok? then Ok(bits + skipped.value) else skipped, q)
  {
  }

  class BitInput {
    /** The octets the byte source delivers before it answers -1. */
    const input: seq<Octet>
    const flags: array<bool>
    var index: int
    /** The number of octets pulled so far, which is also the source's position. */
    var count: nat

    /** The bit stream the byte source carries. */
    ghost function Stream(): seq<bool>
    {
      StreamBits(input)
    }

    /** The number of bits consumed so far: the octets pulled, less the register bits not yet read. */
    ghost function Position(): int
      reads this
    {
      8 * count + index - 8
    }

    /**
     * The state inside `readUnsignedByte`: the register slots from `index` on
     * hold the bits of the last octet pulled that are not yet read.
     */
    ghost predicate Sound()
      reads this, flags
    {
      && flags.Length == 8 && 0 <= index <= 8 && count <= |input|
      && (index < 8 ==> count >= 1)
      && forall k {:trigger flags[k]} :: index <= k < 8 ==> flags[k] == Stream()[8 * count - 8 + k]
    }

    /** The state between calls: the register is never left at slot 0. */
    ghost predicate Valid()
      reads this, flags
    {
      Sound() && index >= 1
    }

    constructor (input: seq<Octet>)
      ensures Valid() && fresh(flags) && this.input == input
      ensures index == 8 && count == 0 && Position() == 0
    {
      this.input := input;
      flags := new bool[8];
      index := 8;
      count := 0;
    }

    /** `octet()`: the next octet of the source, or end of data once the source answers -1. */
    method PullOctet() returns (r: Result<Octet>)
      requires Valid() && index == 8
      modifies this`count
      ensures Valid() && index == 8
      ensures old(count) == |input| ==> r == Err(EndOfFile) && count == old(count)
      ensures old(count) < |input| ==> r == Ok(input[old(count)]) && count == old(count) + 1
    {
      if count == |input| {
        return Err(EndOfFile);
      }
      r := Ok(input[count]);
      count := count + 1;
    }

    /**
     * `readUnsignedByte(length)`: the next `length` bits, 1 <= length <= 8, most
     * significant first. A field that crosses into the next octet is read as the
     * bits left in the register followed by the high bits of a freshly pulled octet.
     */
    method ReadUnsignedByte(length: int) returns (r: Result<int>)
      requires Valid()
      modifies this, flags
      ensures Valid()
      ensures !(1 <= length <= 8) ==> r == Err(IllegalArgument) && index == old(index) && count == old(count)
      ensures 1 <= length <= 8 ==> ReadsUnsigned(Stream(), old(Position()), length, r, Position())
      decreases if length < 0 then 0 else length, 1
    {
      if length <= 0 || length > 8 {
        return Err(IllegalArgument);
      }
      if index == 8 {
        var pulled := PullOctet();
        if pulled.Err? {
          return Err(pulled.error);
        }
        var octet := pulled.value;
        if length == 8 {
          OctetField(input, count - 1);
          return Ok(octet);
        }
        OctetInStream(input, count - 1);
        Unpack(octet);
        index := 0;
        forall k | 0 <= k < 8
          ensures flags[k] == Stream()[8 * count - 8 + k]
        {
          assert Stream()[8 * (count - 1)..8 * (count - 1) + 8][k] == OctetBits(octet)[k];
        }
      }
      r := ReadRegister(length);
    }

    /**
     * The rest of `readUnsignedByte` once the register holds an octet: a field
     * longer than the bits left is read as two recursive reads joined by
     * shift-and-or, a shorter one by the extraction loop.
     */
    method ReadRegister(length: int) returns (r: Result<int>)
      requires Sound() && 1 <= length <= 8 && index < 8
      modifies this, flags
      ensures Valid()
      ensures ReadsUnsigned(Stream(), old(Position()), length, r, Position())
      decreases length, 0
    {
      var available := 8 - index;
      var required := length - available;
      if required > 0 {
        ghost var p := Position();
        var high := ReadUnsignedByte(available);
        ghost var m := Position();
        var low := ReadUnsignedByte(required);
        ReadsConcat(Stream(), p, available, required, high, m, low, Position());
        if low.Err? {
          return low;
        }
        return Ok(Shl(high.value, required) + low.value);
      }
      FieldCongruent(flags[..], index, Stream(), Position(), length);
      var value := Extract(length);
      return Ok(value);
    }

    /** `readBoolean()`: the next bit. */
    method ReadBoolean() returns (r: Result<bool>)
      requires Valid()
      modifies this, flags
      ensures Valid()
      ensures ReadsBit(Stream(), old(Position()), r, Position())
    {
      ghost var p: nat := Position();
      var bit := ReadUnsignedByte(1);
      ReadsBitUnsigned(Stream(), p, bit, Position());
      if bit.Err? {
        return Err(bit.error);
      }
      return Ok(bit.value == 1);
    }

    /** `isNull()`: a leading 0 bit flags the object that follows as null. */
    method IsNull() returns (r: Result<bool>)
      requires Valid()
      modifies this, flags
      ensures Valid()
      ensures ReadsBit(Stream(), old(Position()), if r.Ok? then Ok(!r.value) else r, Position())
    {
      ghost var p: nat := Position();
      var bit := ReadUnsignedByte(1);
      ReadsBitUnsigned(Stream(), p, bit, Position());
      if bit.Err? {
        return Err(bit.error);
      }
      return Ok(bit.value == 0);
    }

    /** `isNotNull()`: the negation of `isNull()`, so a leading 1 bit. */
    method IsNotNull() returns (r: Result<bool>)
      requires Valid()
      modifies this, flags
      ensures Valid()
      ensures ReadsBit(Stream(), old(Position()), r, Position())
    {
      var isNull := IsNull();
      if isNull.Err? {
        return isNull;
      }
      return Ok(!isNull.value);
    }

    /** The loop of `readUnsignedShort`: `quotient` chunks of eight bits, accumulated by shift-and-or. */
    method ReadOctetChunks(quotient: nat) returns (r: Result<int>)
      requires Valid()
      modifies this, flags
      ensures Valid()
      ensures ReadsUnsigned(Stream(), old(Position()), 8 * quotient, r, Position())
    {
      ghost var s := Stream();
      ghost var p0: nat := Position();
      var value := 0;
      var i := 0;
      while i < quotient
        invariant 0 <= i <= quotient && Valid()
        invariant p0 + 8 * i <= |s| && Position() == p0 + 8 * i
        invariant value == Field(s, p0, 8 * i)
      {
        var chunk := ReadUnsignedByte(8);
        ReadsChunk(s, p0, 8, i, 8 * quotient, value, chunk, Position());
        if chunk.Err? {
          return chunk;
        }
        value := Shl(value, 8) + chunk.value;
        i := i + 1;
      }
      ReadsWhole(s, p0, 8 * i, 8 * quotient, value, Position());
      return Ok(value);
    }

    /** `readUnsignedShort(length)`: 1 <= length <= 16 bits as whole octets, then the remainder. */
    method ReadUnsignedShort(length: int) returns (r: Result<int>)
      requires Valid()
      modifies this, flags
      ensures Valid()
      ensures !(1 <= length <= 16) ==> r == Err(IllegalArgument) && index == old(index) && count == old(count)
      ensures 1 <= length <= 16 ==> ReadsUnsigned(Stream(), old(Position()), length, r, Position())
    {
      if length <= 0 || length > 16 {
        return Err(IllegalArgument);
      }
      var quotient, remainder := length / 8, length % 8;
      assert 8 * quotient + remainder == length && 0 <= remainder < 8;
      ghost var p: nat := Position();
      var high := ReadOctetChunks(quotient);
      if high.Err? || remainder == 0 {
        return high;
      }
      ghost var m: nat := Position();
      var low := ReadUnsignedByte(remainder);
      ReadsConcat(Stream(), p, 8 * quotient, remainder, high, m, low, Position());
      if low.Err? {
        return low;
      }
      return Ok(Shl(high.value, remainder) + low.value);
    }

    /** The loop of `readUnsignedInt`: `quotient` chunks of 16 bits, accumulated by shift-and-or. */
    method ReadShortChunks(quotient: nat) returns (r: Result<int>)
      requires Valid()
      modifies this, flags
      ensures Valid()
      ensures ReadsUnsigned(Stream(), old(Position()), 16 * quotient, r, Position())
    {
      ghost var s := Stream();
      ghost var p0: nat := Position();
      var value := 0;
      var i := 0;
      while i < quotient
        invariant 0 <= i <= quotient && Valid()
        invariant p0 + 16 * i <= |s| && Position() == p0 + 16 * i
        invariant value == Field(s, p0, 16 * i)
      {
        var chunk := ReadUnsignedShort(16);
        ReadsChunk(s, p0, 16, i, 16 * quotient, value, chunk, Position());
        if chunk.Err? {
          return chunk;
        }
        value := Shl(value, 16) + chunk.value;
        i := i + 1;
      }
      ReadsWhole(s, p0, 16 * i, 16 * quotient, value, Position());
      return Ok(value);
    }

    /** `readUnsignedInt(length)`: 1 <= length <= 31 bits as 16-bit chunks, then the remainder. */
    method ReadUnsignedInt(length: int) returns (r: Result<int>)
      requires Valid()
      modifies this, flags
      ensures Valid()
      ensures !(1 <= length <= 31) ==> r == Err(IllegalArgument) && index == old(index) && count == old(count)
      ensures 1 <= length <= 31 ==> ReadsUnsigned(Stream(), old(Position()), length, r, Position())
    {
      if length < 1 || length >= 32 {
        return Err(IllegalArgument);
      }
      var quotient, remainder := length / 16, length % 16;
      assert 16 * quotient + remainder == length && 0 <= remainder < 16;
      ghost var p: nat := Position();
      var high := ReadShortChunks(quotient);
      if high.Err? || remainder == 0 {
        return high;
      }
      ghost var m: nat := Position();
      var low := ReadUnsignedShort(remainder);
      ReadsConcat(Stream(), p, 16 * quotient, remainder, high, m, low, Position());
      if low.Err? {
        return low;
      }
      return Ok(Shl(high.value, remainder) + low.value);
    }

    /** `readInt(length)`: a sign bit and length - 1 magnitude bits, 2 <= length <= 32, sign-extended. */
    method ReadInt(length: int) returns (r: Result<int>)
      requires Valid()
      modifies this, flags
      ensures Valid()
      ensures !(2 <= length <= 32) ==> r == Err(IllegalArgument) && index == old(index) && count == old(count)
      ensures 2 <= length <= 32 ==> ReadsSigned(Stream(), old(Position()), length, r, Position())
    {
      if length <= 1 || length > 32 {
        return Err(IllegalArgument);
      }
      ghost var p: nat := Position();
      var sign := ReadBoolean();
      if sign.Err? {
        return Err(sign.error);
      }
      ghost var m: nat := Position();
      var magnitude := ReadUnsignedInt(length - 1);
      ReadsSignedConcat(Stream(), p, length, sign, m, magnitude, Position());
      if magnitude.Err? {
        return magnitude;
      }
      return Ok(Shl(if sign.value then -1 else 0, length - 1) + magnitude.value);
    }

    /** The loop of `readUnsignedLong`: `quotient` chunks of 31 bits, accumulated by shift-and-or. */
    method ReadIntChunks(quotient: nat) returns (r: Result<int>)
      requires Valid()
      modifies this, flags
      ensures Valid()
      ensures ReadsUnsigned(Stream(), old(Position()), 31 * quotient, r, Position())
    {
      ghost var s := Stream();
      ghost var p0: nat := Position();
      var value := 0;
      var i := 0;
      while i < quotient
        invariant 0 <= i <= quotient && Valid()
        invariant p0 + 31 * i <= |s| && Position() == p0 + 31 * i
        invariant value == Field(s, p0, 31 * i)
      {
        var chunk := ReadUnsignedInt(31);
        ReadsChunk(s, p0, 31, i, 31 * quotient, value, chunk, Position());
        if chunk.Err? {
          return chunk;
        }
        value := Shl(value, 31) + chunk.value;
        i := i + 1;
      }
      ReadsWhole(s, p0, 31 * i, 31 * quotient, value, Position());
      return Ok(value);
    }

    /** `readUnsignedLong(length)`: 1 <= length <= 63 bits as 31-bit chunks, then the remainder. */
    method ReadUnsignedLong(length: int) returns (r: Result<int>)
      requires Valid()
      modifies this, flags
      ensures Valid()
      ensures !(1 <= length <= 63) ==> r == Err(IllegalArgument) && index == old(index) && count == old(count)
      ensures 1 <= length <= 63 ==> ReadsUnsigned(Stream(), old(Position()), length, r, Position())
    {
      if length < 1 || length >= 64 {
        return Err(IllegalArgument);
      }
      var quotient, remainder := length / 31, length % 31;
      assert 31 * quotient + remainder == length && 0 <= remainder < 31;
      ghost var p: nat := Position();
      var high := ReadIntChunks(quotient);
      if high.Err? || remainder == 0 {
        return high;
      }
      ghost var m: nat := Position();
      var low := ReadUnsignedInt(remainder);
      ReadsConcat(Stream(), p, 31 * quotient, remainder, high, m, low, Position());
      if low.Err? {
        return low;
      }
      return Ok(Shl(high.value, remainder) + low.value);
    }

    /** `readLong(length)`: a sign bit and length - 1 magnitude bits, 2 <= length <= 64, sign-extended. */
    method ReadLong(length: int) returns (r: Result<int>)
      requires Valid()
      modifies this, flags
      ensures Valid()
      ensures !(2 <= length <= 64) ==> r == Err(IllegalArgument) && index == old(index) && count == old(count)
      ensures 2 <= length <= 64 ==> ReadsSigned(Stream(), old(Position()), length, r, Position())
    {
      if length <= 1 || length > 64 {
        return Err(IllegalArgument);
      }
      ghost var p: nat := Position();
      var sign := ReadBoolean();
      if sign.Err? {
        return Err(sign.error);
      }
      ghost var m: nat := Position();
      var magnitude := ReadUnsignedLong(length - 1);
      ReadsSignedConcat(Stream(), p, length, sign, m, magnitude, Position());
      if magnitude.Err? {
        return magnitude;
      }
      return Ok(Shl(if sign.value then -1 else 0, length - 1) + magnitude.value);
    }

    /** The fill loop shared by the `readBytes` variants that store into a caller's array. */
    method Fill(range: int, value: array<Int8>, offset: int, length: int) returns (o: Outcome)
      requires Valid() && 1 <= range <= 8 && 0 <= offset && 0 <= length
      modifies this, flags, value
      ensures Valid()
      ensures Fills(Stream(), old(Position()), range, old(value[..]), value[..], offset, length, o, Position())
    {
      ghost var s := Stream();
      ghost var p0: nat := Position();
      ghost var was := value[..];
      var i := 0;
      while i < length
        invariant 0 <= i <= length && (offset + i <= value.Length || i == 0) && Valid()
        invariant p0 + range * i <= |s| && Position() == p0 + range * i
        invariant Stored(s, p0, range, was, value[..], offset, i)
      {
        var b := ReadUnsignedByte(range);
        if b.Err? {
          FillsAtEnd(s, p0, range, was, value[..], offset, length, i);
          return Fail(EndOfFile);
        }
        if offset + i >= value.Length {
          FillsPastEnd(s, p0, range, was, value[..], offset, length, i);
          return Fail(IndexOutOfBounds);
        }
        ghost var before := value[..];
        StoredStep(s, p0, range, was, before, offset, i, ToInt8(b.value));
        value[offset + i] := ToInt8(b.value);
        assert value[..] == before[offset + i := ToInt8(b.value)];
        assert range * (i + 1) == range * i + range;
        i := i + 1;
      }
      FillsDone(s, p0, range, was, value[..], offset, length);
      return Pass;
    }

    /** `readBytes(range, value, offset, length)`: `length` elements of `range` bits into value[offset..]. */
    method ReadBytesInto(range: int, value: array?<Int8>, offset: Int32, length: Int32) returns (o: Outcome)
      requires Valid()
      modifies this, flags, value
      ensures Valid()
      ensures value == null ==> && o == Fail(if 1 <= range <= 8 then NullPointer else IllegalArgument)
                                && index == old(index) && count == old(count)
      ensures value != null ==>
                ChecksThenFills(Stream(), old(Position()), range, old(value[..]), value[..], offset, length, o, Position())
    {
      if range <= 0 || range > 8 {
        return Fail(IllegalArgument);
      }
      if value == null {
        return Fail(NullPointer);
      }
      if offset < 0 || length < 0 || ToInt32(offset + length) > value.Length {
        return Fail(IllegalArgument);
      }
      o := Fill(range, value, offset, length);
    }

    /** `readBytes(scale, range, value, offset)`: a `scale`-bit count, then that many elements into value[offset..]. */
    method ReadBytesAt(scale: int, range: int, value: array?<Int8>, offset: Int32) returns (r: Result<int>)
      requires Valid()
      modifies this, flags, value
      ensures Valid()
      ensures !(1 <= scale <= 16 && 1 <= range <= 8) || value == null || offset < 0 ==>
                && r == Err(if !(1 <= scale <= 16 && 1 <= range <= 8) then IllegalArgument
                            else if value == null then NullPointer else IllegalArgument)
                && index == old(index) && count == old(count)
                && (value != null ==> value[..] == old(value[..]))
      ensures 1 <= scale <= 16 && 1 <= range <= 8 && value != null && offset >= 0 ==>
                CountThenFills(Stream(), old(Position()), scale, range, old(value[..]), value[..], offset, r, Position())
    {
      if scale <= 0 || scale > 16 || range <= 0 || range > 8 {
        return Err(IllegalArgument);
      }
      if value == null {
        return Err(NullPointer);
      }
      if offset < 0 {
        return Err(IllegalArgument);
      }
      var length := ReadUnsignedShort(scale);
      if length.Err? {
        return length;
      }
      var o := Fill(range, value, offset, length.value);
      if o.Fail? {
        return Err(o.error);
      }
      return length;
    }

    /** `readBytes(scale, range)`: a `scale`-bit count, then a new array of that many `range`-bit elements. */
    method ReadBytes(scale: int, range: int) returns (r: Result<array<Int8>>)
      requires Valid()
      modifies this, flags
      ensures Valid()
      ensures r.Ok? ==> fresh(r.value)
      ensures !(1 <= scale <= 16 && 1 <= range <= 8) ==>
                r == Err(IllegalArgument) && index == old(index) && count == old(count)
      ensures 1 <= scale <= 16 && 1 <= range <= 8 ==>
                ReadsByteArray(Stream(), old(Position()), scale, range,
                               if r.Ok? then Ok(r.value[..]) else Err(r.error), Position())
    {
      if scale <= 0 || scale > 16 || range <= 0 || range > 8 {
        return Err(IllegalArgument);
      }
      var length := ReadUnsignedShort(scale);
      if length.Err? {
        return Err(length.error);
      }
      var value := new Int8[length.value];
      ghost var was := value[..];
      var o := Fill(range, value, 0, length.value);
      FillsFreshArray(Stream(), old(Position()), scale, range, was, value[..], o, Position());
      if o.Fail? {
        return Err(o.error);
      }
      return Ok(value);
    }

    /** `readBytes()`: a 16-bit count, then that many whole bytes. */
    method ReadDefaultBytes() returns (r: Result<array<Int8>>)
      requires Valid()
      modifies this, flags
      ensures Valid()
      ensures r.Ok? ==> fresh(r.value)
      ensures ReadsByteArray(Stream(), old(Position()), 16, 8, if r.Ok? then Ok(r.value[..]) else Err(r.error), Position())
    {
      r := ReadBytes(16, 8);
    }

    /**
     * `align(length)`, for an `int` or a `short` length: discard the rest of
     * the register, then whole octets until the number pulled is a multiple of
     * `length`; the call answers the number of bits discarded.
     */
    method Align(length: int) returns (r: Result<int>)
      requires Valid()
      modifies this, flags
      ensures Valid()
      ensures length <= 0 ==> r == Err(IllegalArgument) && index == old(index) && count == old(count)
      ensures length >= 1 ==> Skips(Stream(), old(Position()), AlignBits(old(index), old(count), length), r, Position())
      ensures length >= 1 && r.Ok? ==> index == 8 && count % length == 0
    {
      if length <= 0 {
        return Err(IllegalArgument);
      }
      ghost var p: nat := Position();
      ghost var start, pulled := index, count;
      var bits := 0;
      if index < 8 {
        bits := 8 - index;
        var _ := ReadUnsignedByte(bits);
      }
      assert index == 8 && Position() == p + bits && count == pulled;
      var bytes := count % length;
      if bytes == 0 {
        AlignOutcome(Stream(), p, start, pulled, length, bits, Ok(0), Position());
        return Ok(bits);
      }
      bytes := length - bytes;
      assert bytes == AlignOctets(pulled, length);
      var skipped := DiscardOctets(bytes);
      AlignOutcome(Stream(), p, start, pulled, length, bits, skipped, Position());
      if skipped.Err? {
        return skipped;
      }
      return Ok(bits + skipped.value);
    }

    /** The discard loop of `align`: `bytes` whole octets, eight bits each. */
    method DiscardOctets(bytes: nat) returns (r: Result<int>)
      requires Valid() && index == 8
      modifies this, flags
      ensures Valid() && index == 8
      ensures Skips(Stream(), old(Position()), 8 * bytes, r, Position())
      ensures r.Ok? ==> count == old(count) + bytes
    {
      ghost var s := Stream();
      ghost var p: nat := Position();
      var bits := 0;
      var left := bytes;
      while left > 0
        invariant 0 <= left <= bytes && Valid() && index == 8
        invariant bits == 8 * (bytes - left) && count == old(count) + (bytes - left)
        invariant Position() == p + bits <= |s|
      {
        var octet := ReadUnsignedByte(8);
        if octet.Err? {
          return Err(octet.error);
        }
        bits := bits + 8;
        left := left - 1;
      }
      return Ok(bits);
    }

    /** `close()`: align to a single octet, discarding the rest of the register. */
    method Close()
      requires Valid()
      modifies this, flags
      ensures Valid() && index == 8 && count == old(count)
      ensures Position() == old(Position()) + (if old(index) < 8 then 8 - old(index) else 0)
    {
      var _ := Align(1);
    }

    /** `getCount()`: the number of octets pulled from the byte source. */
    method GetCount() returns (c: nat)
      requires Valid()
      ensures c == count && c <= |input|
      ensures 8 * c == Position() + (8 - index)
    {
      return count;
    }

    /** The unpack loop of `readUnsignedByte`: the octet's bits into the register, most significant first. */
    method Unpack(octet: Octet)
      requires flags.Length == 8
      modifies flags
      ensures flags[..] == OctetBits(octet)
    {
      var v := octet;
      var i := 7;
      while i >= 0
        invariant -1 <= i <= 7
        invariant v == Shr(octet, 7 - i)
        invariant forall k :: i < k < 8 ==> flags[k] == OctetBits(octet)[k]
      {
        ToBitsAt(octet, 8, 7 - i);
        ShrSucc(octet, 7 - i);
        flags[i] := v % 2 == 1;
        v := v / 2;
        i := i - 1;
      }
    }

    /** The extraction loop of `readUnsignedByte`: `length` register bits taken as a number. */
    method Extract(length: nat) returns (value: int)
      requires flags.Length == 8 && 0 <= index && index + length <= 8
      modifies this`index
      ensures index == old(index) + length
      ensures value == Field(flags[..], old(index), length)
    {
      ghost var start := index;
      value := 0;
      var i := 0;
      while i < length
        invariant 0 <= i <= length && index == start + i
        invariant value == Field(flags[..], start, i)
      {
        value := Shl(value, 1);
        value := value + (if flags[index] then 1 else 0);
        index := index + 1;
        i := i + 1;
      }
    }
  }
}
