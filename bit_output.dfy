/**
 * The bit writer of `com.github.jinahya.io.BitOutput`: an eight-slot register
 * that collects the bits of the octet being assembled, the number of slots
 * filled so far, and the number of octets pushed to the byte output. Its
 * abstract state is the bit string written so far, the octets pushed followed
 * by the bits still pending in the register; every write is specified by what
 * it appends to that string.
 */
module BitOutputs {
  import opened Outcomes
  import opened Bits

  /**
   * The bits `align(L)` pads with: the rest of the register, which completes
   * one more octet, then whole zero octets until the number of octets pushed
   * is a multiple of L.
   */
  function PadBits(index: int, count: nat, L: int): (bits: nat)
    requires L >= 1 && 0 <= index < 8
    ensures index == 0 && count % L == 0 ==> bits == 0
    ensures (8 * count + index + bits) % 8 == 0
    ensures bits < 8 * L
  {
    var partial := if index > 0 then 8 - index else 0;
    var pushed := count + (if index > 0 then 1 else 0);
    assert 8 * count + index + partial == 8 * pushed;
    partial + 8 * AlignOctets(pushed, L)
  }

  /**
   * The answer of `align` wraps: one octet pushed, then `align(2^30)` pads
   * 2^30 - 1 octets, 2^33 - 8 bits, which a Java `int` holds as -8.
   */
  lemma AlignAnswerWraps()
    ensures PadBits(0, 1, 0x4000_0000) == 0x2_0000_0000 - 8
    ensures ToInt32(PadBits(0, 1, 0x4000_0000)) == -8
  {
  }

  class BitOutput {
    /** The octets pushed to the byte output so far. */
    var output: seq<Octet>
    const flags: array<bool>
    /** The number of register slots filled. */
    var index: int
    /** The number of octets pushed. */
    var count: nat
    /** The bits written so far. */
    ghost var Written: seq<bool>

    /**
     * The state between calls: a register that is never full, one push per
     * octet counted, and the bits written are those of the octets pushed
     * followed by the filled register slots.
     */
    ghost predicate Valid()
      reads this, flags
    {
      && flags.Length == 8 && 0 <= index < 8 && count == |output|
      && Written == StreamBits(output) + flags[..index]
    }

    /** Every bit written is accounted for: eight per octet pushed plus the register slots filled. */
    lemma BitAccounting()
      requires Valid()
      ensures |Written| == 8 * count + index
      ensures |Written| % 8 == 0 <==> index == 0
    {
    }

    constructor ()
      ensures Valid() && fresh(flags)
      ensures output == [] && index == 0 && count == 0 && Written == []
    {
      output := [];
      flags := new bool[8];
      index := 0;
      count := 0;
      Written := [];
    }

    /** `octet(int)`: push the completed octet to the byte output. */
    method PushOctet(value: Octet)
      requires flags.Length == 8 && index == 8 && count == |output|
      modifies this`output, this`count
      ensures output == old(output) + [value] && count == old(count) + 1
    {
      output := output + [value];
      count := count + 1;
    }

    /**
     * `writeUnsignedByte(length, value)`: the low `length` bits of value,
     * 1 <= length <= 8, most significant first. A field longer than the room
     * left in the register is written as its high bits, which complete the
     * current octet, then its low bits.
     */
    method WriteUnsignedByte(length: int, value: Int32) returns (o: Outcome)
      requires Valid()
      modifies this, flags
      ensures Valid()
      ensures !(1 <= length <= 8) ==>
                o == Fail(IllegalArgument) && output == old(output) && index == old(index) && Written == old(Written)
      ensures 1 <= length <= 8 ==> o == Pass && Written == old(Written) + ToBits(value, length)
      ensures 1 <= length <= 8 ==> 8 * count + index == 8 * old(count) + old(index) + length
      decreases if length < 0 then 0 else length
    {
      if length <= 0 || length > 8 {
        return Fail(IllegalArgument);
      }
      var required := length - (8 - index);
      if required > 0 {
        ghost var before := Written;
        var high := ShrInt(value, required);
        var _ := WriteUnsignedByte(length - required, high);
        var _ := WriteUnsignedByte(required, value);
        ToBitsSplit(value, length, required);
        return Pass;
      }
      Deposit(length, value);
      return Pass;
    }

    /**
     * The rest of `writeUnsignedByte` once the field fits in the register:
     * splice its bits into the free slots, and push the octet when the
     * register is full.
     */
    method Deposit(length: int, value: Int32)
      requires Valid() && 1 <= length <= 8 - index
      modifies this, flags
      ensures Valid()
      ensures Written == old(Written) + ToBits(value, length)
      ensures 8 * count + index == 8 * old(count) + old(index) + length
    {
      ghost var pending := flags[..index];
      Splice(length, value);
      index := index + length;
      Written := Written + ToBits(value, length);
      assert flags[..index] == pending + ToBits(value, length) by {
        assert flags[..index] == flags[..old(index)] + flags[old(index)..index];
      }
      if index == 8 {
        var octet := Pack();
        PushOctet(octet);
        index := 0;
        StreamBitsAppend(old(output), octet);
      }
    }

    /** `writeBoolean(value)`: a single bit, 1 for true. */
    method WriteBoolean(value: bool)
      requires Valid()
      modifies this, flags
      ensures Valid()
      ensures Written == old(Written) + [value]
    {
      var _ := WriteUnsignedByte(1, if value then 1 else 0);
      assert ToBits(if value then 1 else 0, 1) == [value];
    }

    /** `writeUnsignedShort(length, value)`: the low 1 <= length <= 16 bits, the odd bits first, then whole octets. */
    method WriteUnsignedShort(length: int, value: Int32) returns (o: Outcome)
      requires Valid()
      modifies this, flags
      ensures Valid()
      ensures !(1 <= length <= 16) ==>
                o == Fail(IllegalArgument) && output == old(output) && index == old(index) && Written == old(Written)
      ensures 1 <= length <= 16 ==> o == Pass && Written == old(Written) + ToBits(value, length)
    {
      if length <= 0 || length > 16 {
        return Fail(IllegalArgument);
      }
      var quotient, remainder := length / 8, length % 8;
      if remainder > 0 {
        var high := ShrInt(value, quotient * 8);
        var _ := WriteUnsignedByte(remainder, high);
      }
      WriteOctetChunks(quotient, value);
      ToBitsSplit(value, length, quotient * 8);
      return Pass;
    }

    /** The loop of `writeUnsignedShort`: the low 8 * quotient bits of value as whole octets, the highest first. */
    method WriteOctetChunks(quotient: nat, value: Int32)
      requires Valid() && quotient <= 2
      modifies this, flags
      ensures Valid()
      ensures Written == old(Written) + ToBits(value, 8 * quotient)
    {
      ghost var before := Written;
      var i := quotient - 1;
      while i >= 0
        invariant -1 <= i < quotient && Valid()
        invariant Written == before + ToBits(Shr(value, i * 8 + 8), 8 * quotient - (i * 8 + 8))
      {
        ghost var done := Written;
        var chunk := ShrInt(value, i * 8);
        var _ := WriteUnsignedByte(8, chunk);
        ChunkStep(before, done, Written, value, 8 * quotient, i * 8, 8, chunk);
        i := i - 1;
      }
    }

    /**
     * The tail shared by the int and long writers: the low 1 <= length <= 64
     * bits of value as the odd bits first, then 16-bit chunks, each narrowed
     * with `(int)` (which changes nothing when value is already an int).
     */
    method WriteShortChunks(length: int, value: Int64)
      requires Valid() && 1 <= length <= 64
      modifies this, flags
      ensures Valid()
      ensures Written == old(Written) + ToBits(value, length)
    {
      var quotient, remainder := length / 16, length % 16;
      if remainder > 0 {
        var high := ToInt32(Shr(value, quotient * 16));
        var _ := WriteUnsignedShort(remainder, high);
        CastKeepsLowBits(Shr(value, quotient * 16), remainder);
      }
      WriteShorts(quotient, value);
      ToBitsSplit(value, length, quotient * 16);
    }

    /** The chunk loop of the int and long writers: the low 16 * quotient bits of value, 16 at a time, the highest first. */
    method WriteShorts(quotient: nat, value: Int64)
      requires Valid()
      modifies this, flags
      ensures Valid()
      ensures Written == old(Written) + ToBits(value, 16 * quotient)
    {
      ghost var before := Written;
      var i := quotient - 1;
      while i >= 0
        invariant -1 <= i < quotient && Valid()
        invariant Written == before + ToBits(Shr(value, i * 16 + 16), 16 * quotient - (i * 16 + 16))
      {
        ghost var done := Written;
        var chunk := ToInt32(Shr(value, i * 16));
        var _ := WriteUnsignedShort(16, chunk);
        CastKeepsLowBits(Shr(value, i * 16), 16);
        ChunkStep(before, done, Written, value, 16 * quotient, i * 16, 16, chunk);
        i := i - 1;
      }
    }

    /** `writeUnsignedInt(length, value)`: 1 <= length <= 31, and value must be an unsigned `length`-bit number. */
    method WriteUnsignedInt(length: int, value: Int32) returns (o: Outcome)
      requires Valid()
      modifies this, flags
      ensures Valid()
      ensures o == Pass <==> 1 <= length <= 31 && 0 <= value < Pow2(length)
      ensures o != Pass ==> o == Fail(IllegalArgument) && output == old(output) && index == old(index)
                            && Written == old(Written)
      ensures o == Pass ==> Written == old(Written) + ToBits(value, length)
    {
      if length < 1 || length >= 32 {
        return Fail(IllegalArgument);
      }
      ShrZeroIff(value, length);
      if Shr(value, length) != 0 {
        return Fail(IllegalArgument);
      }
      WriteShortChunks(length, value);
      return Pass;
    }

    /** `writeInt(length, value)`: 2 <= length <= 32, and value must be a signed `length`-bit number. */
    method WriteInt(length: int, value: Int32) returns (o: Outcome)
      requires Valid()
      modifies this, flags
      ensures Valid()
      ensures o == Pass <==> 2 <= length <= 32 && -Pow2(length - 1) <= value < Pow2(length - 1)
      ensures o != Pass ==> o == Fail(IllegalArgument) && output == old(output) && index == old(index)
                            && Written == old(Written)
      ensures o == Pass ==> Written == old(Written) + ToBits(value, length)
    {
      if length <= 1 || length > 32 {
        return Fail(IllegalArgument);
      }
      if length != 32 {
        if value < 0 {
          ShrMinusOneIff(value, length - 1);
          if Shr(value, length - 1) != -1 {
            return Fail(IllegalArgument);
          }
        } else {
          ShrZeroIff(value, length - 1);
          if Shr(value, length - 1) != 0 {
            return Fail(IllegalArgument);
          }
        }
      } else {
        Pow2Values();
      }
      WriteShortChunks(length, value);
      return Pass;
    }

    /** `writeUnsignedLong(length, value)`: 1 <= length <= 63, and value must be an unsigned `length`-bit number. */
    method WriteUnsignedLong(length: int, value: Int64) returns (o: Outcome)
      requires Valid()
      modifies this, flags
      ensures Valid()
      ensures o == Pass <==> 1 <= length <= 63 && 0 <= value < Pow2(length)
      ensures o != Pass ==> o == Fail(IllegalArgument) && output == old(output) && index == old(index)
                            && Written == old(Written)
      ensures o == Pass ==> Written == old(Written) + ToBits(value, length)
    {
      if length < 1 || length >= 64 {
        return Fail(IllegalArgument);
      }
      ShrZeroIff(value, length);
      if Shr(value, length) != 0 {
        return Fail(IllegalArgument);
      }
      WriteShortChunks(length, value);
      return Pass;
    }

    /** `writeLong(length, value)`: 2 <= length <= 64, and value must be a signed `length`-bit number. */
    method WriteLong(length: int, value: Int64) returns (o: Outcome)
      requires Valid()
      modifies this, flags
      ensures Valid()
      ensures o == Pass <==> 2 <= length <= 64 && -Pow2(length - 1) <= value < Pow2(length - 1)
      ensures o != Pass ==> o == Fail(IllegalArgument) && output == old(output) && index == old(index)
                            && Written == old(Written)
      ensures o == Pass ==> Written == old(Written) + ToBits(value, length)
    {
      if length <= 1 || length > 64 {
        return Fail(IllegalArgument);
      }
      if length < 64 {
        if value < 0 {
          ShrMinusOneIff(value, length - 1);
          if Shr(value, length - 1) != -1 {
            return Fail(IllegalArgument);
          }
        } else {
          ShrZeroIff(value, length - 1);
          if Shr(value, length - 1) != 0 {
            return Fail(IllegalArgument);
          }
        }
      } else {
        Pow2Add(32, 31);
        Pow2Values();
      }
      WriteShortChunks(length, value);
      return Pass;
    }

    /**
     * `writeBytes(scale, range, value)`: the array's length in `scale` bits,
     * 1 <= scale <= 16, then the low `range` bits of each element, 1 <= range <= 8.
     * Every check is made before anything is written.
     */
    method WriteBytes(scale: int, range: int, value: array?<Int8>) returns (o: Outcome)
      requires Valid()
      modifies this, flags
      ensures Valid()
      ensures o == Pass <==> 1 <= scale <= 16 && 1 <= range <= 8 && value != null && value.Length < Pow2(scale)
      ensures o != Pass ==> && o == Fail(if 1 <= scale <= 16 && 1 <= range <= 8 && value == null then NullPointer
                                        else IllegalArgument)
                            && output == old(output) && index == old(index) && Written == old(Written)
      ensures o == Pass ==> Written == old(Written) + ToBits(value.Length, scale) + BytesBits(value[..], range)
    {
      if scale <= 0 || scale > 16 || range <= 0 || range > 8 {
        return Fail(IllegalArgument);
      }
      if value == null {
        return Fail(NullPointer);
      }
      ShrPositiveIff(value.Length, scale);
      if Shr(value.Length, scale) > 0 {
        return Fail(IllegalArgument);
      }
      assert value.Length < 0x8000_0000 by {
        Pow2Monotone(scale, 31);
        Pow2Values();
      }
      var _ := WriteUnsignedShort(scale, value.Length);
      ghost var head := Written;
      ghost var a := value[..];
      var i := 0;
      while i < value.Length
        invariant 0 <= i <= value.Length == |a| && Valid()
        invariant Written == head + BytesBits(a[..i], range)
      {
        ghost var done := Written;
        var _ := WriteUnsignedByte(range, value[i]);
        BytesBitsStep(head, done, Written, a, i, range);
        i := i + 1;
      }
      assert a[..i] == a;
      return Pass;
    }

    /**
     * `align(length)`: pad the rest of the register with zero bits, then
     * push zero octets until the number pushed is a multiple of `length`;
     * the call answers the number of bits padded, summed in a Java `int`
     * and so wrapped to 32 bits once it passes 2^31 - 1.
     */
    method Align(length: Int32) returns (r: Result<Int32>)
      requires Valid()
      modifies this, flags
      ensures Valid()
      ensures length < 1 ==> r == Err(IllegalArgument) && output == old(output) && index == old(index)
                             && Written == old(Written)
      ensures length >= 1 ==> && r == Ok(ToInt32(PadBits(old(index), old(count), length)))
                              && Written == old(Written) + ToBits(0, PadBits(old(index), old(count), length))
                              && index == 0 && count % length == 0
    {
      if length < 1 {
        return Err(IllegalArgument);
      }
      var bits: Int32 := 0;
      if index > 0 {
        bits := 8 - index;
        var _ := WriteUnsignedByte(bits, 0);
        assert count == old(count) + 1;
      }
      ghost var partial: nat := bits;
      ghost var padded := Written;
      ghost var pushed := old(count) + (if old(index) > 0 then 1 else 0);
      assert count == pushed;
      assert PadBits(old(index), old(count), length) == partial + 8 * AlignOctets(pushed, length);
      var bytes := count % length;
      if bytes == 0 {
        return Ok(bits);
      }
      bytes := length - bytes;
      assert AlignOctets(count, length) == bytes;
      bits := PadOctets(bits, bytes);
      ZerosStep(old(Written), padded, Written, partial, 8 * bytes);
      return Ok(bits);
    }

    /**
     * The loop of `align(length)`: push `bytes` zero octets, adding 8 to the
     * int `bits` for each; the call answers the wrapped sum.
     */
    method PadOctets(start: Int32, bytes: nat) returns (bits: Int32)
      requires Valid() && index == 0
      modifies this, flags
      ensures Valid() && index == 0
      ensures bits == ToInt32(start + 8 * bytes) && count == old(count) + bytes
      ensures Written == old(Written) + ToBits(0, 8 * bytes)
    {
      bits := start;
      var left := bytes;
      ghost var pad := 0;
      while left > 0
        invariant 0 <= left <= bytes && Valid() && index == 0
        invariant count == old(count) + (bytes - left) && pad == 8 * (bytes - left)
        invariant bits == ToInt32(start + pad)
        invariant Written == old(Written) + ToBits(0, pad)
      {
        ghost var done := Written;
        var _ := WriteUnsignedByte(8, 0);
        ZerosStep(old(Written), done, Written, pad, 8);
        WrapAdd(start + pad, 8);
        bits := ToInt32(bits + 8);
        pad := pad + 8;
        left := left - 1;
      }
    }

    /** `align()`: pad to the next octet boundary. */
    method AlignOctet() returns (r: Result<Int32>)
      requires Valid()
      modifies this, flags
      ensures Valid() && index == 0
      ensures r == Ok(if old(index) > 0 then 8 - old(index) else 0)
      ensures Written == old(Written) + ToBits(0, r.value)
    {
      r := Align(1);
    }

    /** `close()`: pad to the next octet boundary (closing the byte output itself is not modelled). */
    method Close()
      requires Valid()
      modifies this, flags
      ensures Valid() && index == 0
      ensures Written == old(Written) + ToBits(0, if old(index) > 0 then 8 - old(index) else 0)
    {
      var _ := Align(1);
    }

    /** `getCount()`: the number of octets pushed to the byte output. */
    method GetCount() returns (c: nat)
      requires Valid()
      ensures c == |output| && 8 * c + index == |Written|
    {
      BitAccounting();
      return count;
    }

    /** The splice loop of `writeUnsignedByte`: the low `length` bits of value into slots index.., low bit last. */
    method Splice(length: nat, value: Int32)
      requires flags.Length == 8 && 0 <= index && index + length <= 8
      modifies flags
      ensures flags[..index] == old(flags[..index])
      ensures flags[index..index + length] == ToBits(value, length)
    {
      var v: int := value;
      var i := index + length - 1;
      while i >= index
        invariant index - 1 <= i < index + length
        invariant v == Shr(value, index + length - 1 - i)
        invariant forall k :: i < k < index + length ==> flags[k] == ToBits(value, length)[k - index]
        invariant forall k :: 0 <= k < index ==> flags[k] == old(flags[k])
      {
        ToBitsAt(value, length, index + length - 1 - i);
        ShrSucc(value, index + length - 1 - i);
        flags[i] := v % 2 == 1;
        v := v / 2;
        i := i - 1;
      }
    }

    /** The pack loop of `writeUnsignedByte`: the eight register slots as an octet, most significant first. */
    method Pack() returns (octet: Octet)
      requires flags.Length == 8
      ensures OctetBits(octet) == flags[..]
    {
      var v := 0;
      var i := 0;
      while i < 8
        invariant 0 <= i <= 8
        invariant v == FromBits(flags[..i])
      {
        assert flags[..i + 1][..i] == flags[..i];
        v := Shl(v, 1) + (if flags[i] then 1 else 0);
        i := i + 1;
      }
      assert flags[..i] == flags[..];
      FromBitsBound(flags[..]);
      Pow2Values();
      ToBitsFromBits(flags[..]);
      octet := v;
    }
  }
}
