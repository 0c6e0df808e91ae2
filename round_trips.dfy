/**
 * What the reader and the writer promise each other: the fields a `BitOutput`
 * emits, once aligned, read back through a `BitInput` as the values written;
 * the padding of the writer's `align` is exactly what the reader's `align`
 * discards; and bytes stored through the array transports come back masked.
 */
module RoundTrips {
  import opened Outcomes
  import opened Bits
  import opened BitInputs
  import opened BitOutputs
  import opened ArrayByteOutputs
  import opened ArrayInputs
  import GenericBitInputs

  // ------------------------------------------------------------ fields on a stream

  /** An unsigned n-bit field written anywhere in a stream reads back as its value. */
  lemma UnsignedFieldRoundTrip(front: seq<bool>, v: int, n: nat, back: seq<bool>)
    requires 0 <= v < Pow2(n)
    ensures ReadsUnsigned(front + ToBits(v, n) + back, |front|, n, Ok(v), |front| + n)
  {
    var s := front + ToBits(v, n) + back;
    assert s == front + (ToBits(v, n) + back);
    SliceMiddle(front, ToBits(v, n), back);
    FieldFromBits(s, |front|, n);
    FromBitsToBits(v, n);
  }

  /** A signed n-bit field written anywhere in a stream reads back, sign-extended, as its value. */
  lemma SignedFieldRoundTrip(front: seq<bool>, v: int, n: nat, back: seq<bool>)
    requires n >= 1 && -Pow2(n - 1) <= v < Pow2(n - 1)
    ensures ReadsSigned(front + ToBits(v, n) + back, |front|, n, Ok(v), |front| + n)
  {
    var s := front + ToBits(v, n) + back;
    assert s == front + (ToBits(v, n) + back);
    SliceMiddle(front, ToBits(v, n), back);
    SignedFieldValue(s, |front|, n);
    SignedRoundTrip(v, n);
  }

  /**
   * A writer that has emitted `8 * wc + wi` bits and a reader that has
   * consumed as many agree on alignment: the reader's `align(L)` discards
   * exactly the bits the writer's `align(L)` pads with.
   */
  lemma AlignAgrees(wi: int, wc: nat, ri: int, rc: nat, L: int)
    requires L >= 1 && 0 <= wi < 8 && 1 <= ri <= 8
    requires 8 * wc + wi == 8 * rc + ri - 8
    ensures PadBits(wi, wc, L) == AlignBits(ri, rc, L)
  {
    if wi == 0 {
      assert ri == 8 && rc == wc;
    } else {
      assert ri == wi && rc == wc + 1;
    }
  }

  /** Once the writer is aligned to octets, the octets it pushed carry every bit written. */
  lemma Emitted(output: BitOutput)
    requires output.Valid() && output.index == 0
    ensures StreamBits(output.output) == output.Written
  {
    assert output.flags[..0] == [];
  }

  // ------------------------------------------------------------- write, then read

  /** `writeUnsignedInt(n, v)` then `align(1)`, read back with `readUnsignedInt(n)`, gives v. */
  method UnsignedIntRoundTrip(length: int, value: Int32) returns (r: Result<int>)
    requires 1 <= length <= 31 && 0 <= value < Pow2(length)
    ensures r == Ok(value)
  {
    var output := new BitOutput();
    var written := output.WriteUnsignedInt(length, value);
    var padded := output.Align(1);
    Emitted(output);
    var input := new BitInput(output.output);
    r := input.ReadUnsignedInt(length);
    assert input.Stream() == [] + ToBits(value, length) + ToBits(0, padded.value);
    UnsignedFieldRoundTrip([], value, length, ToBits(0, padded.value));
  }

  /** `writeInt(n, v)` then `align(1)`, read back with `readInt(n)`, gives v. */
  method IntRoundTrip(length: int, value: Int32) returns (r: Result<int>)
    requires 2 <= length <= 32 && -Pow2(length - 1) <= value < Pow2(length - 1)
    ensures r == Ok(value)
  {
    var output := new BitOutput();
    var written := output.WriteInt(length, value);
    var padded := output.Align(1);
    Emitted(output);
    var input := new BitInput(output.output);
    r := input.ReadInt(length);
    assert input.Stream() == [] + ToBits(value, length) + ToBits(0, padded.value);
    SignedFieldRoundTrip([], value, length, ToBits(0, padded.value));
  }

  /** `writeUnsignedLong(n, v)` then `align(1)`, read back with `readUnsignedLong(n)`, gives v. */
  method UnsignedLongRoundTrip(length: int, value: Int64) returns (r: Result<int>)
    requires 1 <= length <= 63 && 0 <= value < Pow2(length)
    ensures r == Ok(value)
  {
    var output := new BitOutput();
    var written := output.WriteUnsignedLong(length, value);
    var padded := output.Align(1);
    Emitted(output);
    var input := new BitInput(output.output);
    r := input.ReadUnsignedLong(length);
    assert input.Stream() == [] + ToBits(value, length) + ToBits(0, padded.value);
    UnsignedFieldRoundTrip([], value, length, ToBits(0, padded.value));
  }

  /** `writeLong(n, v)` then `align(1)`, read back with `readLong(n)`, gives v. */
  method LongRoundTrip(length: int, value: Int64) returns (r: Result<int>)
    requires 2 <= length <= 64 && -Pow2(length - 1) <= value < Pow2(length - 1)
    ensures r == Ok(value)
  {
    var output := new BitOutput();
    var written := output.WriteLong(length, value);
    var padded := output.Align(1);
    Emitted(output);
    var input := new BitInput(output.output);
    r := input.ReadLong(length);
    assert input.Stream() == [] + ToBits(value, length) + ToBits(0, padded.value);
    SignedFieldRoundTrip([], value, length, ToBits(0, padded.value));
  }

  /**
   * `writeBytes(scale, range, value)` then `align(1)`, read back with
   * `readBytes(scale, range)`, gives the elements narrowed to their low
   * `range` bits; with a range of 8 that is the array written.
   */
  method BytesRoundTrip(scale: int, range: int, value: array<Int8>) returns (r: Result<seq<Int8>>)
    requires 1 <= scale <= 16 && 1 <= range <= 8 && value.Length < Pow2(scale)
    ensures r == Ok(Narrowed(value[..], range))
    ensures range == 8 ==> r == Ok(value[..])
  {
    var octets, padding := WriteBytesAligned(scale, range, value);
    var input := new BitInput(octets);
    var read := input.ReadBytes(scale, range);
    r := if read.Ok? then Ok(read.value[..]) else Err(read.error);
    StreamLayout(scale, range, value[..], ToBits(0, padding), input.Stream());
    ReadsWholeArray(input.Stream(), 0, scale, range, r, input.Position(), value.Length, Narrowed(value[..], range));
    if range == 8 {
      NarrowedFull(value[..]);
    }
  }

  /** The octets `writeBytes(scale, range, value)` then `align(1)` push: the count, the elements, then zero padding. */
  method WriteBytesAligned(scale: int, range: int, value: array<Int8>) returns (octets: seq<Octet>, padding: nat)
    requires 1 <= scale <= 16 && 1 <= range <= 8 && value.Length < Pow2(scale)
    ensures StreamBits(octets) == ToBits(value.Length, scale) + BytesBits(value[..], range) + ToBits(0, padding)
    ensures padding < 8
  {
    var output := new BitOutput();
    ghost var count, elements := ToBits(value.Length, scale), BytesBits(value[..], range);
    ghost var before := output.Written;
    var written := output.WriteBytes(scale, range, value);
    EmptyPrefix(before, count, elements);
    var padded := output.Align(1);
    Emitted(output);
    octets, padding := output.output, padded.value;
  }

  /** Where the count and the elements sit in the stream `writeBytes` emits. */
  lemma StreamLayout(scale: nat, range: nat, a: seq<Int8>, zeros: seq<bool>, s: seq<bool>)
    requires 1 <= scale <= 16 && 1 <= range <= 8 && |a| < Pow2(scale)
    requires s == ToBits(|a|, scale) + BytesBits(a, range) + zeros
    ensures scale + range * |a| <= |s|
    ensures Field(s, 0, scale) == |a|
    ensures DecodeBytes(s, scale, range, |a|) == Narrowed(a, range)
  {
    var count, elements := ToBits(|a|, scale), BytesBits(a, range);
    assert Field(s, 0, scale) == |a| by {
      AppendStep(count, count + elements, s, elements, zeros, elements + zeros);
      CountAtFront(|a|, scale, elements + zeros, s);
    }
    Bits.BytesRoundTrip(count, a, zeros, range);
  }

  /** A read of a byte array whose count and elements are known. */
  lemma ReadsWholeArray(s: seq<bool>, p: nat, scale: nat, range: nat, r: Result<seq<Int8>>, q: int, n: nat,
                        d: seq<Int8>)
    requires p + scale <= |s| && Field(s, p, scale) == n && p + scale + range * n <= |s|
    requires DecodeBytes(s, p + scale, range, n) == d
    requires ReadsByteArray(s, p, scale, range, r, q)
    ensures r == Ok(d)
  {
  }

  /** A count written first in a stream is what the first `scale` bits of the stream denote. */
  lemma CountAtFront(n: int, scale: nat, rest: seq<bool>, s: seq<bool>)
    requires 0 <= n < Pow2(scale) && s == ToBits(n, scale) + rest
    ensures scale <= |s| && Field(s, 0, scale) == n
  {
    EmptyPrefix([], ToBits(n, scale), rest);
    UnsignedFieldRoundTrip([], n, scale, rest);
  }

  /**
   * `writeBoolean(true)`, `writeUnsignedInt(3, 5)` and `writeUnsignedInt(4, 9)`
   * fill exactly one octet, and the writer pushes it as 0xD9 with nothing left
   * in the register.
   */
  method PackedOctet() returns (octets: seq<Octet>, index: int)
    ensures octets == [0xD9] && index == 0
  {
    var output := new BitOutput();
    output.WriteBoolean(true);
    var three := output.WriteUnsignedInt(3, 5);
    var four := output.WriteUnsignedInt(4, 9);
    output.BitAccounting();
    Emitted(output);
    octets, index := output.output, output.index;
    SingleOctet(octets, output.Written);
  }

  /** Octets that carry the bits of `true`, of 5 in three bits and of 9 in four bits are the single octet 0xD9. */
  lemma SingleOctet(octets: seq<Octet>, written: seq<bool>)
    requires StreamBits(octets) == written == [] + [true] + ToBits(5, 3) + ToBits(9, 4)
    ensures octets == [0xD9]
  {
    assert |octets| == 1;
    assert StreamBits(octets) == OctetBits(octets[0]) by {
      assert octets[1..] == [];
    }
    EmptyPrefix([], [true], ToBits(5, 3));
    PackedValue();
    OctetRoundTrip(octets[0]);
  }

  /** The bits of `true`, of 5 in three bits and of 9 in four bits denote 0xD9. */
  lemma PackedValue()
    ensures FromBits([true] + ToBits(5, 3) + ToBits(9, 4)) == 0xD9
  {
    assert Pow2(3) == 8 && Pow2(4) == 16;
    FromBitsToBits(5, 3);
    FromBitsToBits(9, 4);
    assert FromBits([true]) == 1;
    FromBitsAppend([true], ToBits(5, 3));
    FromBitsAppend([true] + ToBits(5, 3), ToBits(9, 4));
  }

  // --------------------------------------------------------------- aligning twice

  /** A second `align(L)` of the writer right after the first pads nothing. */
  method OutputAlignTwice(output: BitOutput, length: Int32) returns (first: Result<Int32>, second: Result<Int32>)
    requires output.Valid() && length >= 1
    modifies output, output.flags
    ensures output.Valid() && first.Ok? && second == Ok(0)
  {
    first := output.Align(length);
    second := output.Align(length);
  }

  /** A second `align(L)` of the reader right after a first one that succeeded discards nothing. */
  method InputAlignTwice(input: BitInput, length: int) returns (first: Result<int>, second: Result<int>)
    requires input.Valid() && length >= 1
    modifies input, input.flags
    ensures input.Valid() && (first.Ok? ==> second == Ok(0))
  {
    first := input.Align(length);
    if first.Ok? {
      second := input.Align(length);
    } else {
      second := first;
    }
  }

  /** The same for the generic reader's `align(short)`. */
  method GenericInputAlignTwice(input: GenericBitInputs.BitInput, length: Int16) returns (first: Result<int>, second: Result<int>)
    requires input.Valid() && length >= 1
    modifies input, input.flags
    ensures input.Valid() && (first.Ok? ==> second == Ok(0))
  {
    first := input.Align(length);
    if first.Ok? {
      second := input.Align(length);
    } else {
      second := first;
    }
  }

  // -------------------------------------------------------------- array transports

  /**
   * Bytes stored through an `ArrayByteOutput`, read back through an
   * `ArrayInput` over the same array, come back as their low eight bits.
   */
  method ArrayRoundTrip(values: seq<Int32>) returns (r: seq<Octet>)
    requires |values| < 0x8000_0000
    ensures |r| == |values| && forall j :: 0 <= j < |values| ==> r[j] == values[j] % 0x100
  {
    var cells := new Int8[|values|];
    var output := new ArrayByteOutput(cells, 0, |values| as Int32);
    WriteAll(output, values);
    var input := new ArrayInput(cells, 0, |values| as Int32);
    r := ReadAll(input, |values|);
    forall j | 0 <= j < |values|
      ensures r[j] == values[j] % 0x100
    {
      MaskAfterCast(values[j]);
    }
  }

  /** k successful writes from index i leave slots i .. i + k holding the k values, cast `(byte)`, in order. */
  method WriteAll(output: ArrayByteOutput, values: seq<Int32>)
    requires output.target != null && 0 <= output.index
    requires output.index + |values| <= output.limit && output.index + |values| <= output.target.Length
    modifies output, output.target
    ensures output.target == old(output.target) && output.limit == old(output.limit)
    ensures output.index == old(output.index) + |values|
    ensures output.target[..] == StoreAll(old(output.target[..]), old(output.index), values)
  {
    var k := 0;
    while k < |values|
      invariant 0 <= k <= |values| && output.target == old(output.target) && output.limit == old(output.limit)
      invariant output.index == old(output.index) + k
      invariant output.target[..] == StoreAll(old(output.target[..]), old(output.index), values[..k])
    {
      var o := output.Write(values[k]);
      StoreAllThenMore(old(output.target[..]), old(output.index), values[..k], [values[k]]);
      assert values[..k] + [values[k]] == values[..k + 1];
      k := k + 1;
    }
    assert values[..k] == values;
  }

  /** k successful reads from index i hand out the bytes in slots i .. i + k, masked to 0..255, in order. */
  method ReadAll(input: ArrayInput, k: nat) returns (r: seq<Octet>)
    requires input.source != null && 0 <= input.index
    requires input.index + k <= input.limit && input.index + k <= input.source.Length
    modifies input
    ensures input.source == old(input.source) && input.limit == old(input.limit)
    ensures input.index == old(input.index) + k
    ensures r == Masked(input.source[old(input.index)..old(input.index) + k])
  {
    r := [];
    var i := 0;
    while i < k
      invariant 0 <= i <= k && input.index == old(input.index) + i
      invariant input.source == old(input.source) && input.limit == old(input.limit)
      invariant r == Masked(input.source[old(input.index)..old(input.index) + i])
    {
      var octet := input.ReadUnsignedByte();
      ghost var a := input.source[old(input.index)..old(input.index) + i + 1];
      assert a[..i] == input.source[old(input.index)..old(input.index) + i];
      r := r + [octet.value];
      i := i + 1;
    }
  }
}
