/**
 * The bit-level vocabulary shared by the readers and the writer: powers of two,
 * Java's arithmetic right shift, the low bits of a two's complement value written
 * most significant bit first, the number a bit string denotes, the bit stream of
 * a sequence of octets, Java's narrowing casts, and the bit-string meaning of a
 * read, of a signed field, of a byte array and of an alignment.
 */
module Bits {
  import opened Outcomes

  /** An octet as a byte transport hands it over: 0..255. */
  type Octet = x: int | 0 <= x < 0x100

  /** Java's primitive integer types. */
  type Int8 = x: int | -0x80 <= x < 0x80
  type Int16 = x: int | -0x8000 <= x < 0x8000
  type Int32 = x: int | -0x8000_0000 <= x < 0x8000_0000
  type Int64 = x: int | -0x8000_0000_0000_0000 <= x < 0x8000_0000_0000_0000

  // ------------------------------------------------------------------ sequences

  /** Appending x, then y, appends x + y. */
  lemma AppendStep<T>(before: seq<T>, done: seq<T>, now: seq<T>, x: seq<T>, y: seq<T>, z: seq<T>)
    requires done == before + x && now == done + y && x + y == z
    ensures now == before + z
  {
    assert (before + x) + y == before + (x + y);
  }

  /** An empty prefix adds nothing. */
  lemma EmptyPrefix<T>(e: seq<T>, x: seq<T>, y: seq<T>)
    requires e == []
    ensures e + x + y == x + y
  {
  }

  /** The middle part of a three-part sequence is where its length says. */
  lemma SliceMiddle<T>(front: seq<T>, mid: seq<T>, back: seq<T>)
    ensures (front + (mid + back))[|front|..|front| + |mid|] == mid
  {
  }

  /** A suffix of a + b that starts inside a is the rest of a, then b. */
  lemma SuffixAcross<T>(a: seq<T>, b: seq<T>, i: nat)
    requires i <= |a|
    ensures (a + b)[i..] == a[i..] + b
  {
  }

  // ---------------------------------------------------------------- powers of two

  function Pow2(n: nat): (r: int)
    ensures r >= 1
  {
    if n == 0 then 1 else 2 * Pow2(n - 1)
  }

  lemma {:induction false} Pow2Add(a: nat, b: nat)
    ensures Pow2(a + b) == Pow2(a) * Pow2(b)
  {
    if b > 0 {
      Pow2Add(a, b - 1);
      assert Pow2(a + b) == 2 * Pow2(a + b - 1);
      assert Pow2(b) == 2 * Pow2(b - 1);
    }
  }

  lemma {:induction false} Pow2Monotone(a: nat, b: nat)
    requires a <= b
    ensures Pow2(a) <= Pow2(b)
    decreases b - a
  {
    if a < b {
      Pow2Monotone(a, b - 1);
    }
  }

  /** The widths the integer reads and writes are built from. */
  lemma Pow2Values()
    ensures Pow2(8) == 0x100 && Pow2(16) == 0x1_0000
    ensures Pow2(31) == 0x8000_0000 && Pow2(32) == 0x1_0000_0000
  {
    assert Pow2(2) == 4;
    Pow2Add(2, 2);
    Pow2Add(4, 4);
    Pow2Add(8, 8);
    Pow2Add(16, 16);
    assert Pow2(32) == 2 * Pow2(31);
  }

  /** Java's `v << k` on a value whose result still fits the accumulator. */
  function Shl(v: int, k: nat): int
  {
    v * Pow2(k)
  }

  // ------------------------------------------------------------ arithmetic shift

  /** Java's arithmetic right shift `v >> k`: floor halving, k times. */
  function Shr(v: int, k: nat): int
    decreases k
  {
    if k == 0 then v else Shr(v / 2, k - 1)
  }

  lemma {:induction false} ShrSucc(v: int, k: nat)
    ensures Shr(v, k + 1) == Shr(v, k) / 2
    decreases k
  {
    if k > 0 {
      ShrSucc(v / 2, k - 1);
    }
  }

  lemma {:induction false} ShrAdd(v: int, a: nat, b: nat)
    ensures Shr(Shr(v, a), b) == Shr(v, a + b)
    decreases a
  {
    if a > 0 {
      ShrAdd(v / 2, a - 1, b);
    }
  }

  /** `v >> n == 0` exactly when v is an unsigned n-bit value. */
  lemma {:induction false} ShrZeroIff(v: int, n: nat)
    ensures Shr(v, n) == 0 <==> 0 <= v < Pow2(n)
    decreases n
  {
    if n > 0 {
      ShrZeroIff(v / 2, n - 1);
    }
  }

  /** `v >> n == ~0` exactly when v is negative and at least -2^n. */
  lemma {:induction false} ShrMinusOneIff(v: int, n: nat)
    ensures Shr(v, n) == -1 <==> -Pow2(n) <= v < 0
    decreases n
  {
    if n > 0 {
      ShrMinusOneIff(v / 2, n - 1);
    }
  }

  /** For a non-negative v, `v >> n > 0` exactly when v needs more than n bits. */
  lemma {:induction false} ShrPositiveIff(v: int, n: nat)
    requires v >= 0
    ensures Shr(v, n) > 0 <==> v >= Pow2(n)
    decreases n
  {
    if n > 0 {
      ShrPositiveIff(v / 2, n - 1);
    }
  }

  /** A right shift never leaves the range [-m, m) it started in: `>>` keeps an int an int. */
  lemma {:induction false} ShrWithin(v: int, k: nat, m: int)
    requires -m <= v < m
    ensures -m <= Shr(v, k) < m
    decreases k
  {
    if k > 0 {
      ShrWithin(v / 2, k - 1, m);
    }
  }

  /** Halving, then dividing by P, is dividing by 2P (Euclidean division rounds down for positive divisors). */
  lemma HalveThenDivide(v: int, P: int)
    requires P >= 1
    ensures v / 2 / P == v / (2 * P)
  {
    var h, q := v / 2, v / 2 / P;
    var r1, r2 := v % 2, h % P;
    assert h == P * q + r2;
    assert v == 2 * h + r1;
    assert v == (2 * P) * q + (2 * r2 + r1);
    ModUnique(v, 2 * P, q, 2 * r2 + r1);
  }

  /** `v >> k` is v divided by 2^k, rounded toward negative infinity. */
  lemma {:induction false} ShrIsDivision(v: int, k: nat)
    ensures Shr(v, k) == v / Pow2(k)
    decreases k
  {
    if k > 0 {
      ShrIsDivision(v / 2, k - 1);
      HalveThenDivide(v, Pow2(k - 1));
    }
  }

  /**
   * Java's `v >> k` on an int, for a shift distance k below 32 (the only
   * distances the writer uses): v divided by 2^k rounded down, which stays an
   * int.
   */
  function ShrInt(v: Int32, k: nat): (r: Int32)
    requires k < 32
    ensures r == Shr(v, k) && r == v / Pow2(k)
  {
    ShrWithin(v, k, 0x8000_0000);
    ShrIsDivision(v, k);
    Shr(v, k)
  }

  // ----------------------------------------------------------------- bit strings

  /**
   * The low n bits of v's two's complement, most significant first. (The
   * decreases clause names v as well so that the verifier unrolls ToBits only
   * where v is a known constant too.)
   */
  function ToBits(v: int, n: nat): (s: seq<bool>)
    ensures |s| == n
    decreases n, v
  {
    if n == 0 then [] else ToBits(v / 2, n - 1) + [v % 2 == 1]
  }

  /** The unsigned number a bit string denotes, most significant bit first. */
  function FromBits(s: seq<bool>): nat
  {
    if s == [] then 0 else 2 * FromBits(s[..|s| - 1]) + (if s[|s| - 1] then 1 else 0)
  }

  /** An n-bit string denotes a number below 2^n. */
  lemma {:induction false} FromBitsBound(s: seq<bool>)
    ensures FromBits(s) < Pow2(|s|)
  {
    if s != [] {
      FromBitsBound(s[..|s| - 1]);
    }
  }

  /**
   * The unsigned number the n bits of `s` from position p denote, most
   * significant first: FromBits(s[p..p + n]), stated on positions.
   */
  function Field(s: seq<bool>, p: nat, n: nat): nat
    requires p + n <= |s|
    decreases n, s
  {
    if n == 0 then 0 else 2 * Field(s, p, n - 1) + (if s[p + n - 1] then 1 else 0)
  }

  /** A field is the bit string it covers, read as a number. */
  lemma {:induction false} FieldFromBits(s: seq<bool>, p: nat, n: nat)
    requires p + n <= |s|
    ensures Field(s, p, n) == FromBits(s[p..p + n])
    decreases n
  {
    if n > 0 {
      FieldFromBits(s, p, n - 1);
      assert s[p..p + n][..n - 1] == s[p..p + n - 1];
    }
  }

  /** An n-bit field is below 2^n. */
  lemma FieldBound(s: seq<bool>, p: nat, n: nat)
    requires p + n <= |s|
    ensures Field(s, p, n) < Pow2(n)
  {
    FieldFromBits(s, p, n);
    FromBitsBound(s[p..p + n]);
  }

  /** A field of a + b bits is its first a bits shifted left by b, or-ed with its last b bits. */
  lemma {:induction false} FieldSplit(s: seq<bool>, p: nat, a: nat, b: nat)
    requires p + a + b <= |s|
    ensures Field(s, p, a + b) == Shl(Field(s, p, a), b) + Field(s, p + a, b)
    decreases b
  {
    if b > 0 {
      FieldSplit(s, p, a, b - 1);
      var A, P := Field(s, p, a), Pow2(b - 1);
      MulAssoc(A, 2, P);
    }
  }

  /** Fields over bit strings that agree bit for bit are equal. */
  lemma {:induction false} FieldCongruent(s: seq<bool>, p: nat, t: seq<bool>, q: nat, n: nat)
    requires p + n <= |s| && q + n <= |t|
    requires forall k :: p <= k < p + n ==> s[k] == t[k - p + q]
    ensures Field(s, p, n) == Field(t, q, n)
    decreases n
  {
    if n > 0 {
      assert s[p + n - 1] == t[q + n - 1];
      FieldCongruent(s, p, t, q, n - 1);
    }
  }

  /** Bit j (counted from the least significant end) of ToBits(v, n) is `(v >> j) & 1`. */
  lemma {:induction false} ToBitsAt(v: int, n: nat, j: nat)
    requires j < n
    ensures ToBits(v, n)[n - 1 - j] == (Shr(v, j) % 2 == 1)
    decreases j
  {
    if j > 0 {
      ToBitsAt(v / 2, n - 1, j - 1);
    }
  }

  /** A field of n bits is its high n - k bits followed by its low k bits. */
  lemma {:induction false} ToBitsSplit(v: int, n: nat, k: nat)
    requires k <= n
    ensures ToBits(v, n) == ToBits(Shr(v, k), n - k) + ToBits(v, k)
    decreases k
  {
    if k > 0 {
      ToBitsSplit(v / 2, n - 1, k - 1);
    }
  }

  /** Chunked writing: the top bits above bit k + w, then the w bits above bit k. */
  lemma ToBitsChunk(v: int, n: nat, k: nat, w: nat)
    requires k + w <= n
    ensures ToBits(Shr(v, k + w), n - (k + w)) + ToBits(Shr(v, k), w) == ToBits(Shr(v, k), n - k)
  {
    ToBitsSplit(Shr(v, k), n - k, w);
    ShrAdd(v, k, w);
  }

  /**
   * One step of a chunked write of the low n bits of v: a chunk that carries
   * the w bits above bit k, appended to the bits above bit k + w, gives the
   * bits above bit k.
   */
  lemma ChunkStep(before: seq<bool>, done: seq<bool>, now: seq<bool>, v: int, n: nat, k: nat, w: nat, chunk: int)
    requires k + w <= n
    requires ToBits(chunk, w) == ToBits(Shr(v, k), w)
    requires done == before + ToBits(Shr(v, k + w), n - (k + w))
    requires now == done + ToBits(chunk, w)
    ensures now == before + ToBits(Shr(v, k), n - k)
  {
    ToBitsChunk(v, n, k, w);
    AppendStep(before, done, now, ToBits(Shr(v, k + w), n - (k + w)), ToBits(chunk, w), ToBits(Shr(v, k), n - k));
  }

  /** The low n bits do not change when a multiple of 2^n is added. */
  lemma {:induction false} ToBitsCongruent(v: int, m: int, n: nat)
    ensures ToBits(v + m * Pow2(n), n) == ToBits(v, n)
    decreases n
  {
    if n > 0 {
      var h := m * Pow2(n - 1);
      assert m * Pow2(n) == 2 * h;
      assert (v + 2 * h) / 2 == v / 2 + h;
      assert (v + 2 * h) % 2 == v % 2;
      ToBitsCongruent(v / 2, m, n - 1);
    }
  }

  /** Zero padding of a + b bits is a bits of padding followed by b more. */
  lemma ZerosAppend(a: nat, b: nat)
    ensures ToBits(0, a) + ToBits(0, b) == ToBits(0, a + b)
  {
    ToBitsSplit(0, a + b, b);
    ShrZeroIff(0, b);
  }

  /** Padding with a zero bits, then b more, pads with a + b zero bits. */
  lemma ZerosStep(before: seq<bool>, done: seq<bool>, now: seq<bool>, a: nat, b: nat)
    requires done == before + ToBits(0, a) && now == done + ToBits(0, b)
    ensures now == before + ToBits(0, a + b)
  {
    ZerosAppend(a, b);
    AppendStep(before, done, now, ToBits(0, a), ToBits(0, b), ToBits(0, a + b));
  }

  /** An unsigned n-bit value survives the trip to bits and back. */
  lemma {:induction false} FromBitsToBits(v: int, n: nat)
    requires 0 <= v < Pow2(n)
    ensures FromBits(ToBits(v, n)) == v
    decreases n
  {
    if n > 0 {
      var s := ToBits(v, n);
      assert s[..n - 1] == ToBits(v / 2, n - 1);
      FromBitsToBits(v / 2, n - 1);
    }
  }

  /** A negative value at least -2^n comes back as its n-bit two's complement. */
  lemma {:induction false} FromBitsToBitsNegative(v: int, n: nat)
    requires -Pow2(n) <= v < 0
    ensures FromBits(ToBits(v, n)) == v + Pow2(n)
    decreases n
  {
    if n > 0 {
      var s := ToBits(v, n);
      assert s[..n - 1] == ToBits(v / 2, n - 1);
      FromBitsToBitsNegative(v / 2, n - 1);
    }
  }

  /** Every bit string is the image of the number it denotes. */
  lemma {:induction false} ToBitsFromBits(s: seq<bool>)
    ensures ToBits(FromBits(s), |s|) == s
  {
    if s != [] {
      var p := s[..|s| - 1];
      ToBitsFromBits(p);
      var v := FromBits(s);
      assert v / 2 == FromBits(p);
      assert s == p + [s[|s| - 1]];
    }
  }

  /** Concatenating bit strings is shift-and-or of the numbers they denote. */
  lemma {:induction false} FromBitsAppend(a: seq<bool>, b: seq<bool>)
    ensures FromBits(a + b) == FromBits(a) * Pow2(|b|) + FromBits(b)
  {
    if b == [] {
      assert a + b == a;
    } else {
      var p := b[..|b| - 1];
      var x := if b[|b| - 1] then 1 else 0;
      assert (a + b)[..|a + b| - 1] == a + p;
      assert (a + b)[|a + b| - 1] == b[|b| - 1];
      assert FromBits(a + b) == 2 * FromBits(a + p) + x;
      assert FromBits(b) == 2 * FromBits(p) + x;
      FromBitsAppend(a, p);
      var A, P := FromBits(a), Pow2(|p|);
      assert Pow2(|b|) == 2 * P;
      MulAssoc(A, 2, P);
    }
  }

  lemma MulAssoc(a: int, b: int, c: int)
    ensures a * (b * c) == b * (a * c) == (a * b) * c
  {
  }

  // --------------------------------------------------------------- octet stream

  /**
   * The width of an octet, named so that the verifier does not unroll
   * ToBits eight levels deep wherever an octet's bits appear.
   */
  const OctetWidth: nat := 8

  /** An octet's eight bits, most significant first. */
  function OctetBits(o: Octet): (s: seq<bool>)
    ensures |s| == 8
  {
    ToBits(o, OctetWidth)
  }

  /** The bit stream a sequence of octets carries. */
  function StreamBits(os: seq<Octet>): (s: seq<bool>)
    ensures |s| == 8 * |os|
  {
    if os == [] then [] else OctetBits(os[0]) + StreamBits(os[1..])
  }

  lemma {:induction false} StreamBitsAppend(os: seq<Octet>, o: Octet)
    ensures StreamBits(os + [o]) == StreamBits(os) + OctetBits(o)
  {
    if os != [] {
      assert (os + [o])[1..] == os[1..] + [o];
      StreamBitsAppend(os[1..], o);
    } else {
      assert os + [o] == [o];
    }
  }

  /** The stream of a sequence of octets splits wherever the sequence does. */
  lemma {:induction false} StreamBitsSplit(os: seq<Octet>, i: nat)
    requires i <= |os|
    ensures StreamBits(os) == StreamBits(os[..i]) + StreamBits(os[i..])
  {
    if i == 0 {
      assert os[..0] == [] && os[0..] == os;
    } else {
      StreamBitsSplit(os[1..], i - 1);
      assert os[1..][..i - 1] == os[..i][1..];
      assert os[1..][i - 1..] == os[i..];
    }
  }

  /** Octet j of the source occupies bits 8j .. 8j + 8 of its stream, and those bits read back as the octet. */
  lemma OctetInStream(os: seq<Octet>, j: nat)
    requires j < |os|
    ensures StreamBits(os)[8 * j..8 * j + 8] == OctetBits(os[j])
  {
    StreamBitsSplit(os, j);
    assert os[j..][1..] == os[j + 1..];
    var front, octet, back := StreamBits(os[..j]), OctetBits(os[j]), StreamBits(os[j + 1..]);
    assert StreamBits(os[j..]) == octet + back;
    SliceMiddle(front, octet, back);
  }

  /** The eight bits of octet j of the source read back as the octet. */
  lemma OctetField(os: seq<Octet>, j: nat)
    requires j < |os|
    ensures Field(StreamBits(os), 8 * j, 8) == os[j]
  {
    OctetInStream(os, j);
    FieldFromBits(StreamBits(os), 8 * j, 8);
    OctetRoundTrip(os[j]);
  }

  /** Packing eight bits into an octet and unpacking it again are inverse. */
  lemma OctetRoundTrip(o: Octet)
    ensures FromBits(OctetBits(o)) == o
  {
    Pow2Values();
    FromBitsToBits(o, 8);
  }

  // ----------------------------------------------------------------- Java casts

  /** Java's narrowing `(byte) v`. */
  function ToInt8(v: int): (b: Int8)
    ensures (v - b) % 0x100 == 0
    ensures 0 <= v < 0x80 ==> b == v
    ensures 0x80 <= v < 0x100 ==> b == v - 0x100
  {
    (v + 0x80) % 0x100 - 0x80
  }

  /** Java's `b & 0xFF` for a byte b. */
  function Unsigned8(b: Int8): (u: Octet)
    ensures (u - b) % 0x100 == 0
  {
    if b < 0 then b + 0x100 else b
  }

  /** Masking a `(byte)` cast with 0xFF gives back the low eight bits of the value cast. */
  lemma MaskAfterCast(v: int)
    ensures Unsigned8(ToInt8(v)) == v % 0x100
  {
  }

  /** Bytes as `readUnsignedByte` hands them out: each masked with 0xFF. */
  function Masked(bs: seq<Int8>): (r: seq<Octet>)
    ensures |r| == |bs| && forall j :: 0 <= j < |bs| ==> r[j] == Unsigned8(bs[j])
  {
    if bs == [] then [] else Masked(bs[..|bs| - 1]) + [Unsigned8(bs[|bs| - 1])]
  }

  /**
   * The byte array `cells` after the bytes `values`, each cast `(byte)`, are
   * stored in order in the slots from `at` on; every other slot keeps its value.
   */
  function StoreAll(cells: seq<Int8>, at: int, values: seq<int>): (r: seq<Int8>)
    requires 0 <= at && at + |values| <= |cells|
    ensures |r| == |cells|
    ensures forall j :: 0 <= j < |cells| ==> r[j] == (if at <= j < at + |values| then ToInt8(values[j - at]) else cells[j])
    decreases |values|
  {
    if values == [] then cells
    else StoreAll(cells, at, values[..|values| - 1])[at + |values| - 1 := ToInt8(values[|values| - 1])]
  }

  /** Storing vs, then ws right after them, stores vs + ws. */
  lemma StoreAllThenMore(cells: seq<Int8>, at: int, vs: seq<int>, ws: seq<int>)
    requires 0 <= at && at + |vs| + |ws| <= |cells|
    ensures StoreAll(StoreAll(cells, at, vs), at + |vs|, ws) == StoreAll(cells, at, vs + ws)
  {
    var left, right := StoreAll(StoreAll(cells, at, vs), at + |vs|, ws), StoreAll(cells, at, vs + ws);
    forall j | 0 <= j < |cells|
      ensures left[j] == right[j]
    {
      if at + |vs| <= j < at + |vs| + |ws| {
        assert (vs + ws)[j - at] == ws[j - (at + |vs|)];
      } else if at <= j < at + |vs| {
        assert (vs + ws)[j - at] == vs[j - at];
      }
    }
  }

  /** Java's narrowing `(int) v` of a long. */
  function ToInt32(v: int): (r: Int32)
    ensures (v - r) % 0x1_0000_0000 == 0
    ensures -0x8000_0000 <= v < 0x8000_0000 ==> r == v
  {
    (v + 0x8000_0000) % 0x1_0000_0000 - 0x8000_0000
  }

  /** Adding to an int that has already wrapped wraps to the same int: `bits += d` keeps `bits == (int) total`. */
  lemma WrapAdd(v: int, d: int)
    ensures ToInt32(ToInt32(v) + d) == ToInt32(v + d)
  {
    var w := ToInt32(v);
    var k := (v - w) / 0x1_0000_0000;
    assert v == w + 0x1_0000_0000 * k;
    WrapShift(w + d, k);
  }

  /** Whole multiples of 2^32 vanish in the cast. */
  lemma WrapShift(v: int, k: int)
    ensures ToInt32(v + 0x1_0000_0000 * k) == ToInt32(v)
  {
    ModUnique(v + 0x8000_0000 + 0x1_0000_0000 * k, 0x1_0000_0000, (v + 0x8000_0000) / 0x1_0000_0000 + k, (v + 0x8000_0000) % 0x1_0000_0000);
  }

  /** `(int) v` keeps the low n <= 32 bits of v. */
  lemma CastKeepsLowBits(v: int, n: nat)
    requires n <= 32
    ensures ToBits(ToInt32(v), n) == ToBits(v, n)
  {
    var q := (v + 0x8000_0000) / 0x1_0000_0000;
    assert ToInt32(v) == v - 0x1_0000_0000 * q;
    Pow2Values();
    Pow2Add(n, 32 - n);
    var P1, P2 := Pow2(n), Pow2(32 - n);
    assert P1 * P2 == 0x1_0000_0000;
    var m := -q * P2;
    MulAssoc(-q, P2, P1);
    ToBitsCongruent(v, m, n);
  }

  // ------------------------------------------------------------- signed fields

  /** The value of a sign bit followed by |s| - 1 magnitude bits, sign-extended. */
  function SignedValue(s: seq<bool>): (v: int)
    requires |s| >= 1
    ensures -Pow2(|s| - 1) <= v < Pow2(|s| - 1)
  {
    FromBitsBound(s[1..]);
    (if s[0] then -Pow2(|s| - 1) else 0) + FromBits(s[1..])
  }

  /** A signed n-bit value survives its two's complement n-bit field. */
  lemma SignedRoundTrip(v: int, n: nat)
    requires n >= 1 && -Pow2(n - 1) <= v < Pow2(n - 1)
    ensures SignedValue(ToBits(v, n)) == v
  {
    var s := ToBits(v, n);
    ToBitsSplit(v, n, n - 1);
    assert s[1..] == ToBits(v, n - 1);
    if v < 0 {
      ShrMinusOneIff(v, n - 1);
      assert ToBits(-1, 1) == [true];
      FromBitsToBitsNegative(v, n - 1);
    } else {
      ShrZeroIff(v, n - 1);
      assert ToBits(0, 1) == [false];
      FromBitsToBits(v, n - 1);
    }
  }

  // -------------------------------------------------------------- what a read means
  //
  // A reader walks a fixed bit stream `s`; its state is the position `p` of the
  // next unread bit, 0 <= p <= |s|. A read that needs more bits than are left
  // fails with end of data and leaves the reader at the end of the stream.

  /** Reading n bits at position p, most significant first, leaves the reader at q. */
  ghost predicate ReadsUnsigned(s: seq<bool>, p: nat, n: nat, r: Result<int>, q: int)
  {
    if p + n <= |s| then r == Ok(Field(s, p, n)) && q == p + n
    else r == Err(EndOfFile) && q == |s|
  }

  /** A read of a + b bits is a read of a bits, then of b bits, joined by shift-and-or. */
  lemma ReadsConcat(s: seq<bool>, p: nat, a: nat, b: nat, high: Result<int>, m: nat,
                    low: Result<int>, q: int)
    requires p + a <= |s|
    requires ReadsUnsigned(s, p, a, high, m) && ReadsUnsigned(s, m, b, low, q)
    ensures ReadsUnsigned(s, p, a + b, if low.Ok? then Ok(Shl(high.value, b) + low.value) else low, q)
  {
    if p + a + b <= |s| {
      FieldSplit(s, p, a, b);
    }
  }

  /**
   * One step of a chunked read of `length` bits at p: after i chunks of w bits,
   * which denote `value`, one more chunk either extends the value by w bits or
   * ends the whole read with end of data.
   */
  lemma ReadsChunk(s: seq<bool>, p: nat, w: nat, i: nat, length: nat, value: int,
                   chunk: Result<int>, q: int)
    requires w * (i + 1) <= length
    requires p + w * i <= |s| && value == Field(s, p, w * i)
    requires ReadsUnsigned(s, p + w * i, w, chunk, q)
    ensures chunk.Ok? ==> && p + w * (i + 1) <= |s| && q == p + w * (i + 1)
                          && Shl(value, w) + chunk.value == Field(s, p, w * (i + 1))
    ensures chunk.Err? ==> ReadsUnsigned(s, p, length, chunk, q)
  {
    assert w * (i + 1) == w * i + w;
    if p + w * i + w <= |s| {
      FieldSplit(s, p, w * i, w);
    }
  }

  /**
   * The last step of a chunked read: once `done` bits denote `value`, the `rest`
   * bits that remain complete the read of `length` bits.
   */
  lemma ReadsTail(s: seq<bool>, p: nat, done: nat, rest: nat, length: nat, value: int,
                  chunk: Result<int>, q: int)
    requires done + rest == length
    requires p + done <= |s| && value == Field(s, p, done)
    requires ReadsUnsigned(s, p + done, rest, chunk, q)
    ensures chunk.Ok? ==> ReadsUnsigned(s, p, length, Ok(Shl(value, rest) + chunk.value), q)
    ensures chunk.Err? ==> ReadsUnsigned(s, p, length, chunk, q)
  {
    ReadsConcat(s, p, done, rest, Ok(value), p + done, chunk, q);
  }

  /** A read of `length` bits that are exactly the `done` bits already consumed. */
  lemma ReadsWhole(s: seq<bool>, p: nat, done: nat, length: nat, value: int, q: int)
    requires done == length
    requires p + done <= |s| && q == p + done && value == Field(s, p, done)
    ensures ReadsUnsigned(s, p, length, Ok(value), q)
  {
  }

  /** The value of the n >= 1 bits from p read as a sign bit and n - 1 magnitude bits, sign-extended. */
  function SignedField(s: seq<bool>, p: nat, n: nat): (v: int)
    requires n >= 1 && p + n <= |s|
    ensures -Pow2(n - 1) <= v < Pow2(n - 1)
  {
    FieldBound(s, p + 1, n - 1);
    (if s[p] then -Pow2(n - 1) else 0) + Field(s, p + 1, n - 1)
  }

  /** A signed field is the bit string it covers, read as a two's complement number. */
  lemma SignedFieldValue(s: seq<bool>, p: nat, n: nat)
    requires n >= 1 && p + n <= |s|
    ensures SignedField(s, p, n) == SignedValue(s[p..p + n])
  {
    FieldFromBits(s, p + 1, n - 1);
    assert s[p..p + n][1..] == s[p + 1..p + n];
  }

  /** The same for a signed field of n >= 1 bits. */
  ghost predicate ReadsSigned(s: seq<bool>, p: nat, n: nat, r: Result<int>, q: int)
    requires n >= 1
  {
    if p + n <= |s| then r == Ok(SignedField(s, p, n)) && q == p + n
    else r == Err(EndOfFile) && q == |s|
  }

  /** A one-bit read: the next bit, or end of data when the stream is exhausted. */
  ghost predicate ReadsBit(s: seq<bool>, p: nat, r: Result<bool>, q: int)
  {
    if p < |s| then r == Ok(s[p]) && q == p + 1
    else r == Err(EndOfFile) && q == |s|
  }

  /** Discarding n bits, answering how many were discarded. */
  ghost predicate Skips(s: seq<bool>, p: nat, n: nat, r: Result<int>, q: int)
  {
    if p + n <= |s| then r == Ok(n) && q == p + n
    else r == Err(EndOfFile) && q == |s|
  }

  /** A one-bit read is a one-bit unsigned read whose value is 1 exactly for a set bit. */
  lemma ReadsBitUnsigned(s: seq<bool>, p: nat, bit: Result<int>, q: int)
    requires ReadsUnsigned(s, p, 1, bit, q)
    ensures ReadsBit(s, p, if bit.Ok? then Ok(bit.value == 1) else Err(bit.error), q)
    ensures bit.Ok? ==> (bit.value == 1 || bit.value == 0)
  {
    if p + 1 <= |s| {
      assert Field(s, p, 1) == if s[p] then 1 else 0;
    }
  }

  /** A signed read is a one-bit read of the sign, then of the n - 1 magnitude bits. */
  lemma ReadsSignedConcat(s: seq<bool>, p: nat, n: nat, sign: Result<bool>, m: nat,
                          magnitude: Result<int>, q: int)
    requires n >= 1 && sign.Ok?
    requires ReadsBit(s, p, sign, m) && ReadsUnsigned(s, m, n - 1, magnitude, q)
    ensures ReadsSigned(s, p, n, if magnitude.Ok? then Ok(Shl(if sign.value then -1 else 0, n - 1) + magnitude.value)
                                 else magnitude, q)
  {
  }

  // ----------------------------------------------------------------- byte arrays

  /** The bits `writeBytes` emits for the elements: the low `range` bits of each, in order. */
  function BytesBits(bs: seq<Int8>, range: nat): (s: seq<bool>)
    ensures |s| == range * |bs|
  {
    if bs == [] then [] else BytesBits(bs[..|bs| - 1], range) + ToBits(bs[|bs| - 1], range)
  }

  /** Writing one more element appends its `range` bits. */
  lemma BytesBitsStep(before: seq<bool>, done: seq<bool>, now: seq<bool>, a: seq<Int8>, i: nat, range: nat)
    requires i < |a|
    requires done == before + BytesBits(a[..i], range)
    requires now == done + ToBits(a[i], range)
    ensures now == before + BytesBits(a[..i + 1], range)
  {
    assert a[..i + 1][..i] == a[..i];
    AppendStep(before, done, now, BytesBits(a[..i], range), ToBits(a[i], range), BytesBits(a[..i + 1], range));
  }

  /** The n elements of `range` bits each that start at position p of `s`, each cast `(byte)`. */
  function DecodeBytes(s: seq<bool>, p: nat, range: nat, n: nat): (bs: seq<Int8>)
    requires p + range * n <= |s|
    ensures |bs| == n
  {
    if n == 0 then []
    else
      assert range * (n - 1) + range == range * n;
      DecodeBytes(s, p, range, n - 1) + [ToInt8(Field(s, p + range * (n - 1), range))]
  }

  /** Element j of the stream of `range`-bit fields that starts at position p of `s`, cast `(byte)`. */
  ghost function Element(s: seq<bool>, p: nat, range: nat, j: nat): Int8
  {
    if p + range * j + range <= |s| then ToInt8(Field(s, p + range * j, range)) else 0
  }

  lemma {:induction false} DecodeBytesAt(s: seq<bool>, p: nat, range: nat, n: nat, j: nat)
    requires p + range * n <= |s| && j < n
    ensures DecodeBytes(s, p, range, n)[j] == Element(s, p, range, j)
  {
    assert range * (n - 1) + range == range * n;
    if j < n - 1 {
      DecodeBytesAt(s, p, range, n - 1, j);
    }
  }

  lemma MulMonotone(a: nat, b: int, c: int)
    requires b <= c
    ensures a * b <= a * c
  {
    assert a * c - a * b == a * (c - b);
  }

  /** Every element read back with `range` bits is below 2^range once masked with 0xFF. */
  lemma {:induction false} DecodeBytesBound(s: seq<bool>, p: nat, range: nat, n: nat, k: nat)
    requires 1 <= range <= 8 && p + range * n <= |s| && k < n
    ensures Unsigned8(DecodeBytes(s, p, range, n)[k]) < Pow2(range)
  {
    assert range * (n - 1) + range == range * n;
    if k < n - 1 {
      DecodeBytesBound(s, p, range, n - 1, k);
    } else {
      var u := Field(s, p + range * (n - 1), range);
      FieldBound(s, p + range * (n - 1), range);
      Pow2Monotone(range, 8);
      Pow2Values();
      assert Pow2(range) <= 0x100;
      if u >= 0x80 {
        assert Unsigned8(ToInt8(u)) == u;
      }
    }
  }

  /** A Java byte survives its eight-bit field and the `(byte)` cast. */
  lemma ByteRoundTrip(b: Int8)
    ensures ToInt8(FromBits(ToBits(b, 8))) == b
  {
    Pow2Values();
    if b >= 0 {
      FromBitsToBits(b, 8);
    } else {
      FromBitsToBitsNegative(b, 8);
    }
  }

  /** What a byte written with its low `range` bits reads back as: those bits, zero-extended, cast `(byte)`. */
  function Narrowed(bs: seq<Int8>, range: nat): (r: seq<Int8>)
    ensures |r| == |bs|
  {
    if bs == [] then []
    else Narrowed(bs[..|bs| - 1], range) + [ToInt8(FromBits(ToBits(bs[|bs| - 1], range)))]
  }

  /** Keeping all eight bits of every byte changes nothing. */
  lemma {:induction false} NarrowedFull(bs: seq<Int8>)
    ensures Narrowed(bs, 8) == bs
  {
    if bs != [] {
      NarrowedFull(bs[..|bs| - 1]);
      ByteRoundTrip(bs[|bs| - 1]);
      assert bs == bs[..|bs| - 1] + [bs[|bs| - 1]];
    }
  }

  /** The element fields `writeBytes` emits, wherever they sit in a stream, read back as the narrowed bytes. */
  lemma {:induction false} BytesRoundTrip(front: seq<bool>, bs: seq<Int8>, rest: seq<bool>, range: nat)
    ensures |front| + range * |bs| <= |front + BytesBits(bs, range) + rest|
    ensures DecodeBytes(front + BytesBits(bs, range) + rest, |front|, range, |bs|) == Narrowed(bs, range)
  {
    if bs != [] {
      var n := |bs|;
      var init, b := bs[..n - 1], bs[n - 1];
      var field := ToBits(b, range);
      var tail := field + rest;
      var s := front + BytesBits(bs, range) + rest;
      assert BytesBits(bs, range) == BytesBits(init, range) + field;
      assert s == front + BytesBits(init, range) + tail;
      BytesRoundTrip(front, init, tail, range);
      var at := |front| + range * (n - 1);
      assert range * n == range * (n - 1) + range;
      assert s[at..at + range] == field by {
        assert |front + BytesBits(init, range)| == at;
      }
      FieldFromBits(s, at, range);
    }
  }

  // ------------------------------------------------------------------ alignment

  /** The whole octets an align(L) moves past: the fewest that make `count` a multiple of L. */
  function AlignOctets(count: nat, L: int): (k: nat)
    requires L >= 1
    ensures (count + k) % L == 0 && k < L
  {
    if count % L == 0 then 0
    else
      ModUnique(count + (L - count % L), L, count / L + 1, 0);
      L - count % L
  }

  lemma SmallMultiple(L: int, d: int)
    requires L >= 1 && -L < L * d < L
    ensures d == 0
  {
  }

  /** Euclidean division is determined by its quotient-remainder equation. */
  lemma ModUnique(x: int, L: int, q: int, r: int)
    requires L >= 1 && x == L * q + r && 0 <= r < L
    ensures x % L == r && x / L == q
  {
    var q', r' := x / L, x % L;
    assert L * (q - q') == r' - r;
    SmallMultiple(L, q - q');
  }
}
