/** Bit strings, most significant bit first, and the bounded reader over bytes. */
module BitSyntax {
  import opened Wrappers
  import opened Basics

  const MAX_AAC_FRAMES: nat := 10_000_000

  type Bits = seq<bool>

  datatype BitError = Truncated | Reserved | Unsupported | TrailingBits | NoConfig | TooManyStreams | TooLarge

  function Pow2(n: nat): (r: nat)
    ensures r > 0
  {
    if n == 0 then 1 else 2 * Pow2(n - 1)
  }

  lemma {:induction false} Pow2Sum(a: nat, b: nat)
    ensures Pow2(a + b) == Pow2(a) * Pow2(b)
  {
    if b == 0 {
      assert Pow2(0) == 1;
    } else {
      Pow2Sum(a, b - 1);
      var p, q := Pow2(a), Pow2(b - 1);
      assert Pow2(a + b) == 2 * (p * q) == p * (2 * q);
    }
  }

  lemma {:induction false} Pow2Monotone(a: nat, b: nat)
    requires a <= b
    ensures Pow2(a) <= Pow2(b)
    decreases b
  {
    if a < b {
      Pow2Monotone(a, b - 1);
    }
  }

  function ToNat(bits: Bits): nat {
    if bits == [] then 0
    else 2 * ToNat(bits[..|bits| - 1]) + (if bits[|bits| - 1] then 1 else 0)
  }

  /** The low `count` bits of `value`. */
  function FromNat(value: nat, count: nat): (r: Bits)
    ensures |r| == count
  {
    if count == 0 then [] else FromNat(value / 2, count - 1) + [value % 2 == 1]
  }

  lemma {:induction false} ToNatFromNat(value: nat, count: nat)
    requires value < Pow2(count)
    ensures ToNat(FromNat(value, count)) == value
  {
    if count > 0 {
      ToNatFromNat(value / 2, count - 1);
      assert FromNat(value, count)[..count - 1] == FromNat(value / 2, count - 1);
    }
  }

  lemma {:induction false} FromNatToNat(bits: Bits)
    ensures ToNat(bits) < Pow2(|bits|) && FromNat(ToNat(bits), |bits|) == bits
  {
    if bits != [] {
      FromNatToNat(bits[..|bits| - 1]);
    }
  }

  // ---------- bytes as bits

  function ByteBits(b: byte): Bits {
    FromNat(b, 8)
  }

  function BitsOf(data: seq<byte>): (r: Bits)
    ensures |r| == 8 * |data|
  {
    if data == [] then [] else ByteBits(data[0]) + BitsOf(data[1..])
  }

  /** The test suite's writer: whole bytes, the last one filled up with zero bits. */
  function Pack(bits: Bits): seq<byte> {
    if bits == [] then []
    else if |bits| < 8 then [ByteOf(bits + Zeros(8 - |bits|))]
    else [ByteOf(bits[..8])] + Pack(bits[8..])
  }

  function ByteOf(bits: Bits): (r: byte)
    requires |bits| == 8
    ensures ByteBits(r) == bits
  {
    FromNatToNat(bits);
    assert Pow2(8) == 256;
    ToNat(bits)
  }

  function Zeros(n: nat): Bits {
    seq(n, _ => false)
  }

  predicate AllFalse(bits: Bits) {
    forall i :: 0 <= i < |bits| ==> !bits[i]
  }

  function PadLength(bits: Bits): nat {
    (8 - |bits| % 8) % 8
  }

  lemma {:induction false} PackPads(bits: Bits)
    ensures BitsOf(Pack(bits)) == bits + Zeros(PadLength(bits))
  {
    if |bits| < 8 {
      PackShort(bits);
    } else {
      hide Pack, BitsOf, Zeros, PadLength;
      PackPads(bits[8..]);
      PackLong(bits);
      var pad := Zeros(PadLength(bits[8..]));
      assert bits + pad == bits[..8] + (bits[8..] + pad);
    }
  }

  lemma PackShort(bits: Bits)
    requires |bits| < 8
    ensures BitsOf(Pack(bits)) == bits + Zeros(PadLength(bits))
  {
    hide ByteOf, ByteBits, BitsOf, PadLength;
    if bits == [] {
      NoBytes();
    } else {
      PadMeans(bits);
      OneByte(ByteOf(bits + Zeros(8 - |bits|)));
    }
  }

  lemma PackLong(bits: Bits)
    requires |bits| >= 8
    ensures BitsOf(Pack(bits)) == bits[..8] + BitsOf(Pack(bits[8..])) && PadLength(bits) == PadLength(bits[8..])
  {
    hide ByteOf, ByteBits, BitsOf, PadLength;
    PadMeans(bits);
    FrontByte(ByteOf(bits[..8]), Pack(bits[8..]));
  }

  lemma PadMeans(bits: Bits)
    ensures 0 < |bits| < 8 ==> PadLength(bits) == 8 - |bits|
    ensures |bits| >= 8 ==> PadLength(bits) == PadLength(bits[8..])
  {
    if |bits| >= 8 {
      EightLess(|bits|);
    }
  }

  lemma EightLess(n: nat)
    requires n >= 8
    ensures (n - 8) % 8 == n % 8
  {
  }

  lemma NoBytes()
    ensures BitsOf([]) == [] && [] + Zeros(PadLength([])) == []
  {
  }

  lemma OneByte(b: byte)
    ensures BitsOf([b]) == ByteBits(b)
  {
    hide ByteBits;
    assert [b][1..] == [];
  }

  lemma FrontByte(b: byte, rest: seq<byte>)
    ensures BitsOf([b] + rest) == ByteBits(b) + BitsOf(rest)
  {
    hide ByteBits;
    assert ([b] + rest)[1..] == rest;
  }

  /** Bit `i` of the data is a bit of byte i/8, counted from its top. */
  lemma {:induction false} BitOfByte(data: seq<byte>, i: nat)
    requires i < 8 * |data|
    ensures BitsOf(data)[i] == (data[i / 8] / Pow2(7 - i % 8) % 2 == 1)
  {
    if i < 8 {
      BitOfNat(data[0], 8, i);
    } else {
      BitOfByte(data[1..], i - 8);
      assert (i - 8) / 8 == i / 8 - 1 && (i - 8) % 8 == i % 8;
    }
  }

  lemma {:induction false} BitOfNat(value: nat, count: nat, k: nat)
    requires k < count
    ensures FromNat(value, count)[k] == (value / Pow2(count - 1 - k) % 2 == 1)
  {
    if k == count - 1 {
      assert Pow2(0) == 1;
    } else {
      BitOfNat(value / 2, count - 1, k);
      DivTwice(value, Pow2(count - 2 - k));
    }
  }

  lemma DivTwice(value: nat, d: nat)
    requires d > 0
    ensures value / 2 / d == value / (2 * d)
  {
    var q, r := value / (2 * d), value % (2 * d);
    assert value == 2 * (d * q) + r;
    assert value / 2 == d * q + r / 2;
    assert 0 <= r / 2 < d;
    DivUnique(value / 2, d, q, r / 2);
  }

  lemma DivUnique(x: nat, d: nat, q: nat, r: nat)
    requires d > 0 && x == d * q + r && r < d
    ensures x / d == q
  {
    var p := x / d;
    if p < q {
      Multiples(d, p, q);
    } else if q < p {
      Multiples(d, q, p);
    }
  }

  lemma Multiples(d: nat, low: nat, high: nat)
    requires low < high
    ensures d * low + d <= d * high
  {
    OneMore(low, d);
    ProductOrdered(low + 1, high, d);
  }

  // ---------- reading

  /** Reading `count` bits gives their value and what is left. */
  function Read(bits: Bits, count: nat): Result<(nat, Bits), BitError> {
    if count > 64 || |bits| < count then Err(Truncated) else Ok((ToNat(bits[..count]), bits[count..]))
  }

  function ReadFlag(bits: Bits): Result<(bool, Bits), BitError> {
    if bits == [] then Err(Truncated) else Ok((bits[0], bits[1..]))
  }

  function Skip(bits: Bits, count: nat): Result<Bits, BitError> {
    if |bits| < count then Err(Truncated) else Ok(bits[count..])
  }

  lemma ReadWritten(value: nat, count: nat, rest: Bits)
    requires count <= 64 && value < Pow2(count)
    ensures Read(FromNat(value, count) + rest, count) == Ok((value, rest))
  {
    ToNatFromNat(value, count);
    var bits := FromNat(value, count) + rest;
    assert bits[..count] == FromNat(value, count) && bits[count..] == rest;
  }

  /** What was read is what a writer of that width would write. */
  lemma WrittenRead(bits: Bits, count: nat)
    requires Read(bits, count).Ok?
    ensures var (value, rest) := Read(bits, count).value;
            value < Pow2(count) && bits == FromNat(value, count) + rest
  {
    FromNatToNat(bits[..count]);
  }

  lemma SkipWritten(skipped: Bits, rest: Bits)
    ensures Skip(skipped + rest, |skipped|) == Ok(rest)
  {
    assert (skipped + rest)[|skipped|..] == rest;
  }

  /** The outcome of a reader method against the reading function. */
  predicate Agrees<T(==)>(got: Result<T, BitError>, left: Bits, expected: Result<(T, Bits), BitError>) {
    if expected.Ok? then got == Ok(expected.value.0) && left == expected.value.1
    else got == Err(expected.error)
  }

  class BitReader {
    const data: seq<byte>
    const end: nat
    var position: nat

    ghost predicate Valid()
      reads this
    {
      position <= end <= 8 * |data|
    }

    ghost function Left(): Bits
      reads this
      requires Valid()
    {
      BitsOf(data)[position..end]
    }

    constructor (data: seq<byte>)
      ensures Valid() && Left() == BitsOf(data)
    {
      this.data := data;
      end := 8 * |data|;
      position := 0;
    }

    constructor Within(data: seq<byte>, position: nat, end: nat)
      requires position <= end <= 8 * |data|
      ensures Valid() && Left() == BitsOf(data)[position..end]
    {
      this.data := data;
      this.end := end;
      this.position := position;
    }

    function Remaining(): (n: nat)
      reads this
      requires Valid()
      ensures n == |Left()|
    {
      end - position
    }

    method ReadBits(count: nat) returns (r: Result<nat, BitError>)
      requires Valid()
      modifies this
      ensures Valid() && Agrees(r, Left(), Read(old(Left()), count))
      ensures r.Err? ==> Left() == old(Left())
    {
      if count > 64 || Remaining() < count {
        return Err(Truncated);
      }
      ghost var before := Left();
      ghost var start := position;
      var value := 0;
      for i := 0 to count
        invariant Valid() && position == start + i
        invariant value == ToNat(before[..i])
      {
        var bit := data[position / 8] / Pow2(7 - position % 8) % 2;
        BitOfByte(data, position);
        assert before[i] == BitsOf(data)[position];
        assert before[..i + 1][..i] == before[..i];
        value := 2 * value + bit;
        position := position + 1;
      }
      assert Left() == before[count..];
      r := Ok(value);
    }

    method Bit() returns (r: Result<bool, BitError>)
      requires Valid()
      modifies this
      ensures Valid() && Agrees(r, Left(), ReadFlag(old(Left())))
      ensures r.Err? ==> Left() == old(Left())
    {
      ghost var before := Left();
      var value :- ReadBits(1);
      assert before[..1] == [before[0]];
      assert before[..1][..0] == [];
      assert ToNat(before[..1]) == if before[0] then 1 else 0;
      r := Ok(value != 0);
    }

    method SkipBits(count: nat) returns (r: Result<(), BitError>)
      requires Valid()
      modifies this
      ensures Valid()
      ensures r.Ok? <==> Skip(old(Left()), count).Ok?
      ensures r.Ok? ==> Left() == Skip(old(Left()), count).value
      ensures r.Err? ==> r.error == Truncated && Left() == old(Left())
    {
      if Remaining() < count {
        return Err(Truncated);
      }
      position := position + count;
      r := Ok(());
    }

    /** A reader bounded to the next `count` bits, which this one passes over. */
    method SubReader(count: nat) returns (r: Result<BitReader, BitError>)
      requires Valid()
      modifies this
      ensures Valid()
      ensures r.Ok? <==> count <= |old(Left())|
      ensures r.Ok? ==> fresh(r.value) && r.value.Valid() && r.value.Left() == old(Left())[..count]
      ensures r.Ok? ==> Left() == old(Left())[count..]
      ensures r.Err? ==> r.error == Truncated && Left() == old(Left())
    {
      if Remaining() < count {
        return Err(Truncated);
      }
      var start := position;
      position := position + count;
      var part := new BitReader.Within(data, start, start + count);
      r := Ok(part);
    }

    method RemainingBitsAreZero() returns (zero: bool)
      requires Valid()
      ensures zero <==> AllFalse(Left())
    {
      var copy := new BitReader.Within(data, position, end);
      ghost var all := Left();
      ghost var done := 0;
      while copy.Remaining() > 0
        invariant fresh(copy) && copy.Valid() && done <= |all| && copy.Left() == all[done..]
        invariant AllFalse(all[..done])
        decreases copy.Remaining()
      {
        var bit := copy.Bit();
        if bit.value {
          assert all[done];
          return false;
        }
        done := done + 1;
      }
      assert all[..done] == all;
      return true;
    }
  }
}
