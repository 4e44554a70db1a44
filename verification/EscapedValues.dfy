/** Variable-length integers: the three-stage escaped value of USAC, the 255-continued LATM
    payload length and the byte-counted LATM value. Each reader inverts its writer, and
    whatever it accepts is what the writer would have written. */
module EscapedValues {
  import opened Wrappers
  import opened BitSyntax

  const U64_LIMIT := 0x1_0000_0000_0000_0000

  function AllOnes(width: nat): nat {
    Pow2(width) - 1
  }

  // ---------- three-stage escaped value

  function ReadEscape(bits: Bits, first: nat, second: nat, third: nat): Result<(nat, Bits), BitError> {
    var (value, rest) :- Read(bits, first);
    if value != AllOnes(first) then Ok((value, rest)) else ReadContinued(rest, value, second, third)
  }

  function ReadContinued(bits: Bits, value: nat, second: nat, third: nat): Result<(nat, Bits), BitError> {
    var (more, rest) :- Read(bits, second);
    if value + more >= U64_LIMIT then Err(TooLarge)
    else if more != AllOnes(second) || third == 0 then Ok((value + more, rest))
    else
      var (last, tail) :- Read(rest, third);
      if value + more + last >= U64_LIMIT then Err(TooLarge) else Ok((value + more + last, tail))
  }

  function Min(a: nat, b: nat): nat {
    if a < b then a else b
  }

  /** The test suite's writer: a stage of all ones is continued by the next stage, if any. */
  function WriteEscape(value: nat, first: nat, second: nat, third: nat): Bits {
    FromNat(Min(value, AllOnes(first)), first)
    + if value < AllOnes(first) then [] else WriteContinued(value - AllOnes(first), second, third)
  }

  function WriteContinued(value: nat, second: nat, third: nat): Bits {
    FromNat(Min(value, AllOnes(second)), second)
    + if value < AllOnes(second) || third == 0 then []
      else FromNat(Min(value - AllOnes(second), AllOnes(third)), third)
  }

  predicate Widths(first: nat, second: nat, third: nat) {
    0 < first < 64 && 0 < second < 64 && third < 64
  }

  predicate Representable(value: nat, first: nat, second: nat, third: nat) {
    value < U64_LIMIT && value <= AllOnes(first) + AllOnes(second) + AllOnes(third)
  }

  /** Every representable value is read back, whatever follows it. */
  lemma EscapeRoundTrip(value: nat, first: nat, second: nat, third: nat, rest: Bits)
    requires Widths(first, second, third) && Representable(value, first, second, third)
    ensures ReadEscape(WriteEscape(value, first, second, third) + rest, first, second, third) == Ok((value, rest))
  {
    var ones := AllOnes(first);
    if value < ones {
      assert WriteEscape(value, first, second, third) == FromNat(value, first);
      ReadWritten(value, first, rest);
    } else {
      var tail := WriteContinued(value - ones, second, third) + rest;
      assert WriteEscape(value, first, second, third) + rest == FromNat(ones, first) + tail;
      ReadWritten(ones, first, tail);
      ContinuedRoundTrip(value - ones, ones, second, third, rest);
    }
  }

  lemma ContinuedRoundTrip(value: nat, before: nat, second: nat, third: nat, rest: Bits)
    requires second < 64 && third < 64
    requires before + value < U64_LIMIT && value <= AllOnes(second) + AllOnes(third)
    ensures ReadContinued(WriteContinued(value, second, third) + rest, before, second, third)
            == Ok((before + value, rest))
  {
    hide ToNat, FromNat;
    var ones := AllOnes(second);
    if value < ones || third == 0 {
      assert Pow2(0) == 1;
      assert WriteContinued(value, second, third) == FromNat(value, second);
      ReadWritten(value, second, rest);
    } else {
      var tail := FromNat(value - ones, third) + rest;
      assert WriteContinued(value, second, third) + rest == FromNat(ones, second) + tail;
      ReadWritten(ones, second, tail);
      ReadWritten(value - ones, third, rest);
    }
  }

  /** No other bit string is read as this value: the consumed bits are the writer's. */
  lemma EscapeCanonical(bits: Bits, first: nat, second: nat, third: nat)
    requires Widths(first, second, third) && ReadEscape(bits, first, second, third).Ok?
    ensures var (value, rest) := ReadEscape(bits, first, second, third).value;
            Representable(value, first, second, third)
            && bits == WriteEscape(value, first, second, third) + rest
  {
    WrittenRead(bits, first);
    Pow2Fits(first);
    var (head, after) := Read(bits, first).value;
    if head == AllOnes(first) {
      ContinuedCanonical(after, head, second, third);
    }
  }

  lemma ContinuedCanonical(bits: Bits, before: nat, second: nat, third: nat)
    requires ReadContinued(bits, before, second, third).Ok?
    ensures var (value, rest) := ReadContinued(bits, before, second, third).value;
            before <= value < U64_LIMIT && value - before <= AllOnes(second) + AllOnes(third)
            && bits == WriteContinued(value - before, second, third) + rest
  {
    hide ToNat, FromNat;
    WrittenRead(bits, second);
    var (more, tail) := Read(bits, second).value;
    if more == AllOnes(second) && third > 0 {
      WrittenRead(tail, third);
    }
  }

  lemma Pow2Of32()
    ensures Pow2(32) == 0x1_0000_0000
  {
    assert Pow2(8) == 0x100;
    Pow2Sum(8, 8);
    Pow2Sum(16, 16);
  }

  lemma Doubled(n: nat)
    ensures Pow2(n + 1) == 2 * Pow2(n)
  {
  }

  lemma Pow2Fits(n: nat)
    requires n < 64
    ensures Pow2(n) < U64_LIMIT
  {
    Pow2Of32();
    hide Pow2;
    Pow2Sum(32, 32);
    Pow2Monotone(n, 63);
    Doubled(63);
  }

  /** The code is prefix-free: two writings that agree as far as they go write the same value. */
  lemma EscapePrefixFree(a: nat, b: nat, first: nat, second: nat, third: nat, restA: Bits, restB: Bits)
    requires Widths(first, second, third)
    requires Representable(a, first, second, third) && Representable(b, first, second, third)
    requires WriteEscape(a, first, second, third) + restA == WriteEscape(b, first, second, third) + restB
    ensures a == b && restA == restB
  {
    EscapeRoundTrip(a, first, second, third, restA);
    EscapeRoundTrip(b, first, second, third, restB);
  }

  method ReadEscapeValue(reader: BitReader, first: nat, second: nat, third: nat) returns (r: Result<nat, BitError>)
    requires reader.Valid()
    modifies reader
    ensures reader.Valid() && Agrees(r, reader.Left(), ReadEscape(old(reader.Left()), first, second, third))
  {
    hide Read, AllOnes;
    var value :- reader.ReadBits(first);
    if value == AllOnes(first) {
      var more :- reader.ReadBits(second);
      if value + more >= U64_LIMIT {
        return Err(TooLarge);
      }
      value := value + more;
      if more == AllOnes(second) && third > 0 {
        var last :- reader.ReadBits(third);
        if value + last >= U64_LIMIT {
          return Err(TooLarge);
        }
        value := value + last;
      }
    }
    r := Ok(value);
  }

  // ---------- 255-continued length

  function ReadLength(bits: Bits): Result<(nat, Bits), BitError>
    decreases |bits|
  {
    var (part, rest) :- Read(bits, 8);
    if part != 255 then Ok((part, rest))
    else
      var (more, tail) :- ReadLength(rest);
      Ok((255 + more, tail))
  }

  function WriteLength(length: nat): Bits {
    if length < 255 then FromNat(length, 8) else FromNat(255, 8) + WriteLength(length - 255)
  }

  lemma ByteRead(value: nat, rest: Bits)
    requires value < 256
    ensures Read(FromNat(value, 8) + rest, 8) == Ok((value, rest))
  {
    assert Pow2(8) == 256;
    ReadWritten(value, 8, rest);
  }

  lemma {:induction false} LengthRoundTrip(length: nat, rest: Bits)
    ensures ReadLength(WriteLength(length) + rest) == Ok((length, rest))
    decreases length
  {
    if length < 255 {
      ByteRead(length, rest);
    } else {
      var tail := WriteLength(length - 255) + rest;
      LengthRoundTrip(length - 255, rest);
      assert WriteLength(length) + rest == FromNat(255, 8) + tail;
      ByteRead(255, tail);
    }
  }

  lemma {:induction false} LengthCanonical(bits: Bits)
    requires ReadLength(bits).Ok?
    ensures var (length, rest) := ReadLength(bits).value; bits == WriteLength(length) + rest
    decreases |bits|
  {
    assert Pow2(8) == 256;
    hide FromNat, ToNat, Pow2;
    WrittenRead(bits, 8);
    var (part, after) := Read(bits, 8).value;
    if part == 255 {
      LengthCanonical(after);
      var (more, rest) := ReadLength(after).value;
      assert FromNat(255, 8) + (WriteLength(more) + rest) == FromNat(255, 8) + WriteLength(more) + rest;
    }
  }

  function Copies(n: nat): Bits {
    if n == 0 then [] else FromNat(255, 8) + Copies(n - 1)
  }

  /** The writing is n/255 bytes of 255 and one byte n%255. */
  lemma {:induction false} LengthShape(length: nat)
    ensures WriteLength(length) == Copies(length / 255) + FromNat(length % 255, 8)
    ensures |WriteLength(length)| == 8 * (length / 255 + 1)
  {
    hide FromNat;
    if length < 255 {
      assert length / 255 == 0 && length % 255 == length;
      assert Copies(0) + FromNat(length, 8) == FromNat(length, 8);
    } else {
      LengthShape(length - 255);
      assert length / 255 == (length - 255) / 255 + 1 && length % 255 == (length - 255) % 255;
      var byte, rest := FromNat(255, 8), FromNat(length % 255, 8);
      assert byte + (Copies(length / 255 - 1) + rest) == byte + Copies(length / 255 - 1) + rest;
    }
  }

  method ReadPayloadLength(reader: BitReader) returns (r: Result<nat, BitError>)
    requires reader.Valid()
    modifies reader
    ensures reader.Valid() && Agrees(r, reader.Left(), ReadLength(old(reader.Left())))
  {
    var length := 0;
    ghost var all := reader.Left();
    while true
      invariant reader.Valid()
      invariant ReadLength(all) == match ReadLength(reader.Left())
                                   case Ok(pair) => Ok((length + pair.0, pair.1))
                                   case Err(e) => Err(e)
      decreases |reader.Left()|
    {
      var part :- reader.ReadBits(8);
      length := length + part;
      if part != 255 {
        return Ok(length);
      }
    }
  }

  // ---------- byte-counted value

  function ReadValue(bits: Bits): Result<(nat, Bits), BitError> {
    var (count, rest) :- Read(bits, 2);
    if |rest| < 8 * (count + 1) then Err(Truncated)
    else Ok((ToNat(rest[..8 * (count + 1)]), rest[8 * (count + 1)..]))
  }

  function WriteValue(value: nat, bytes: nat): Bits
    requires 1 <= bytes <= 4
  {
    FromNat(bytes - 1, 2) + FromNat(value, 8 * bytes)
  }

  lemma ValueRoundTrip(value: nat, bytes: nat, rest: Bits)
    requires 1 <= bytes <= 4 && value < Pow2(8 * bytes)
    ensures ReadValue(WriteValue(value, bytes) + rest) == Ok((value, rest))
  {
    assert Pow2(2) == 4;
    var after := FromNat(value, 8 * bytes) + rest;
    assert WriteValue(value, bytes) + rest == FromNat(bytes - 1, 2) + after;
    ReadWritten(bytes - 1, 2, after);
    ToNatFromNat(value, 8 * bytes);
    assert after[..8 * bytes] == FromNat(value, 8 * bytes) && after[8 * bytes..] == rest;
  }

  lemma TwiceProduct(l: nat, p: nat)
    ensures 2 * (l * p) == l * (2 * p)
  {
  }

  lemma ToNatSnoc(bits: Bits, bit: bool)
    ensures ToNat(bits + [bit]) == 2 * ToNat(bits) + (if bit then 1 else 0)
  {
    assert (bits + [bit])[..|bits|] == bits;
  }

  lemma {:induction false} ToNatAppend(left: Bits, right: Bits)
    ensures ToNat(left + right) == ToNat(left) * Pow2(|right|) + ToNat(right)
  {
    if right == [] {
      assert left + right == left && Pow2(0) == 1 && ToNat(right) == 0;
    } else {
      hide ToNat, Pow2;
      var front, bit := right[..|right| - 1], right[|right| - 1];
      assert right == front + [bit] && left + right == (left + front) + [bit];
      ToNatAppend(left, front);
      ToNatSnoc(front, bit);
      ToNatSnoc(left + front, bit);
      TwiceProduct(ToNat(left), Pow2(|front|));
      Doubled(|front|);
    }
  }

  lemma NoBits()
    ensures ToNat([]) == 0 && Pow2(8) == 256
  {
  }

  method LatmGetValue(reader: BitReader) returns (r: Result<nat, BitError>)
    requires reader.Valid()
    modifies reader
    ensures reader.Valid() && Agrees(r, reader.Left(), ReadValue(old(reader.Left())))
  {
    hide ToNat;
    NoBits();
    var count :- reader.ReadBits(2);
    var value := 0;
    ghost var all := reader.Left();
    for i := 0 to count + 1
      invariant reader.Valid() && 8 * i <= |all| && reader.Left() == all[8 * i..]
      invariant value == ToNat(all[..8 * i])
    {
      var part :- reader.ReadBits(8);
      ToNatAppend(all[..8 * i], all[8 * i..][..8]);
      assert all[..8 * i] + all[8 * i..][..8] == all[..8 * (i + 1)];
      value := value * 256 + part;
    }
    r := Ok(value);
  }
}
