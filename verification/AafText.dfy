/** UTF-16 in little-endian bytes, as the text of AAF strings is stored. */
module AafText {
  import opened Basics
  import opened AafTypes

  function Zeros(n: nat): Bytes {
    seq(n, _ => 0)
  }

  /** A Unicode scalar value other than zero. */
  predicate IsScalar(c: nat) {
    0 < c < 0xd800 || 0xe000 <= c < 0x11_0000
  }

  predicate IsText(text: seq<nat>) {
    forall i :: 0 <= i < |text| ==> IsScalar(text[i])
  }

  function UnitBytes(unit: nat): Bytes
    requires unit < 0x1_0000
  {
    [unit % 256, unit / 256]
  }

  /** One unit, or a pair of surrogates above the first plane. */
  function ScalarBytes(c: nat): (r: Bytes)
    requires IsScalar(c)
    ensures |r| == if c < 0x1_0000 then 2 else 4
  {
    if c < 0x1_0000 then UnitBytes(c)
    else UnitBytes(0xd800 + (c - 0x1_0000) / 0x400) + UnitBytes(0xdc00 + (c - 0x1_0000) % 0x400)
  }

  function Utf16Bytes(text: seq<nat>): Bytes
    requires IsText(text)
  {
    if text == [] then [] else ScalarBytes(text[0]) + Utf16Bytes(text[1..])
  }

  /** The first scalar value of bytes that are judged to be text, and what follows. */
  lemma FirstScalar(data: Bytes) returns (c: nat)
    requires data != [] && |data| % 2 == 0 && Utf16Units(data)
    ensures IsScalar(c) && ScalarBytes(c) <= data && |data[|ScalarBytes(c)|..]| % 2 == 0
    ensures Utf16Units(data[|ScalarBytes(c)|..])
  {
    var unit := 256 * (data[1] as int) + data[0];
    if 0xd8 <= data[1] < 0xdc {
      var low := 256 * (data[3] as int) + data[2];
      c := PairOf(unit - 0xd800, low - 0xdc00);
      WrittenBack(data[0], data[1]);
      WrittenBack(data[2], data[3]);
      assert ScalarBytes(c) == data[..4];
    } else {
      c := unit;
      WrittenBack(data[0], data[1]);
      assert ScalarBytes(c) == data[..2];
    }
  }

  lemma WrittenBack(low: byte, high: byte)
    ensures UnitBytes(256 * (high as int) + low) == [low, high]
  {
  }

  lemma PairOf(high: nat, low: nat) returns (c: nat)
    requires high < 0x400 && low < 0x400
    ensures 0x1_0000 <= c < 0x11_0000
    ensures (c - 0x1_0000) / 0x400 == high && (c - 0x1_0000) % 0x400 == low
  {
    c := 0x1_0000 + high * 0x400 + low;
  }

  lemma {:induction false} ReadText(data: Bytes) returns (text: seq<nat>)
    requires |data| % 2 == 0 && Utf16Units(data)
    ensures IsText(text) && Utf16Bytes(text) == data
    decreases |data|
  {
    text := [];
    if data != [] {
      var c := FirstScalar(data);
      var n := |ScalarBytes(c)|;
      var rest := ReadText(data[n..]);
      text := [c] + rest;
      assert text[1..] == rest && data == data[..n] + data[n..];
    }
  }

  lemma NoText()
    ensures Utf16Units([])
  {
  }

  lemma ScalarThenRest(c: nat, rest: Bytes)
    requires IsScalar(c) && |rest| % 2 == 0
    ensures Utf16Units(ScalarBytes(c) + rest) <==> Utf16Units(rest)
  {
    var data := ScalarBytes(c) + rest;
    assert data[|ScalarBytes(c)|..] == rest;
  }

  lemma {:induction false} WrittenText(text: seq<nat>)
    requires IsText(text)
    ensures |Utf16Bytes(text)| % 2 == 0 && Utf16Units(Utf16Bytes(text))
  {
    hide Utf16Units, ScalarBytes;
    NoText();
    if text != [] {
      WrittenText(text[1..]);
      ScalarThenRest(text[0], Utf16Bytes(text[1..]));
    }
  }

  /** The units that pass are exactly the UTF-16 of a text without zeros. */
  lemma TextIff(data: Bytes)
    requires |data| % 2 == 0
    ensures Utf16Units(data) <==> exists text :: IsText(text) && Utf16Bytes(text) == data
  {
    if Utf16Units(data) {
      var text := ReadText(data);
    }
    if text :| IsText(text) && Utf16Bytes(text) == data {
      WrittenText(text);
    }
  }
}
