// util/bitmap.cpp: a bit-packed map, most significant bit of each byte first.
module Bitmap {

  function BitMask(bitIndex: nat): bv8
    requires bitIndex < 8
  {
    (0x80 as bv8) >> bitIndex
  }

  predicate BitAt(bytes: seq<bv8>, index: nat)
    requires index < 8 * |bytes|
  {
    bytes[index / 8] & BitMask(index % 8) != 0
  }

  lemma MasksAreDisjoint(i: nat, j: nat)
    requires i < 8 && j < 8
    ensures BitMask(i) != 0
    ensures i != j ==> BitMask(i) & BitMask(j) == 0
  {
  }

  function Assigned(b: bv8, mask: bv8, value: bool): bv8 {
    var cleared := b & !mask;
    if value then cleared | mask else cleared
  }

  lemma AssignedKeepsOthers(b: bv8, mask: bv8, other: bv8, value: bool)
    requires mask & other == 0
    ensures Assigned(b, mask, value) & other == b & other
  {
  }

  lemma AssignedTakesValue(b: bv8, mask: bv8, value: bool)
    requires mask != 0
    ensures (Assigned(b, mask, value) & mask != 0) == value
  {
  }

  // Rewriting one byte under the mask of one bit changes that bit and no other.
  lemma AssignedBits(bytes: seq<bv8>, index: nat, value: bool, i: nat)
    requires index < 8 * |bytes| && i < 8 * |bytes|
    ensures BitAt(bytes[index / 8 := Assigned(bytes[index / 8], BitMask(index % 8), value)], i)
         == if i == index then value else BitAt(bytes, i)
  {
    MasksAreDisjoint(index % 8, i % 8);
    if i / 8 == index / 8 {
      if i == index {
        AssignedTakesValue(bytes[index / 8], BitMask(index % 8), value);
      } else {
        AssignedKeepsOthers(bytes[index / 8], BitMask(index % 8), BitMask(i % 8), value);
      }
    }
  }

  // The packed bytes say what the booleans say. (Only bits of the bytes trigger the quantifier.)
  ghost predicate Packs(bytes: seq<bv8>, bits: seq<bool>) {
    && |bits| == 8 * |bytes|
    && forall i: nat {:trigger BitAt(bytes, i)} :: i < |bits| ==> BitAt(bytes, i) == bits[i]
  }

  // The first of eight bits is the most significant one of its byte.
  lemma MostSignificantFirst(bytes: seq<bv8>, index: nat)
    requires index < 8 * |bytes|
    ensures var b := bytes[index / 8];
      && (index % 8 == 0 ==> (BitAt(bytes, index) <==> b >= 128))
      && (index % 8 == 1 ==> (BitAt(bytes, index) <==> b & 64 == 64))
      && (index % 8 == 2 ==> (BitAt(bytes, index) <==> b & 32 == 32))
      && (index % 8 == 3 ==> (BitAt(bytes, index) <==> b & 16 == 16))
      && (index % 8 == 4 ==> (BitAt(bytes, index) <==> b & 8 == 8))
      && (index % 8 == 5 ==> (BitAt(bytes, index) <==> b & 4 == 4))
      && (index % 8 == 6 ==> (BitAt(bytes, index) <==> b & 2 == 2))
      && (index % 8 == 7 ==> (BitAt(bytes, index) <==> b & 1 == 1))
  {
  }

  class PackedBitmap {
    ghost var bits: seq<bool>
    var size: nat
    var buffer: array<bv8>

    constructor ()
      ensures Valid() && size == 0 && bits == [] && fresh(buffer)
    {
      size, bits := 0, [];
      buffer := new bv8[0];
    }

    // `bits` is what the packed bytes of the buffer say.
    ghost predicate Valid()
      reads this, buffer
    {
      buffer.Length == size && Packs(buffer[..], bits)
    }

    method Get(index: nat) returns (value: bool)
      requires Valid() && index < |bits|
      ensures value == bits[index]
    {
      var byteIndex := index / 8;
      var bitIndexer := BitMask(index % 8);
      value := buffer[byteIndex] & bitIndexer != 0;
      assert value == BitAt(buffer[..], index);
    }

    method Set(index: nat, value: bool)
      requires Valid() && index < |bits|
      modifies this`bits, buffer
      ensures Valid() && bits == old(bits)[index := value]
    {
      var byteIndex := index / 8;
      var bitIndexer := BitMask(index % 8);
      ghost var before := buffer[..];
      StoreBit(byteIndex, bitIndexer, value);
      forall i: nat | i < |bits|
        ensures BitAt(buffer[..], i) == bits[index := value][i]
      {
        AssignedBits(before, index, value, i);
      }
      bits := bits[index := value];
    }

    // The two read-modify-write statements of `set`.
    method StoreBit(byteIndex: nat, bitIndexer: bv8, value: bool)
      requires byteIndex < buffer.Length
      modifies buffer
      ensures buffer[..] == old(buffer[..])[byteIndex := Assigned(old(buffer[byteIndex]), bitIndexer, value)]
    {
      buffer[byteIndex] := buffer[byteIndex] & !bitIndexer;
      if value {
        buffer[byteIndex] := buffer[byteIndex] | bitIndexer;
      }
    }
  }
}
