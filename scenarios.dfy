/**
 * Concrete byte strings for small values: what the encoder writes for a
 * string, a `uint8`, the `int` -1, an `int32` slice, a one-pair map and a struct with an
 * unexported field, and what the decoder makes of some of them.
 */
module Scenarios {
  import opened Wire
  import opened Shapes
  import opened Codec
  import opened Layout
  import opened Inverse

  /** `"ab"` is the length 2 in eight bytes, then the two bytes. */
  lemma StringAb()
    ensures Frame(TString, Str([0x61, 0x62])) == [2, 0, 0, 0, 0, 0, 0, 0, 0x61, 0x62]
  {
  }

  /** `uint8(5)` is eight bytes. */
  lemma Uint8Five()
    ensures Frame(TUint(W8), Uint(5)) == [5, 0, 0, 0, 0, 0, 0, 0]
  {
  }

  /** Reading those eight bytes into a settable `uint8` gives 5. */
  lemma Uint8FiveDecodes()
    ensures Parse([5, 0, 0, 0, 0, 0, 0, 0], 0, TUint(W8), Uint(0), true) == Done(Uint(5), 8)
  {
    var d: seq<byte> := [5, 0, 0, 0, 0, 0, 0, 0];
    Uint8Five();
    U64RoundTrip(5);
    assert d[0..8] == d;
  }

  /** The `int` -1 is its 64-bit two's complement: eight bytes of all ones. */
  lemma MinusOne()
    ensures Frame(TInt(W64), Int(-1)) == [0xFF, 0xFF, 0xFF, 0xFF, 0xFF, 0xFF, 0xFF, 0xFF]
  {
    assert Frame(TInt(W64), Int(-1)) == U64(0xFFFF_FFFF_FFFF_FFFF);
    AllOnes();
  }

  /** 2^64 - 1 in little-endian order, one byte at a time. */
  lemma AllOnes()
    ensures U64(0xFFFF_FFFF_FFFF_FFFF) == [0xFF, 0xFF, 0xFF, 0xFF, 0xFF, 0xFF, 0xFF, 0xFF]
  {
    assert ToLE(0xFF, 1) == [0xFF];
    assert ToLE(0xFFFF, 2) == [0xFF] + ToLE(0xFF, 1);
    assert ToLE(0xFF_FFFF, 3) == [0xFF] + ToLE(0xFFFF, 2);
    assert ToLE(0xFFFF_FFFF, 4) == [0xFF] + ToLE(0xFF_FFFF, 3);
    assert ToLE(0xFF_FFFF_FFFF, 5) == [0xFF] + ToLE(0xFFFF_FFFF, 4);
    assert ToLE(0xFFFF_FFFF_FFFF, 6) == [0xFF] + ToLE(0xFF_FFFF_FFFF, 5);
    assert ToLE(0xFF_FFFF_FFFF_FFFF, 7) == [0xFF] + ToLE(0xFFFF_FFFF_FFFF, 6);
    assert ToLE(0xFFFF_FFFF_FFFF_FFFF, 8) == [0xFF] + ToLE(0xFF_FFFF_FFFF_FFFF, 7);
  }

  /**
   * An empty slice and a nil slice both encode as the count 0. Decoding that
   * count leaves a nil target nil and an empty non-nil target non-nil, so an
   * empty non-nil slice decoded into a fresh target comes back nil.
   */
  lemma EmptySlice(et: Type)
    requires Encodable(et)
    ensures Frame(TSlice(et), Slice(false, [])) == Frame(TSlice(et), Slice(true, [])) == U64(0)
    ensures Parse(U64(0), 0, TPointer(TSlice(et)), PointerTo(Slice(true, [])), false)
         == Done(PointerTo(Slice(true, [])), 8)
    ensures Parse(U64(0), 0, TPointer(TSlice(et)), PointerTo(Slice(false, [])), false)
         == Done(PointerTo(Slice(false, [])), 8)
  {
    var e := Slice(false, []);
    assert Frame(TSlice(et), e) + [] == U64(0);
    DecodeInto(TSlice(et), Slice(true, []), e, []);
    DecodeInto(TSlice(et), e, e, []);
  }

  /** `[]int32{1, -1, 1000}`: the count 3, then each element as eight bytes, -1 as all ones. */
  lemma Int32Slice()
    ensures Frame(TSlice(TInt(W32)), Slice(false, [Int(1), Int(-1), Int(1000)]))
         == [3, 0, 0, 0, 0, 0, 0, 0]
          + [1, 0, 0, 0, 0, 0, 0, 0]
          + [0xFF, 0xFF, 0xFF, 0xFF, 0xFF, 0xFF, 0xFF, 0xFF]
          + [0xE8, 0x03, 0, 0, 0, 0, 0, 0]
  {
    var et, vs := TInt(W32), [Int(1), Int(-1), Int(1000)];
    SliceOfThree(et, vs);
    Int32Frames();
  }

  /** A three-element slice: its count, then its elements one after the other. */
  lemma SliceOfThree(et: Type, vs: seq<Value>)
    requires |vs| == 3 && EncodableValue(TSlice(et), Slice(false, vs))
    ensures Frame(TSlice(et), Slice(false, vs)) == U64(3) + Frame(et, vs[0]) + Frame(et, vs[1]) + Frame(et, vs[2])
  {
    var x, y, z := Frame(et, vs[0]), Frame(et, vs[1]), Frame(et, vs[2]);
    ListOfThree(et, vs);
    var l := ListFrame(et, vs, 0);
    assert l == x + y + z;
    assert Frame(TSlice(et), Slice(false, vs)) == U64(3) + l;
    assert U64(3) + (x + y + z) == U64(3) + x + y + z;
  }

  /** The elements of a three-element list, one after the other. */
  lemma ListOfThree(et: Type, vs: seq<Value>)
    requires |vs| == 3 && HasType(Array(vs), TArray(3, et)) && Encodable(et)
    ensures ListFrame(et, vs, 0) == Frame(et, vs[0]) + Frame(et, vs[1]) + Frame(et, vs[2])
  {
    var x, y, z := Frame(et, vs[0]), Frame(et, vs[1]), Frame(et, vs[2]);
    assert ListFrame(et, vs, 2) == z;
    assert ListFrame(et, vs, 1) == y + z;
    assert ListFrame(et, vs, 0) == x + (y + z);
  }

  /** The three elements of that slice and its count. */
  lemma Int32Frames()
    ensures U64(3) == [3, 0, 0, 0, 0, 0, 0, 0]
    ensures Frame(TInt(W32), Int(1)) == [1, 0, 0, 0, 0, 0, 0, 0]
    ensures Frame(TInt(W32), Int(-1)) == [0xFF, 0xFF, 0xFF, 0xFF, 0xFF, 0xFF, 0xFF, 0xFF]
    ensures Frame(TInt(W32), Int(1000)) == [0xE8, 0x03, 0, 0, 0, 0, 0, 0]
  {
    SmallByte(3);
    SmallByte(1);
    assert Frame(TInt(W32), Int(1)) == U64(1);
    assert Frame(TInt(W32), Int(-1)) == U64(0xFFFF_FFFF_FFFF_FFFF);
    AllOnes();
    assert Frame(TInt(W32), Int(1000)) == U64(1000);
    Thousand();
  }

  /** A number below 256 is one byte followed by seven zero bytes. */
  lemma SmallByte(n: nat)
    requires n < 256
    ensures U64(n) == [n as byte, 0, 0, 0, 0, 0, 0, 0]
  {
    assert ToLE(0, 7) == [0, 0, 0, 0, 0, 0, 0];
  }

  /** 1000 = 0x03E8 in little-endian order. */
  lemma Thousand()
    ensures U64(1000) == [0xE8, 0x03, 0, 0, 0, 0, 0, 0]
  {
    assert ToLE(0, 6) == [0, 0, 0, 0, 0, 0];
    assert ToLE(3, 7) == [3] + ToLE(0, 6);
    assert ToLE(1000, 8) == [0xE8] + ToLE(3, 7);
  }

  /** `map[string]int{"k": 1}`: the count 1, then the key `"k"`, then the value 1. */
  lemma OnePairMap()
    ensures Frame(TMap(TString, TInt(W64)), Map(false, [Entry(Str([0x6B]), Int(1))]))
         == [1, 0, 0, 0, 0, 0, 0, 0]
          + [1, 0, 0, 0, 0, 0, 0, 0, 0x6B]
          + [1, 0, 0, 0, 0, 0, 0, 0]
  {
    var kt, et := TString, TInt(W64);
    var es := [Entry(Str([0x6B]), Int(1))];
    KeyAndValueFrames();
    assert EntriesFrame(kt, et, es, 1) == [] + EntryFrame(kt, et, es[0]);
  }

  /** The key `"k"` and the value 1 of that map. */
  lemma KeyAndValueFrames()
    ensures Frame(TString, Str([0x6B])) == [1, 0, 0, 0, 0, 0, 0, 0, 0x6B]
    ensures Frame(TInt(W64), Int(1)) == [1, 0, 0, 0, 0, 0, 0, 0]
  {
  }

  /** Decoding those bytes through a pointer to a nil `map[string]int` gives back exactly that one pair. */
  lemma OnePairMapDecodes()
    ensures var ty := TMap(TString, TInt(W64));
      Parse([1, 0, 0, 0, 0, 0, 0, 0] + [1, 0, 0, 0, 0, 0, 0, 0, 0x6B] + [1, 0, 0, 0, 0, 0, 0, 0],
            0, TPointer(ty), PointerTo(Zero(ty)), false)
      == Done(PointerTo(Map(false, [Entry(Str([0x6B]), Int(1))])), 25)
  {
    var ty := TMap(TString, TInt(W64));
    var v := Map(false, [Entry(Str([0x6B]), Int(1))]);
    OnePairMap();
    DecodeEncode(ty, v, []);
    assert Frame(ty, v) + [] == Frame(ty, v);
  }

  /** A struct with an exported `int32` field 7 and an unexported field encodes as the field 7 alone. */
  lemma HiddenFieldScenario(hidden: Value)
    requires HasType(hidden, TString)
    ensures Frame(TStruct([FieldDecl(true, TInt(W32)), FieldDecl(false, TString)]), Struct([Int(7), hidden]))
         == [7, 0, 0, 0, 0, 0, 0, 0]
  {
    var fds := [FieldDecl(true, TInt(W32)), FieldDecl(false, TString)];
    assert Frame(TInt(W32), Int(7)) == [7, 0, 0, 0, 0, 0, 0, 0];
    assert FieldsFrame(fds, [Int(7), hidden], 1) == [] + FieldsFrame(fds, [Int(7), hidden], 2);
  }
}
