/**
 * What the encoder's output looks like, kind by kind: the 8-byte length and
 * count fields, two's complement for negative integers, containers as the
 * concatenation of their parts in order, and unexported struct fields
 * contributing nothing.
 */
module Layout {
  import opened Wire
  import opened Shapes
  import opened Codec

  /** The concatenation of a list of byte strings, in order. */
  function Flatten(ss: seq<seq<byte>>): (r: seq<byte>)
  {
    if ss == [] then [] else ss[0] + Flatten(ss[1..])
  }

  lemma {:induction false} FlattenSnoc(ss: seq<seq<byte>>, s: seq<byte>)
    ensures Flatten(ss + [s]) == Flatten(ss) + s
  {
    if ss == [] {
      assert [s][1..] == [];
    } else {
      assert (ss + [s])[1..] == ss[1..] + [s];
      FlattenSnoc(ss[1..], s);
    }
  }

  /** vs are the fields of a struct with declared fields fds, whose exported types can be encoded. */
  predicate FieldsEncodable(fds: seq<FieldDecl>, vs: seq<Value>) {
    HasType(Struct(vs), TStruct(fds)) && Encodable(TStruct(fds))
  }

  /** vs are the elements of a list of element type et, which can be encoded. */
  predicate ElemsEncodable(et: Type, vs: seq<Value>) {
    HasType(Array(vs), TArray(|vs|, et)) && Encodable(et)
  }

  /** es are the entries of a map from kt to et, both of which can be encoded. */
  predicate EntriesEncodable(kt: Type, et: Type, es: seq<Entry>) {
    EntriesHaveType(es, kt, et) && Encodable(kt) && Encodable(et)
  }

  /** The frames of the elements of a list, one per element. */
  function ElemFrames(et: Type, vs: seq<Value>): (r: seq<seq<byte>>)
    requires HasType(Array(vs), TArray(|vs|, et)) && Encodable(et)
    ensures |r| == |vs|
  {
    seq(|vs|, i requires 0 <= i < |vs| => Frame(et, vs[i]))
  }

  /** The key frame followed by the value frame, one per map entry. */
  function PairFrames(kt: Type, et: Type, es: seq<Entry>): (r: seq<seq<byte>>)
    requires EntriesHaveType(es, kt, et) && Encodable(kt) && Encodable(et)
    ensures |r| == |es|
  {
    seq(|es|, i requires 0 <= i < |es| => Frame(kt, es[i].key) + Frame(et, es[i].val))
  }

  /** A string is its byte length as 8 little-endian bytes, then exactly its bytes. */
  lemma StringLayout(s: seq<byte>)
    requires |s| < MAX_LEN
    ensures var f := Frame(TString, Str(s));
      |f| == 8 + |s| && FromLE(f[..8]) == |s| && f[8..] == s
  {
    var f := Frame(TString, Str(s));
    assert f[..8] == U64(|s|);
    U64RoundTrip(|s|);
  }

  /**
   * `SetInt(int64(u))` at width w, where u is the 64-bit two's complement
   * of an i of that width, stores i: every modulus divides 2^64, so the low
   * bits of the 64-bit pattern are those of the width's pattern.
   */
  lemma ToSignedInverts(w: Width, i: int)
    requires -(Modulus(w) / 2) <= i < Modulus(w) / 2
    ensures ToSigned(if i < 0 then TWO_64 + i else i, w) == i
  {
    if i < 0 {
      match w
      case W8 => LowBits8(i);
      case W16 => LowBits16(i);
      case W32 => LowBits32(i);
      case W64 =>
    }
  }

  /** The low 8 bits of the 64-bit pattern of a negative int8 i are those of its 8-bit pattern. */
  lemma LowBits8(i: int)
    requires -0x80 <= i < 0
    ensures Truncate(TWO_64 + i, W8) == 0x100 + i
  {
    assert TWO_64 + i == 0x100 * 0xFF_FFFF_FFFF_FFFF + (0x100 + i);
  }

  /** The low 16 bits of the 64-bit pattern of a negative int16 i are those of its 16-bit pattern. */
  lemma LowBits16(i: int)
    requires -0x8000 <= i < 0
    ensures Truncate(TWO_64 + i, W16) == 0x1_0000 + i
  {
    assert TWO_64 + i == 0x1_0000 * 0xFFFF_FFFF_FFFF + (0x1_0000 + i);
  }

  /** The low 32 bits of the 64-bit pattern of a negative int32 i are those of its 32-bit pattern. */
  lemma LowBits32(i: int)
    requires -0x8000_0000 <= i < 0
    ensures Truncate(TWO_64 + i, W32) == 0x1_0000_0000 + i
  {
    assert TWO_64 + i == 0x1_0000_0000 * 0xFFFF_FFFF + (0x1_0000_0000 + i);
  }

  /**
   * A signed integer of any width is 8 little-endian bytes holding its 64-bit
   * two's complement, which `SetInt` at the same width turns back into it.
   */
  lemma IntLayout(w: Width, i: int)
    requires -(Modulus(w) / 2) <= i < Modulus(w) / 2
    ensures var f := Frame(TInt(w), Int(i));
      |f| == 8 && FromLE(f) == (if i < 0 then TWO_64 + i else i) && ToSigned(FromLE(f), w) == i
  {
    var u := if i < 0 then TWO_64 + i else i;
    assert i % TWO_64 == u;
    U64RoundTrip(u);
    ToSignedInverts(w, i);
  }

  /** An unsigned integer of any width is 8 little-endian bytes holding it. */
  lemma UintLayout(w: Width, n: nat)
    requires n < Modulus(w)
    ensures var f := Frame(TUint(w), Uint(n));
      |f| == 8 && FromLE(f) == n && Truncate(FromLE(f), w) == n
  {
    U64RoundTrip(n);
  }

  lemma {:induction false} ListFrameIsFlatten(et: Type, vs: seq<Value>, i: nat)
    requires ElemsEncodable(et, vs) && i <= |vs|
    ensures ListFrame(et, vs, i) == Flatten(ElemFrames(et, vs)[i..])
    decreases |vs| - i
  {
    if i < |vs| {
      var fs := ElemFrames(et, vs);
      assert fs[i..][1..] == fs[i + 1..];
      ListFrameIsFlatten(et, vs, i + 1);
    }
  }

  /** A slice is its element count as 8 little-endian bytes, then its elements' frames in index order. */
  lemma SliceLayout(et: Type, v: Value)
    requires HasType(v, TSlice(et)) && Encodable(et)
    ensures var f := Frame(TSlice(et), v);
      |f| >= 8 && FromLE(f[..8]) == |v.elems| && f[8..] == Flatten(ElemFrames(et, v.elems))
  {
    var f := Frame(TSlice(et), v);
    assert f[..8] == U64(|v.elems|);
    U64RoundTrip(|v.elems|);
    ListFrameIsFlatten(et, v.elems, 0);
    assert ElemFrames(et, v.elems)[0..] == ElemFrames(et, v.elems);
  }

  /** An array is its elements' frames in index order, with no count. */
  lemma ArrayLayout(n: nat, et: Type, v: Value)
    requires HasType(v, TArray(n, et)) && Encodable(et)
    ensures Frame(TArray(n, et), v) == Flatten(ElemFrames(et, v.elems))
  {
    ListFrameIsFlatten(et, v.elems, 0);
    assert ElemFrames(et, v.elems)[0..] == ElemFrames(et, v.elems);
  }

  lemma {:induction false} EntriesFrameIsFlatten(kt: Type, et: Type, es: seq<Entry>, n: nat)
    requires EntriesEncodable(kt, et, es) && n <= |es|
    ensures EntriesFrame(kt, et, es, n) == Flatten(PairFrames(kt, et, es)[..n])
  {
    if n > 0 {
      var ps := PairFrames(kt, et, es);
      assert ps[..n] == ps[..n - 1] + [ps[n - 1]];
      FlattenSnoc(ps[..n - 1], ps[n - 1]);
      EntriesFrameIsFlatten(kt, et, es, n - 1);
    }
  }

  /** Key frame, then value frame, for the entries i.. of a map: the bytes that follow the first i pairs. */
  function PairsFrame(kt: Type, et: Type, es: seq<Entry>, i: nat): seq<byte>
    requires EntriesHaveType(es, kt, et) && Encodable(kt) && Encodable(et) && i <= |es|
    decreases |es| - i
  {
    if i == |es| then [] else EntryFrame(kt, et, es[i]) + PairsFrame(kt, et, es, i + 1)
  }

  lemma {:induction false} EntriesFrameThenPairs(kt: Type, et: Type, es: seq<Entry>, n: nat)
    requires EntriesEncodable(kt, et, es) && n <= |es|
    ensures EntriesFrame(kt, et, es, n) + PairsFrame(kt, et, es, n) == EntriesFrame(kt, et, es, |es|)
    decreases |es| - n
  {
    if n < |es| {
      EntriesFrameThenPairs(kt, et, es, n + 1);
      var a, b, c := EntriesFrame(kt, et, es, n), EntryFrame(kt, et, es[n]), PairsFrame(kt, et, es, n + 1);
      assert a + (b + c) == (a + b) + c;
    }
  }

  /** The pairs of a map frame, read front to back, are the pairs the encoder appended one by one. */
  lemma MapFrameAsPairs(kt: Type, et: Type, v: Value)
    requires HasType(v, TMap(kt, et)) && Encodable(kt) && Encodable(et)
    ensures Frame(TMap(kt, et), v) == U64(|v.entries|) + PairsFrame(kt, et, v.entries, 0)
  {
    EntriesFrameThenPairs(kt, et, v.entries, 0);
    assert [] + PairsFrame(kt, et, v.entries, 0) == PairsFrame(kt, et, v.entries, 0);
  }

  /**
   * A map is its entry count as 8 little-endian bytes, then for each entry
   * in iteration order the key's frame followed by the value's.
   */
  lemma MapLayout(kt: Type, et: Type, v: Value)
    requires HasType(v, TMap(kt, et)) && Encodable(kt) && Encodable(et)
    ensures var f := Frame(TMap(kt, et), v);
      |f| >= 8 && FromLE(f[..8]) == |v.entries| && f[8..] == Flatten(PairFrames(kt, et, v.entries))
  {
    var f := Frame(TMap(kt, et), v);
    assert f[..8] == U64(|v.entries|);
    U64RoundTrip(|v.entries|);
    EntriesFrameIsFlatten(kt, et, v.entries, |v.entries|);
    assert PairFrames(kt, et, v.entries)[..|v.entries|] == PairFrames(kt, et, v.entries);
  }

  /** vs and ws agree on every field that `CanInterface`. */
  predicate SameExported(fds: seq<FieldDecl>, vs: seq<Value>, ws: seq<Value>)
    requires |vs| == |ws| == |fds|
  {
    forall i :: 0 <= i < |fds| && fds[i].exported ==> vs[i] == ws[i]
  }

  lemma {:induction false} FieldsFrameIgnoresHidden(fds: seq<FieldDecl>, vs: seq<Value>, ws: seq<Value>, i: nat)
    requires FieldsEncodable(fds, vs) && FieldsEncodable(fds, ws) && i <= |fds| && SameExported(fds, vs, ws)
    ensures FieldsFrame(fds, vs, i) == FieldsFrame(fds, ws, i)
    decreases |fds| - i
  {
    if i < |fds| {
      FieldsFrameIgnoresHidden(fds, vs, ws, i + 1);
      var own := if fds[i].exported then Frame(fds[i].ty, vs[i]) else [];
      assert fds[i].exported ==> vs[i] == ws[i];
      assert own == (if fds[i].exported then Frame(fds[i].ty, ws[i]) else []);
    }
  }

  /** Unexported fields contribute no bytes: two structs that differ only there encode alike. */
  lemma HiddenFieldsIgnored(fds: seq<FieldDecl>, v: Value, w: Value)
    requires HasType(v, TStruct(fds)) && HasType(w, TStruct(fds)) && Encodable(TStruct(fds))
    requires SameExported(fds, v.fields, w.fields)
    ensures Frame(TStruct(fds), v) == Frame(TStruct(fds), w)
  {
    FieldsFrameIgnoresHidden(fds, v.fields, w.fields, 0);
  }

  lemma {:induction false} FieldsFrameIsFlatten(fds: seq<FieldDecl>, vs: seq<Value>, i: nat)
    requires FieldsEncodable(fds, vs) && i <= |fds|
    ensures FieldsFrame(fds, vs, i) == Flatten(ExportedFrames(fds, vs)[i..])
    decreases |fds| - i
  {
    if i < |fds| {
      var fs := ExportedFrames(fds, vs);
      assert fs[i..][1..] == fs[i + 1..];
      FieldsFrameIsFlatten(fds, vs, i + 1);
    }
  }

  /** Per field, its frame if it `CanInterface`, and nothing otherwise. */
  function ExportedFrames(fds: seq<FieldDecl>, vs: seq<Value>): (r: seq<seq<byte>>)
    requires HasType(Struct(vs), TStruct(fds)) && Encodable(TStruct(fds))
    ensures |r| == |fds|
  {
    seq(|fds|, i requires 0 <= i < |fds| => if fds[i].exported then Frame(fds[i].ty, vs[i]) else [])
  }

  /** A struct is the frames of its exported fields in declaration order, with no header. */
  lemma StructLayout(fds: seq<FieldDecl>, v: Value)
    requires HasType(v, TStruct(fds)) && Encodable(TStruct(fds))
    ensures Frame(TStruct(fds), v) == Flatten(ExportedFrames(fds, v.fields))
  {
    FieldsFrameIsFlatten(fds, v.fields, 0);
    assert ExportedFrames(fds, v.fields)[0..] == ExportedFrames(fds, v.fields);
  }
}
