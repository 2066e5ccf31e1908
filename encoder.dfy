/**
 * `EncodeValue` as the Go code runs it: one buffer per call, appended to
 * in loops over fields, elements and map keys, with a recursive call per
 * sub-value. The loops of the struct, slice/array and map cases are
 * written as methods of their own.
 */
module Encoder {
  import opened Wire
  import opened Shapes
  import opened Codec

  /** `Encode(a)`: the value a itself is encoded. */
  method Encode(ty: Type, v: Value) returns (out: seq<byte>)
    requires EncodableValue(ty, v)
    ensures out == Frame(ty, v)
  {
    out := EncodeValue(ty, v);
  }

  /** The bytes of v, which are its wire frame. */
  method EncodeValue(ty: Type, v: Value) returns (out: seq<byte>)
    requires EncodableValue(ty, v)
    ensures out == Frame(ty, v)
    decreases ty, 2
  {
    match ty {
      case TString =>
        out := U64(|v.bytes|);
        out := out + v.bytes;
      case TStruct(fds) =>
        out := EncodeFields(ty, v);
      case TSlice(et) =>
        out := U64(|v.elems|);
        var b := EncodeElems(ty, v);
        out := out + b;
      case TArray(_, et) =>
        out := EncodeElems(ty, v);
      case TMap(kt, et) =>
        out := U64(|v.entries|);
        var b := EncodeEntries(ty, v);
        out := out + b;
      case TInt(_) =>
        out := U64(v.i % TWO_64);
      case TUint(_) =>
        out := U64(v.n);
      case TPointer(_) =>
        out := [];
    }
  }

  /** The struct case: each field that `CanInterface`, in declaration order. */
  method EncodeFields(ty: Type, v: Value) returns (buf: seq<byte>)
    requires ty.TStruct? && EncodableValue(ty, v)
    ensures buf == FieldsFrame(ty.fields, v.fields, 0)
    decreases ty, 0
  {
    var fds, vs := ty.fields, v.fields;
    assert HasType(v, ty) && Encodable(ty);
    buf := [];
    var i := 0;
    while i < |fds|
      invariant i <= |fds|
      invariant buf + FieldsFrame(fds, vs, i) == FieldsFrame(fds, vs, 0)
    {
      if fds[i].exported {
        var b := EncodeValue(fds[i].ty, vs[i]);
        buf := buf + b;
      }
      i := i + 1;
    }
  }

  /** The slice and array cases: every element, in index order. */
  method EncodeElems(ty: Type, v: Value) returns (buf: seq<byte>)
    requires (ty.TSlice? || ty.TArray?) && EncodableValue(ty, v)
    ensures buf == ListFrame(ty.elem, v.elems, 0)
    decreases ty, 0
  {
    var et, vs := ty.elem, v.elems;
    assert HasType(v, ty) && Encodable(ty);
    buf := [];
    var i := 0;
    while i < |vs|
      invariant i <= |vs|
      invariant buf + ListFrame(et, vs, i) == ListFrame(et, vs, 0)
    {
      var b := EncodeValue(et, vs[i]);
      buf := buf + b;
      i := i + 1;
    }
  }

  /** The map case: for each key of `MapKeys`, the key and then `MapIndex(key)`. */
  method EncodeEntries(ty: Type, v: Value) returns (buf: seq<byte>)
    requires ty.TMap? && EncodableValue(ty, v)
    ensures buf == EntriesFrame(ty.key, ty.elem, v.entries, |v.entries|)
    decreases ty, 1
  {
    var kt, et, es := ty.key, ty.elem, v.entries;
    assert DistinctKeys(es) && EntriesHaveType(es, kt, et) && Encodable(kt) && Encodable(et);
    buf := [];
    var keys := seq(|es|, j requires 0 <= j < |es| => es[j].key);
    var i := 0;
    while i < |keys|
      invariant i <= |keys| == |es|
      invariant buf == EntriesFrame(kt, et, es, i)
    {
      MapIndexFinds(es, i);
      var e := Entry(keys[i], MapOf(es)[keys[i]]);
      assert e == es[i] && EncodableEntry(kt, et, e);
      var b := EncodeEntry(kt, et, e);
      buf := buf + b;
      i := i + 1;
    }
  }

  /** One map entry: the key's frame, then the value's. */
  method EncodeEntry(kt: Type, et: Type, e: Entry) returns (buf: seq<byte>)
    requires EncodableEntry(kt, et, e)
    ensures buf == EntryFrame(kt, et, e)
    decreases TMap(kt, et), 0
  {
    buf := EncodeValue(kt, e.key);
    var b := EncodeValue(et, e.val);
    buf := buf + b;
  }
}
