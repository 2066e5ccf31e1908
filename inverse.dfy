/**
 * `Decode(Encode(v), &t)` end to end. The decoder is handed a pointer to
 * the target, so the target itself is settable while the pointer is not.
 * Decoding the bytes of v (followed by anything) fills t as `Overlay`
 * says and stops right after them; into a fresh zero target, a value whose
 * unexported fields are zero and whose maps are allocated comes back as
 * itself. Any strict prefix of the bytes fails with a short read.
 */
module Inverse {
  import opened Wire
  import opened Shapes
  import opened Codec
  import opened RoundTrip
  import opened Input

  /** The pointer `&t` that `Decode` receives. */
  function PointerTo(t: Value): Value {
    Pointer(Some(t))
  }

  /** Bytes that start with f hold f at position 0. */
  lemma AtStart(f: seq<byte>, rest: seq<byte>)
    ensures At(f + rest, 0, f)
  {
    MatchesSlice(f + rest, 0, f);
    assert (f + rest)[0..|f|] == f;
  }

  /**
   * Decoding the encoding of v, followed by any bytes, through a pointer to
   * t overlays v on t and consumes exactly the encoding.
   */
  lemma DecodeInto(ty: Type, t: Value, v: Value, rest: seq<byte>)
    requires Compatible(ty, t, v)
    ensures HasType(PointerTo(t), TPointer(ty))
    ensures Parse(Frame(ty, v) + rest, 0, TPointer(ty), PointerTo(t), false)
         == Done(PointerTo(Overlay(ty, t, v)), |Frame(ty, v)|)
  {
    AtStart(Frame(ty, v), rest);
    ParseExact(Frame(ty, v) + rest, 0, ty, t, v);
  }

  /**
   * A map that is not nil need not be passed through a pointer: `SetMapIndex`
   * fills it in place whether or not it can be set, so decoding the encoding
   * of v into the map itself overlays v on it as through a pointer.
   */
  lemma DecodeMapByValue(kt: Type, et: Type, t: Value, v: Value, rest: seq<byte>)
    requires Compatible(TMap(kt, et), t, v) && !t.isNil
    ensures Parse(Frame(TMap(kt, et), v) + rest, 0, TMap(kt, et), t, false)
         == Done(Overlay(TMap(kt, et), t, v), |Frame(TMap(kt, et), v)|)
  {
    var data := Frame(TMap(kt, et), v) + rest;
    AtStart(Frame(TMap(kt, et), v), rest);
    ParseExact(data, 0, TMap(kt, et), t, v);
    assert Parse(data, 0, TMap(kt, et), t, false) == ParseMap(data, 0, kt, et, false, false);
    assert Parse(data, 0, TMap(kt, et), t, true) == ParseMap(data, 0, kt, et, false, true);
  }

  /** The round trip: a canonical value decoded into a fresh target is the value itself. */
  lemma DecodeEncode(ty: Type, v: Value, rest: seq<byte>)
    requires EncodableValue(ty, v) && Canonical(v, ty)
    ensures HasType(PointerTo(Zero(ty)), TPointer(ty))
    ensures Parse(Frame(ty, v) + rest, 0, TPointer(ty), PointerTo(Zero(ty)), false)
         == Done(PointerTo(v), |Frame(ty, v)|)
  {
    ZeroHasType(ty);
    DecodeInto(ty, Zero(ty), v, rest);
    OverlayIdentity(ty, v);
  }

  /** Cutting the encoding of v anywhere before its end makes decoding fail with a short read. */
  lemma DecodeTruncated(ty: Type, t: Value, v: Value, k: nat)
    requires Compatible(ty, t, v) && k < |Frame(ty, v)|
    ensures HasType(PointerTo(t), TPointer(ty))
    ensures Short(Parse(Frame(ty, v)[..k], 0, TPointer(ty), PointerTo(t), false))
  {
    ParseShort(Frame(ty, v)[..k], 0, ty, t, v);
  }

  // ------------------------------------------------------ struct fields

  /**
   * Decoding into a struct leaves every unexported field as the target had
   * it and puts into every exported field its own decode.
   */
  lemma StructFieldsAfterDecode(fds: seq<FieldDecl>, t: Value, v: Value, j: nat)
    requires HasType(t, TStruct(fds)) && HasType(v, TStruct(fds)) && j < |fds|
    ensures !fds[j].exported ==> Overlay(TStruct(fds), t, v).fields[j] == t.fields[j]
    ensures fds[j].exported ==> Overlay(TStruct(fds), t, v).fields[j] == Overlay(fds[j].ty, t.fields[j], v.fields[j])
  {
    OverlayFieldAt(fds, t.fields, v.fields, 0, j);
  }

  lemma {:induction false} OverlayFieldAt(fds: seq<FieldDecl>, ts: seq<Value>, vs: seq<Value>, i: nat, j: nat)
    requires HasType(Struct(ts), TStruct(fds)) && HasType(Struct(vs), TStruct(fds)) && i <= j < |fds|
    ensures OverlayFields(fds, ts, vs, i)[j - i]
         == if fds[j].exported then Overlay(fds[j].ty, ts[j], vs[j]) else ts[j]
    decreases j - i
  {
    if i < j {
      OverlayFieldAt(fds, ts, vs, i + 1, j);
    }
  }

  // ------------------------------------------------------ decoding into a zero target

  /** A canonical value, decoded over the zero value of its type, is itself. */
  lemma {:induction false} OverlayIdentity(ty: Type, v: Value)
    requires HasType(v, ty) && Canonical(v, ty)
    ensures HasType(Zero(ty), ty) && Overlay(ty, Zero(ty), v) == v
    decreases ty, 3
  {
    ZeroHasType(ty);
    match ty
    case TStruct(fds) =>
      FieldsIdentity(fds, Zero(ty).fields, v.fields, 0);
    case TSlice(et) =>
      ZeroHasType(et);
      ListIdentity(et, seq(|v.elems|, _ => Zero(et)), v.elems, 0);
    case TArray(_, et) =>
      ListIdentity(et, Zero(ty).elems, v.elems, 0);
    case TMap(kt, et) =>
      forall j | 0 <= j < |v.entries| ensures OverlayEntry(kt, et, v.entries[j]) == v.entries[j] {
        EntryIdentity(kt, et, v.entries[j]);
      }
      EntriesIdentity(kt, et, v.entries, 0);
      InsertAllDistinct(v.entries);
    case _ =>
  }

  lemma {:induction false} FieldsIdentity(fds: seq<FieldDecl>, ts: seq<Value>, vs: seq<Value>, i: nat)
    requires HasType(Struct(ts), TStruct(fds)) && HasType(Struct(vs), TStruct(fds)) && i <= |fds|
    requires forall j :: i <= j < |fds| ==> ts[j] == Zero(fds[j].ty)
    requires Canonical(Struct(vs), TStruct(fds))
    ensures OverlayFields(fds, ts, vs, i) == vs[i..]
    decreases fds, |fds| - i
  {
    if i < |fds| {
      if fds[i].exported {
        OverlayIdentity(fds[i].ty, vs[i]);
      }
      FieldsIdentity(fds, ts, vs, i + 1);
      assert vs[i..] == [vs[i]] + vs[i + 1..];
    }
  }

  lemma {:induction false} ListIdentity(et: Type, ts: seq<Value>, vs: seq<Value>, i: nat)
    requires HasType(Array(ts), TArray(|ts|, et)) && HasType(Array(vs), TArray(|ts|, et)) && i <= |ts|
    requires forall j :: i <= j < |ts| ==> ts[j] == Zero(et) && Canonical(vs[j], et)
    ensures OverlayList(et, ts, vs, i) == vs[i..]
    decreases et, 4, |ts| - i
  {
    if i < |ts| {
      OverlayIdentity(et, vs[i]);
      ListIdentity(et, ts, vs, i + 1);
      assert vs[i..] == [vs[i]] + vs[i + 1..];
    }
  }

  lemma {:induction false} EntriesIdentity(kt: Type, et: Type, es: seq<Entry>, i: nat)
    requires EntriesHaveType(es, kt, et) && i <= |es|
    requires forall j :: i <= j < |es| ==> OverlayEntry(kt, et, es[j]) == es[j]
    ensures OverlayEntries(kt, et, es, i) == es[i..]
    decreases |es| - i
  {
    if i < |es| {
      EntriesIdentity(kt, et, es, i + 1);
      assert es[i..] == [es[i]] + es[i + 1..];
    }
  }

  lemma EntryIdentity(kt: Type, et: Type, e: Entry)
    requires HasType(e.key, kt) && HasType(e.val, et) && Canonical(e.key, kt) && Canonical(e.val, et)
    ensures OverlayEntry(kt, et, e) == e
    decreases TMap(kt, et), 0
  {
    OverlayIdentity(kt, e.key);
    OverlayIdentity(et, e.val);
  }
}
