/**
 * Decoding what the encoder wrote. `Overlay` says what a settable target
 * holds after decoding the frame of v into it: everything the wire carries
 * comes from v, unexported struct fields keep the target's contents, and
 * slice elements and map keys and values start from zero (a target slice
 * is taken to hold nothing past its length, and stays nil for a count of 0). `ParseExact`
 * proves that the decoder produces exactly that and consumes exactly the
 * frame, or, when the input stops early, fails with a short read.
 */
module RoundTrip {
  import opened Wire
  import opened Shapes
  import opened Codec
  import opened Layout
  import opened Input

  // ------------------------------------------------------ the expected result

  /** The contents of target t of type ty after decoding the frame of v into it. */
  function Overlay(ty: Type, t: Value, v: Value): Value
    requires HasType(t, ty) && HasType(v, ty)
    decreases ty, 3
  {
    match ty
    case TString => v
    case TInt(_) => v
    case TUint(_) => v
    case TStruct(fds) => Struct(OverlayFields(fds, t.fields, v.fields, 0))
    case TSlice(et) =>
      ZeroHasType(et);
      Slice(t.isNil && v.elems == [], OverlayList(et, seq(|v.elems|, _ => Zero(et)), v.elems, 0))
    case TArray(_, et) => Array(OverlayList(et, t.elems, v.elems, 0))
    case TMap(kt, et) => Map(false, InsertAll(OverlayEntries(kt, et, v.entries, 0)))
    case TPointer(_) => v // no frame: the encoder has no pointer case
  }

  function OverlayFields(fds: seq<FieldDecl>, ts: seq<Value>, vs: seq<Value>, i: nat): (r: seq<Value>)
    requires HasType(Struct(ts), TStruct(fds)) && HasType(Struct(vs), TStruct(fds)) && i <= |fds|
    ensures |r| == |fds| - i
    decreases fds, |fds| - i
  {
    if i == |fds| then []
    else [if fds[i].exported then Overlay(fds[i].ty, ts[i], vs[i]) else ts[i]] + OverlayFields(fds, ts, vs, i + 1)
  }

  function OverlayList(et: Type, ts: seq<Value>, vs: seq<Value>, i: nat): (r: seq<Value>)
    requires HasType(Array(ts), TArray(|ts|, et)) && HasType(Array(vs), TArray(|ts|, et)) && i <= |ts|
    ensures |r| == |ts| - i
    decreases et, 4, |ts| - i
  {
    if i == |ts| then [] else [Overlay(et, ts[i], vs[i])] + OverlayList(et, ts, vs, i + 1)
  }

  /** The pairs the decoder reads back from the entries i.. of es, in order. */
  function OverlayEntries(kt: Type, et: Type, es: seq<Entry>, i: nat): (r: seq<Entry>)
    requires EntriesHaveType(es, kt, et) && i <= |es|
    ensures |r| == |es| - i
    decreases TMap(kt, et), 1, |es| - i
  {
    if i == |es| then [] else [OverlayEntry(kt, et, es[i])] + OverlayEntries(kt, et, es, i + 1)
  }

  /** The pair the decoder reads back from entry e: its key and value decoded into fresh zero holders. */
  function OverlayEntry(kt: Type, et: Type, e: Entry): Entry
    requires HasType(e.key, kt) && HasType(e.val, et)
    decreases TMap(kt, et), 0
  {
    ZeroHasType(kt);
    ZeroHasType(et);
    Entry(Overlay(kt, Zero(kt), e.key), Overlay(et, Zero(et), e.val))
  }


  // ------------------------------------------------------ input holding a frame

  lemma ReadU64At(data: seq<byte>, pos: nat, n: nat)
    requires n < TWO_64 && At(data, pos, U64(n))
    ensures ReadU64(data, pos) == Done(n, pos + 8)
  {
    AtSlice(data, pos, U64(n));
    U64RoundTrip(n);
  }

  // ------------------------------------------------------ the exact round trip

  /** Target t and value v both have type ty, and values of ty can be encoded. */
  predicate Compatible(ty: Type, t: Value, v: Value) {
    HasType(t, ty) && EncodableValue(ty, v)
  }

  /** Decoding into the settable target t of type ty at pos yields x and leaves the reader at q. */
  predicate DecodesTo(data: seq<byte>, pos: nat, ty: Type, t: Value, x: Value, q: nat) {
    pos <= |data| && HasType(t, ty) && Parse(data, pos, ty, t, true) == Done(x, q)
  }

  /**
   * Decoding the frame of v into a settable target t of the same type
   * yields Overlay(ty, t, v) and consumes exactly the frame.
   */
  lemma ParseExact(data: seq<byte>, pos: nat, ty: Type, t: Value, v: Value)
    requires Compatible(ty, t, v) && At(data, pos, Frame(ty, v))
    ensures DecodesTo(data, pos, ty, t, Overlay(ty, t, v), pos + |Frame(ty, v)|)
    decreases ty, 3, 0
  {
    match ty
    case TString => StringExact(data, pos, t, v);
    case TInt(w) => IntExact(data, pos, w, t, v);
    case TUint(w) => UintExact(data, pos, w, t, v);
    case TStruct(fds) => StructExact(data, pos, fds, t, v);
    case TSlice(et) => SliceExact(data, pos, et, t, v);
    case TArray(n, et) => ArrayExact(data, pos, n, et, t, v);
    case TMap(kt, et) => MapExact(data, pos, kt, et, t, v);
    case TPointer(_) => assert false;
  }

  /** ParseExact, with the decoded value and the new position as results. */
  lemma DecodeAt(data: seq<byte>, pos: nat, ty: Type, t: Value, v: Value) returns (x: Value, q: nat)
    requires Compatible(ty, t, v) && At(data, pos, Frame(ty, v))
    ensures DecodesTo(data, pos, ty, t, x, q) && q <= |data|
    ensures x == Overlay(ty, t, v) && q == pos + |Frame(ty, v)|
    decreases ty, 3, 1
  {
    ParseExact(data, pos, ty, t, v);
    x := Overlay(ty, t, v);
    q := pos + |Frame(ty, v)|;
  }

  lemma StringExact(data: seq<byte>, pos: nat, t: Value, v: Value)
    requires Compatible(TString, t, v) && At(data, pos, Frame(TString, v))
    ensures Parse(data, pos, TString, t, true) == Done(Overlay(TString, t, v), pos + |Frame(TString, v)|)
  {
    AtSplit(data, pos, U64(|v.bytes|), v.bytes);
    ReadU64At(data, pos, |v.bytes|);
    AtSlice(data, pos + 8, v.bytes);
  }

  lemma IntExact(data: seq<byte>, pos: nat, w: Width, t: Value, v: Value)
    requires Compatible(TInt(w), t, v) && At(data, pos, Frame(TInt(w), v))
    ensures Parse(data, pos, TInt(w), t, true) == Done(Overlay(TInt(w), t, v), pos + |Frame(TInt(w), v)|)
  {
    IntPattern(w, v.i);
    ReadU64At(data, pos, v.i % TWO_64);
  }

  lemma UintExact(data: seq<byte>, pos: nat, w: Width, t: Value, v: Value)
    requires Compatible(TUint(w), t, v) && At(data, pos, Frame(TUint(w), v))
    ensures Parse(data, pos, TUint(w), t, true) == Done(Overlay(TUint(w), t, v), pos + |Frame(TUint(w), v)|)
  {
    UintPattern(w, v.n);
    ReadU64At(data, pos, v.n);
  }

  /** The 64-bit pattern the encoder writes for i, read back at width w, is i again. */
  lemma IntPattern(w: Width, i: int)
    requires -(Modulus(w) / 2) <= i < Modulus(w) / 2
    ensures i % TWO_64 < TWO_64 && ToSigned(i % TWO_64, w) == i
  {
    ToSignedInverts(w, i);
  }

  /** An unsigned n of width w is below 2^64, and `SetUint` at width w keeps it whole. */
  lemma UintPattern(w: Width, n: nat)
    requires n < Modulus(w)
    ensures n < TWO_64 && Truncate(n, w) == n
  {
  }

  // Structs.

  /** Targets ts and values vs fill the fields of a struct of fields fds, which can be encoded. */
  predicate FieldsFit(fds: seq<FieldDecl>, ts: seq<Value>, vs: seq<Value>) {
    HasType(Struct(ts), TStruct(fds)) && HasType(Struct(vs), TStruct(fds)) && Encodable(TStruct(fds))
  }

  lemma StructExact(data: seq<byte>, pos: nat, fds: seq<FieldDecl>, t: Value, v: Value)
    requires Compatible(TStruct(fds), t, v) && At(data, pos, Frame(TStruct(fds), v))
    ensures Parse(data, pos, TStruct(fds), t, true)
         == Done(Overlay(TStruct(fds), t, v), pos + |Frame(TStruct(fds), v)|)
    decreases TStruct(fds), 2
  {
    FieldsExact(data, pos, fds, t.fields, v.fields, 0);
  }

  lemma {:induction false} FieldsExact(data: seq<byte>, pos: nat, fds: seq<FieldDecl>, ts: seq<Value>, vs: seq<Value>, i: nat)
    requires FieldsFit(fds, ts, vs) && i <= |fds| && At(data, pos, FieldsFrame(fds, vs, i))
    ensures ParseFields(data, pos, fds, ts, i, true) == Done(OverlayFields(fds, ts, vs, i), pos + |FieldsFrame(fds, vs, i)|)
    decreases fds, |fds| - i
  {
    if i < |fds| {
      if !fds[i].exported {
        HiddenFieldFrame(fds, vs, i);
        FieldsExact(data, pos, fds, ts, vs, i + 1);
        HiddenFieldStep(data, pos, fds, ts, vs, i);
      } else {
        FieldHead(data, pos, fds, ts, vs, i);
        var x, p := DecodeAt(data, pos, fds[i].ty, ts[i], vs[i]);
        FieldsExact(data, p, fds, ts, vs, i + 1);
        FieldStep(data, pos, fds, ts, vs, i, x, p);
      }
    }
  }

  lemma HiddenFieldFrame(fds: seq<FieldDecl>, vs: seq<Value>, i: nat)
    requires HasType(Struct(vs), TStruct(fds)) && Encodable(TStruct(fds)) && i < |fds| && !fds[i].exported
    ensures FieldsFrame(fds, vs, i) == FieldsFrame(fds, vs, i + 1)
  {
    assert [] + FieldsFrame(fds, vs, i + 1) == FieldsFrame(fds, vs, i + 1);
  }

  /** An unexported field is skipped: the decoder keeps the target's contents and reads nothing. */
  lemma HiddenFieldStep(data: seq<byte>, pos: nat, fds: seq<FieldDecl>, ts: seq<Value>, vs: seq<Value>, i: nat)
    requires FieldsFit(fds, ts, vs) && i < |fds| && !fds[i].exported && pos <= |data|
    requires FieldsFrame(fds, vs, i) == FieldsFrame(fds, vs, i + 1)
    requires ParseFields(data, pos, fds, ts, i + 1, true)
          == Done(OverlayFields(fds, ts, vs, i + 1), pos + |FieldsFrame(fds, vs, i + 1)|)
    ensures ParseFields(data, pos, fds, ts, i, true) == Done(OverlayFields(fds, ts, vs, i), pos + |FieldsFrame(fds, vs, i)|)
  {
  }

  /** The frames of the fields i.. of a struct: that of exported field i, then those of the rest. */
  lemma FieldsFrameSplit(fds: seq<FieldDecl>, ts: seq<Value>, vs: seq<Value>, i: nat) returns (a: seq<byte>, b: seq<byte>)
    requires FieldsFit(fds, ts, vs) && i < |fds| && fds[i].exported
    ensures Compatible(fds[i].ty, ts[i], vs[i])
    ensures a == Frame(fds[i].ty, vs[i]) && b == FieldsFrame(fds, vs, i + 1) && FieldsFrame(fds, vs, i) == a + b
  {
    a := Frame(fds[i].ty, vs[i]);
    b := FieldsFrame(fds, vs, i + 1);
  }

  lemma FieldHead(data: seq<byte>, pos: nat, fds: seq<FieldDecl>, ts: seq<Value>, vs: seq<Value>, i: nat)
    requires FieldsFit(fds, ts, vs) && i < |fds| && fds[i].exported && At(data, pos, FieldsFrame(fds, vs, i))
    ensures Compatible(fds[i].ty, ts[i], vs[i]) && At(data, pos, Frame(fds[i].ty, vs[i]))
    ensures At(data, pos + |Frame(fds[i].ty, vs[i])|, FieldsFrame(fds, vs, i + 1))
  {
    var a, b := FieldsFrameSplit(fds, ts, vs, i);
    AtSplit(data, pos, a, b);
  }

  lemma FieldStep(data: seq<byte>, pos: nat, fds: seq<FieldDecl>, ts: seq<Value>, vs: seq<Value>, i: nat, x: Value, p: nat)
    requires FieldsFit(fds, ts, vs) && i < |fds| && fds[i].exported
    requires DecodesTo(data, pos, fds[i].ty, ts[i], x, p) && p <= |data|
    requires x == Overlay(fds[i].ty, ts[i], vs[i]) && p == pos + |Frame(fds[i].ty, vs[i])|
    requires ParseFields(data, p, fds, ts, i + 1, true)
          == Done(OverlayFields(fds, ts, vs, i + 1), p + |FieldsFrame(fds, vs, i + 1)|)
    ensures ParseFields(data, pos, fds, ts, i, true) == Done(OverlayFields(fds, ts, vs, i), pos + |FieldsFrame(fds, vs, i)|)
  {
  }

  // Slices and arrays.

  /** Targets ts and values vs are elements of type et, as many of each, and et can be encoded. */
  predicate ListFits(et: Type, ts: seq<Value>, vs: seq<Value>) {
    HasType(Array(ts), TArray(|ts|, et)) && HasType(Array(vs), TArray(|ts|, et)) && Encodable(et)
  }

  lemma ArrayExact(data: seq<byte>, pos: nat, n: nat, et: Type, t: Value, v: Value)
    requires Compatible(TArray(n, et), t, v) && At(data, pos, Frame(TArray(n, et), v))
    ensures Parse(data, pos, TArray(n, et), t, true) == Done(Overlay(TArray(n, et), t, v), pos + |Frame(TArray(n, et), v)|)
    decreases TArray(n, et), 2
  {
    ListExact(data, pos, et, t.elems, v.elems, 0);
  }

  /** The zero elements `SetLen` leaves in a slice about to receive the elements vs. */
  lemma ZeroSlots(et: Type, vs: seq<Value>) returns (zs: seq<Value>)
    requires HasType(Slice(false, vs), TSlice(et)) && Encodable(et)
    ensures zs == seq(|vs|, _ => Zero(et)) && ListFits(et, zs, vs)
  {
    ZeroHasType(et);
    zs := seq(|vs|, _ => Zero(et));
  }

  /** The frame of a slice: its length, then the frames of its elements. */
  lemma SliceHead(data: seq<byte>, pos: nat, et: Type, v: Value) returns (zs: seq<Value>)
    requires EncodableValue(TSlice(et), v) && At(data, pos, Frame(TSlice(et), v))
    ensures ReadU64(data, pos) == Done(|v.elems|, pos + 8) && At(data, pos + 8, ListFrame(et, v.elems, 0))
    ensures zs == seq(|v.elems|, _ => Zero(et)) && ListFits(et, zs, v.elems)
  {
    AtSplit(data, pos, U64(|v.elems|), ListFrame(et, v.elems, 0));
    ReadU64At(data, pos, |v.elems|);
    zs := ZeroSlots(et, v.elems);
  }

  lemma SliceExact(data: seq<byte>, pos: nat, et: Type, t: Value, v: Value)
    requires Compatible(TSlice(et), t, v) && At(data, pos, Frame(TSlice(et), v))
    ensures Parse(data, pos, TSlice(et), t, true) == Done(Overlay(TSlice(et), t, v), pos + |Frame(TSlice(et), v)|)
    decreases TSlice(et), 2
  {
    var zs := SliceHead(data, pos, et, v);
    ListExact(data, pos + 8, et, zs, v.elems, 0);
  }

  lemma {:induction false} ListExact(data: seq<byte>, pos: nat, et: Type, ts: seq<Value>, vs: seq<Value>, i: nat)
    requires ListFits(et, ts, vs) && i <= |ts| && At(data, pos, ListFrame(et, vs, i))
    ensures ParseList(data, pos, et, ts, i, true) == Done(OverlayList(et, ts, vs, i), pos + |ListFrame(et, vs, i)|)
    decreases et, 4, |ts| - i
  {
    if i < |ts| {
      ListHead(data, pos, et, ts, vs, i);
      var x, p := DecodeAt(data, pos, et, ts[i], vs[i]);
      ListExact(data, p, et, ts, vs, i + 1);
      ListStep(data, pos, et, ts, vs, i, x, p);
    }
  }

  /** The frames of the elements i.. of a list: that of element i, then those of the rest. */
  lemma ListFrameSplit(et: Type, ts: seq<Value>, vs: seq<Value>, i: nat) returns (a: seq<byte>, b: seq<byte>)
    requires ListFits(et, ts, vs) && i < |ts|
    ensures Compatible(et, ts[i], vs[i])
    ensures a == Frame(et, vs[i]) && b == ListFrame(et, vs, i + 1) && ListFrame(et, vs, i) == a + b
  {
    a := Frame(et, vs[i]);
    b := ListFrame(et, vs, i + 1);
  }

  lemma ListHead(data: seq<byte>, pos: nat, et: Type, ts: seq<Value>, vs: seq<Value>, i: nat)
    requires ListFits(et, ts, vs) && i < |ts| && At(data, pos, ListFrame(et, vs, i))
    ensures Compatible(et, ts[i], vs[i]) && At(data, pos, Frame(et, vs[i]))
    ensures At(data, pos + |Frame(et, vs[i])|, ListFrame(et, vs, i + 1))
  {
    var a, b := ListFrameSplit(et, ts, vs, i);
    AtSplit(data, pos, a, b);
  }

  lemma ListStep(data: seq<byte>, pos: nat, et: Type, ts: seq<Value>, vs: seq<Value>, i: nat, x: Value, p: nat)
    requires ListFits(et, ts, vs) && i < |ts|
    requires DecodesTo(data, pos, et, ts[i], x, p) && p <= |data|
    requires x == Overlay(et, ts[i], vs[i]) && p == pos + |Frame(et, vs[i])|
    requires ParseList(data, p, et, ts, i + 1, true) == Done(OverlayList(et, ts, vs, i + 1), p + |ListFrame(et, vs, i + 1)|)
    ensures ParseList(data, pos, et, ts, i, true) == Done(OverlayList(et, ts, vs, i), pos + |ListFrame(et, vs, i)|)
  {
  }

  // Maps.

  /** The frame of a map: its count, then the frames of its pairs. */
  lemma MapHead(data: seq<byte>, pos: nat, kt: Type, et: Type, v: Value)
    requires EncodableValue(TMap(kt, et), v) && At(data, pos, Frame(TMap(kt, et), v))
    ensures EntriesEncodable(kt, et, v.entries) && ReadU64(data, pos) == Done(|v.entries|, pos + 8)
    ensures At(data, pos + 8, PairsFrame(kt, et, v.entries, 0))
    ensures |Frame(TMap(kt, et), v)| == 8 + |PairsFrame(kt, et, v.entries, 0)|
  {
    var es := v.entries;
    assert EntriesEncodable(kt, et, es) && |es| < TWO_64;
    MapFrameAsPairs(kt, et, v);
    var count, pairs := U64(|es|), PairsFrame(kt, et, es, 0);
    AtSplit(data, pos, count, pairs);
    ReadU64At(data, pos, |es|);
  }

  lemma MapExact(data: seq<byte>, pos: nat, kt: Type, et: Type, t: Value, v: Value)
    requires Compatible(TMap(kt, et), t, v) && At(data, pos, Frame(TMap(kt, et), v))
    ensures Parse(data, pos, TMap(kt, et), t, true) == Done(Overlay(TMap(kt, et), t, v), pos + |Frame(TMap(kt, et), v)|)
    decreases TMap(kt, et), 2
  {
    MapHead(data, pos, kt, et, v);
    PairsExact(data, pos + 8, kt, et, v.entries, 0);
  }

  lemma {:induction false} PairsExact(data: seq<byte>, pos: nat, kt: Type, et: Type, es: seq<Entry>, i: nat)
    requires EntriesEncodable(kt, et, es) && i <= |es| && At(data, pos, PairsFrame(kt, et, es, i))
    ensures ParsePairs(data, pos, kt, et, |es|, i) == Done(OverlayEntries(kt, et, es, i), pos + |PairsFrame(kt, et, es, i)|)
    decreases TMap(kt, et), 1, |es| - i, 1
  {
    if i < |es| {
      var x, q := PairsHeadAt(data, pos, kt, et, es, i);
      PairsExactStep(data, pos, kt, et, es, i, x, q);
    } else {
      PairsNone(data, pos, kt, et, es);
    }
  }

  /** PairsExact for a nonempty rest: pair i, then the pairs after it. */
  lemma {:induction false} PairsExactStep(data: seq<byte>, pos: nat, kt: Type, et: Type, es: seq<Entry>, i: nat, x: Entry, q: nat)
    requires EntriesEncodable(kt, et, es) && i < |es|
    requires pos <= q <= |data| && ParsePair(data, pos, kt, et) == Done(x, q)
    requires At(data, q, PairsFrame(kt, et, es, i + 1))
    requires OverlayEntries(kt, et, es, i) == [x] + OverlayEntries(kt, et, es, i + 1)
    requires pos + |PairsFrame(kt, et, es, i)| == q + |PairsFrame(kt, et, es, i + 1)|
    ensures ParsePairs(data, pos, kt, et, |es|, i) == Done(OverlayEntries(kt, et, es, i), pos + |PairsFrame(kt, et, es, i)|)
    decreases TMap(kt, et), 1, |es| - i, 0
  {
    PairsExact(data, q, kt, et, es, i + 1);
    PairsCons(data, pos, kt, et, es, i, x, q);
  }

  /** Pair i decoded, then the pairs after it decoded: the pairs i.. decoded. */
  lemma PairsCons(data: seq<byte>, pos: nat, kt: Type, et: Type, es: seq<Entry>, i: nat, x: Entry, q: nat)
    requires EntriesEncodable(kt, et, es) && i < |es|
    requires pos <= q <= |data| && ParsePair(data, pos, kt, et) == Done(x, q)
    requires OverlayEntries(kt, et, es, i) == [x] + OverlayEntries(kt, et, es, i + 1)
    requires pos + |PairsFrame(kt, et, es, i)| == q + |PairsFrame(kt, et, es, i + 1)|
    requires ParsePairs(data, q, kt, et, |es|, i + 1) == Done(OverlayEntries(kt, et, es, i + 1), q + |PairsFrame(kt, et, es, i + 1)|)
    ensures ParsePairs(data, pos, kt, et, |es|, i) == Done(OverlayEntries(kt, et, es, i), pos + |PairsFrame(kt, et, es, i)|)
  {
    var zs, r := OverlayEntries(kt, et, es, i + 1), q + |PairsFrame(kt, et, es, i + 1)|;
    ParsePairsStep(data, pos, kt, et, |es|, i, x, q, zs, r);
  }

  lemma PairsNone(data: seq<byte>, pos: nat, kt: Type, et: Type, es: seq<Entry>)
    requires EntriesEncodable(kt, et, es) && pos <= |data|
    ensures ParsePairs(data, pos, kt, et, |es|, |es|) == Done(OverlayEntries(kt, et, es, |es|), pos + |PairsFrame(kt, et, es, |es|)|)
  {
  }

  /** The frames of the pairs i.. of a map: that of pair i, then those of the rest. */
  lemma PairsFrameSplit(kt: Type, et: Type, es: seq<Entry>, i: nat) returns (a: seq<byte>, b: seq<byte>)
    requires EntriesEncodable(kt, et, es) && i < |es|
    ensures EncodableEntry(kt, et, es[i])
    ensures a == EntryFrame(kt, et, es[i]) && b == PairsFrame(kt, et, es, i + 1) && PairsFrame(kt, et, es, i) == a + b
  {
    a := EntryFrame(kt, et, es[i]);
    b := PairsFrame(kt, et, es, i + 1);
  }

  lemma PairsHead(data: seq<byte>, pos: nat, kt: Type, et: Type, es: seq<Entry>, i: nat)
    requires EntriesEncodable(kt, et, es) && i < |es| && At(data, pos, PairsFrame(kt, et, es, i))
    ensures EncodableEntry(kt, et, es[i]) && At(data, pos, EntryFrame(kt, et, es[i]))
    ensures At(data, pos + |EntryFrame(kt, et, es[i])|, PairsFrame(kt, et, es, i + 1))
  {
    var a, b := PairsFrameSplit(kt, et, es, i);
    AtSplit(data, pos, a, b);
  }

  /** Pair i decodes from the head of the frame of the pairs i.., leaving those of the rest. */
  lemma PairsHeadAt(data: seq<byte>, pos: nat, kt: Type, et: Type, es: seq<Entry>, i: nat) returns (x: Entry, q: nat)
    requires EntriesEncodable(kt, et, es) && i < |es| && At(data, pos, PairsFrame(kt, et, es, i))
    ensures pos <= q <= |data| && ParsePair(data, pos, kt, et) == Done(x, q)
    ensures At(data, q, PairsFrame(kt, et, es, i + 1))
    ensures OverlayEntries(kt, et, es, i) == [x] + OverlayEntries(kt, et, es, i + 1)
    ensures pos + |PairsFrame(kt, et, es, i)| == q + |PairsFrame(kt, et, es, i + 1)|
    decreases TMap(kt, et), 0, 2
  {
    PairsHead(data, pos, kt, et, es, i);
    x, q := PairAt(data, pos, kt, et, es[i]);
    var y, p := PairsUnfold(kt, et, es, i);
  }

  /** The overlay and the frame of the pairs i.., one pair unfolded. */
  lemma PairsUnfold(kt: Type, et: Type, es: seq<Entry>, i: nat) returns (x: Entry, p: nat)
    requires EntriesEncodable(kt, et, es) && i < |es|
    ensures x == OverlayEntry(kt, et, es[i]) && OverlayEntries(kt, et, es, i) == [x] + OverlayEntries(kt, et, es, i + 1)
    ensures p == |EntryFrame(kt, et, es[i])| && |PairsFrame(kt, et, es, i)| == p + |PairsFrame(kt, et, es, i + 1)|
  {
    x := OverlayEntry(kt, et, es[i]);
    p := |EntryFrame(kt, et, es[i])|;
  }

  /** Decoding n pairs is decoding one, then n - 1 more. */
  lemma ParsePairsStep(data: seq<byte>, pos: nat, kt: Type, et: Type, n: nat, i: nat, x: Entry, p: nat, zs: seq<Entry>, r: nat)
    requires i < n && pos <= p <= |data| && ParsePair(data, pos, kt, et) == Done(x, p)
    requires ParsePairs(data, p, kt, et, n, i + 1) == Done(zs, r)
    ensures ParsePairs(data, pos, kt, et, n, i) == Done([x] + zs, r)
  {
  }

  /** PairExact, with the decoded pair and the new position as results. */
  lemma PairAt(data: seq<byte>, pos: nat, kt: Type, et: Type, e: Entry) returns (x: Entry, q: nat)
    requires EncodableEntry(kt, et, e) && At(data, pos, EntryFrame(kt, et, e))
    ensures pos <= q <= |data| && ParsePair(data, pos, kt, et) == Done(x, q)
    ensures x == OverlayEntry(kt, et, e) && q == pos + |EntryFrame(kt, et, e)|
    decreases TMap(kt, et), 0, 1
  {
    PairExact(data, pos, kt, et, e);
    x := OverlayEntry(kt, et, e);
    q := pos + |EntryFrame(kt, et, e)|;
  }

  /** Decoding the frame of entry e yields its key and value, each decoded into a zero holder. */
  lemma PairExact(data: seq<byte>, pos: nat, kt: Type, et: Type, e: Entry)
    requires EncodableEntry(kt, et, e) && At(data, pos, EntryFrame(kt, et, e))
    ensures ParsePair(data, pos, kt, et) == Done(OverlayEntry(kt, et, e), pos + |EntryFrame(kt, et, e)|)
    decreases TMap(kt, et), 0, 0
  {
    PairHalves(data, pos, kt, et, e);
    var k, p := DecodeAt(data, pos, kt, Zero(kt), e.key);
    var x, q := DecodeAt(data, p, et, Zero(et), e.val);
    PairStep(data, pos, kt, et, e, p, q, k, x);
  }

  lemma PairHalves(data: seq<byte>, pos: nat, kt: Type, et: Type, e: Entry)
    requires EncodableEntry(kt, et, e) && At(data, pos, EntryFrame(kt, et, e))
    ensures Compatible(kt, Zero(kt), e.key) && At(data, pos, Frame(kt, e.key))
    ensures Compatible(et, Zero(et), e.val) && At(data, pos + |Frame(kt, e.key)|, Frame(et, e.val))
  {
    ZeroHasType(kt);
    ZeroHasType(et);
    AtSplit(data, pos, Frame(kt, e.key), Frame(et, e.val));
  }

  /** A pair decodes as its key followed by its value. */
  lemma PairStep(data: seq<byte>, pos: nat, kt: Type, et: Type, e: Entry, p: nat, q: nat, k: Value, x: Value)
    requires EncodableEntry(kt, et, e)
    requires DecodesTo(data, pos, kt, Zero(kt), k, p) && DecodesTo(data, p, et, Zero(et), x, q)
    requires k == Overlay(kt, Zero(kt), e.key) && p == pos + |Frame(kt, e.key)|
    requires x == Overlay(et, Zero(et), e.val) && q == p + |Frame(et, e.val)|
    ensures ParsePair(data, pos, kt, et) == Done(OverlayEntry(kt, et, e), pos + |EntryFrame(kt, et, e)|)
  {
  }

  // ------------------------------------------------------ input ending inside a frame

  /** A failed read whose error is one of the two short-read errors. */
  predicate Short<T>(r: Decoded<T>) {
    r.Failed? && ShortRead(r.err)
  }

  lemma ReadU64Short(data: seq<byte>, pos: nat, n: nat)
    requires n < TWO_64 && Truncated(data, pos, U64(n))
    ensures Short(ReadU64(data, pos))
  {
  }

  /**
   * Decoding into a settable target t from input that ends inside the frame
   * of v fails with one of the short-read errors.
   */
  lemma ParseShort(data: seq<byte>, pos: nat, ty: Type, t: Value, v: Value)
    requires Compatible(ty, t, v) && Truncated(data, pos, Frame(ty, v))
    ensures Short(Parse(data, pos, ty, t, true))
    decreases ty, 3, 0
  {
    match ty
    case TString => StringShort(data, pos, t, v);
    case TInt(w) => IntShort(data, pos, w, t, v);
    case TUint(w) => UintShort(data, pos, w, t, v);
    case TStruct(fds) => StructShort(data, pos, fds, t, v);
    case TSlice(et) => SliceShort(data, pos, et, t, v);
    case TArray(n, et) => ArrayShort(data, pos, n, et, t, v);
    case TMap(kt, et) => MapShort(data, pos, kt, et, t, v);
    case TPointer(_) => assert false;
  }

  lemma StringShort(data: seq<byte>, pos: nat, t: Value, v: Value)
    requires Compatible(TString, t, v) && Truncated(data, pos, Frame(TString, v))
    ensures Short(Parse(data, pos, TString, t, true))
  {
    TruncSplit(data, pos, U64(|v.bytes|), v.bytes);
    if pos + 8 <= |data| {
      ReadU64At(data, pos, |v.bytes|);
    } else {
      ReadU64Short(data, pos, |v.bytes|);
    }
  }

  lemma IntShort(data: seq<byte>, pos: nat, w: Width, t: Value, v: Value)
    requires Compatible(TInt(w), t, v) && Truncated(data, pos, Frame(TInt(w), v))
    ensures Short(Parse(data, pos, TInt(w), t, true))
  {
    ReadU64Short(data, pos, v.i % TWO_64);
  }

  lemma UintShort(data: seq<byte>, pos: nat, w: Width, t: Value, v: Value)
    requires Compatible(TUint(w), t, v) && Truncated(data, pos, Frame(TUint(w), v))
    ensures Short(Parse(data, pos, TUint(w), t, true))
  {
    UintPattern(w, v.n);
    ReadU64Short(data, pos, v.n);
  }

  // Structs.

  lemma StructShort(data: seq<byte>, pos: nat, fds: seq<FieldDecl>, t: Value, v: Value)
    requires Compatible(TStruct(fds), t, v) && Truncated(data, pos, Frame(TStruct(fds), v))
    ensures Short(Parse(data, pos, TStruct(fds), t, true))
    decreases TStruct(fds), 2
  {
    FieldsShort(data, pos, fds, t.fields, v.fields, 0);
  }

  lemma {:induction false} FieldsShort(data: seq<byte>, pos: nat, fds: seq<FieldDecl>, ts: seq<Value>, vs: seq<Value>, i: nat)
    requires FieldsFit(fds, ts, vs) && i <= |fds| && Truncated(data, pos, FieldsFrame(fds, vs, i))
    ensures Short(ParseFields(data, pos, fds, ts, i, true))
    decreases fds, |fds| - i
  {
    if i == |fds| {
      assert false;
    } else if !fds[i].exported {
      HiddenFieldFrame(fds, vs, i);
      FieldsShort(data, pos, fds, ts, vs, i + 1);
    } else {
      var p := FieldHeadShort(data, pos, fds, ts, vs, i);
      if p <= |data| {
        var x, q := DecodeAt(data, pos, fds[i].ty, ts[i], vs[i]);
        FieldsShort(data, q, fds, ts, vs, i + 1);
        FieldsShortLater(data, pos, fds, ts, i, x, q);
      } else {
        ParseShort(data, pos, fds[i].ty, ts[i], vs[i]);
        FieldsShortFirst(data, pos, fds, ts, i);
      }
    }
  }

  lemma FieldHeadShort(data: seq<byte>, pos: nat, fds: seq<FieldDecl>, ts: seq<Value>, vs: seq<Value>, i: nat)
    returns (p: nat)
    requires FieldsFit(fds, ts, vs) && i < |fds| && fds[i].exported && Truncated(data, pos, FieldsFrame(fds, vs, i))
    ensures Compatible(fds[i].ty, ts[i], vs[i]) && p == pos + |Frame(fds[i].ty, vs[i])|
    ensures p <= |data| ==> At(data, pos, Frame(fds[i].ty, vs[i])) && Truncated(data, p, FieldsFrame(fds, vs, i + 1))
    ensures |data| < p ==> Truncated(data, pos, Frame(fds[i].ty, vs[i]))
  {
    var a, b := FieldsFrameSplit(fds, ts, vs, i);
    TruncSplit(data, pos, a, b);
    p := pos + |a|;
  }

  lemma FieldsShortLater(data: seq<byte>, pos: nat, fds: seq<FieldDecl>, ts: seq<Value>, i: nat, x: Value, q: nat)
    requires HasType(Struct(ts), TStruct(fds)) && i < |fds| && fds[i].exported && pos <= q <= |data|
    requires DecodesTo(data, pos, fds[i].ty, ts[i], x, q) && Short(ParseFields(data, q, fds, ts, i + 1, true))
    ensures Short(ParseFields(data, pos, fds, ts, i, true))
  {
  }

  lemma FieldsShortFirst(data: seq<byte>, pos: nat, fds: seq<FieldDecl>, ts: seq<Value>, i: nat)
    requires HasType(Struct(ts), TStruct(fds)) && i < |fds| && fds[i].exported && pos <= |data|
    requires Short(Parse(data, pos, fds[i].ty, ts[i], true))
    ensures Short(ParseFields(data, pos, fds, ts, i, true))
  {
  }

  // Slices and arrays.

  lemma ArrayShort(data: seq<byte>, pos: nat, n: nat, et: Type, t: Value, v: Value)
    requires Compatible(TArray(n, et), t, v) && Truncated(data, pos, Frame(TArray(n, et), v))
    ensures Short(Parse(data, pos, TArray(n, et), t, true))
    decreases TArray(n, et), 2
  {
    ListShort(data, pos, et, t.elems, v.elems, 0);
  }

  /** The count of a slice frame, and the element frames after it, when the input ends inside them. */
  lemma SliceHeadShort(data: seq<byte>, pos: nat, et: Type, v: Value) returns (zs: seq<Value>)
    requires EncodableValue(TSlice(et), v) && Truncated(data, pos, Frame(TSlice(et), v))
    ensures pos + 8 <= |data| ==> ReadU64(data, pos) == Done(|v.elems|, pos + 8)
    ensures pos + 8 <= |data| ==> Truncated(data, pos + 8, ListFrame(et, v.elems, 0))
    ensures |data| < pos + 8 ==> Short(ReadU64(data, pos))
    ensures zs == seq(|v.elems|, _ => Zero(et)) && ListFits(et, zs, v.elems)
  {
    TruncSplit(data, pos, U64(|v.elems|), ListFrame(et, v.elems, 0));
    if pos + 8 <= |data| {
      ReadU64At(data, pos, |v.elems|);
    } else {
      ReadU64Short(data, pos, |v.elems|);
    }
    zs := ZeroSlots(et, v.elems);
  }

  lemma SliceShort(data: seq<byte>, pos: nat, et: Type, t: Value, v: Value)
    requires Compatible(TSlice(et), t, v) && Truncated(data, pos, Frame(TSlice(et), v))
    ensures Short(Parse(data, pos, TSlice(et), t, true))
    decreases TSlice(et), 2
  {
    var zs := SliceHeadShort(data, pos, et, v);
    if pos + 8 <= |data| {
      ListShort(data, pos + 8, et, zs, v.elems, 0);
    }
  }

  lemma {:induction false} ListShort(data: seq<byte>, pos: nat, et: Type, ts: seq<Value>, vs: seq<Value>, i: nat)
    requires ListFits(et, ts, vs) && i <= |ts| && Truncated(data, pos, ListFrame(et, vs, i))
    ensures Short(ParseList(data, pos, et, ts, i, true))
    decreases et, 4, |ts| - i
  {
    if i == |ts| {
      assert false;
    } else {
      var p := ListHeadShort(data, pos, et, ts, vs, i);
      if p <= |data| {
        var x, q := DecodeAt(data, pos, et, ts[i], vs[i]);
        ListShort(data, q, et, ts, vs, i + 1);
        ListShortLater(data, pos, et, ts, i, x, q);
      } else {
        ParseShort(data, pos, et, ts[i], vs[i]);
        ListShortFirst(data, pos, et, ts, i);
      }
    }
  }

  lemma ListHeadShort(data: seq<byte>, pos: nat, et: Type, ts: seq<Value>, vs: seq<Value>, i: nat) returns (p: nat)
    requires ListFits(et, ts, vs) && i < |ts| && Truncated(data, pos, ListFrame(et, vs, i))
    ensures Compatible(et, ts[i], vs[i]) && p == pos + |Frame(et, vs[i])|
    ensures p <= |data| ==> At(data, pos, Frame(et, vs[i])) && Truncated(data, p, ListFrame(et, vs, i + 1))
    ensures |data| < p ==> Truncated(data, pos, Frame(et, vs[i]))
  {
    var a, b := ListFrameSplit(et, ts, vs, i);
    TruncSplit(data, pos, a, b);
    p := pos + |a|;
  }

  lemma ListShortLater(data: seq<byte>, pos: nat, et: Type, ts: seq<Value>, i: nat, x: Value, q: nat)
    requires HasType(Array(ts), TArray(|ts|, et)) && i < |ts| && pos <= q <= |data|
    requires DecodesTo(data, pos, et, ts[i], x, q) && Short(ParseList(data, q, et, ts, i + 1, true))
    ensures Short(ParseList(data, pos, et, ts, i, true))
  {
  }

  lemma ListShortFirst(data: seq<byte>, pos: nat, et: Type, ts: seq<Value>, i: nat)
    requires HasType(Array(ts), TArray(|ts|, et)) && i < |ts| && pos <= |data|
    requires Short(Parse(data, pos, et, ts[i], true))
    ensures Short(ParseList(data, pos, et, ts, i, true))
  {
  }

  // Maps.

  /** The count of a map frame, and the pair frames after it, when the input ends inside them. */
  lemma MapHeadShort(data: seq<byte>, pos: nat, kt: Type, et: Type, v: Value)
    requires EncodableValue(TMap(kt, et), v) && Truncated(data, pos, Frame(TMap(kt, et), v))
    ensures EntriesEncodable(kt, et, v.entries)
    ensures pos + 8 <= |data| ==> ReadU64(data, pos) == Done(|v.entries|, pos + 8)
    ensures pos + 8 <= |data| ==> Truncated(data, pos + 8, PairsFrame(kt, et, v.entries, 0))
    ensures |data| < pos + 8 ==> Short(ReadU64(data, pos))
  {
    MapFrameAsPairs(kt, et, v);
    TruncSplit(data, pos, U64(|v.entries|), PairsFrame(kt, et, v.entries, 0));
    if pos + 8 <= |data| {
      ReadU64At(data, pos, |v.entries|);
    } else {
      ReadU64Short(data, pos, |v.entries|);
    }
  }

  lemma MapShort(data: seq<byte>, pos: nat, kt: Type, et: Type, t: Value, v: Value)
    requires Compatible(TMap(kt, et), t, v) && Truncated(data, pos, Frame(TMap(kt, et), v))
    ensures Short(Parse(data, pos, TMap(kt, et), t, true))
    decreases TMap(kt, et), 2
  {
    MapHeadShort(data, pos, kt, et, v);
    if pos + 8 <= |data| {
      PairsShort(data, pos + 8, kt, et, v.entries, 0);
    }
  }

  lemma {:induction false} PairsShort(data: seq<byte>, pos: nat, kt: Type, et: Type, es: seq<Entry>, i: nat)
    requires EntriesEncodable(kt, et, es) && i <= |es| && Truncated(data, pos, PairsFrame(kt, et, es, i))
    ensures Short(ParsePairs(data, pos, kt, et, |es|, i))
    decreases TMap(kt, et), 1, |es| - i, 1
  {
    if i == |es| {
      assert false;
    } else {
      var p := PairsHeadShort(data, pos, kt, et, es, i);
      if p <= |data| {
        PairsShortRest(data, pos, kt, et, es, i);
      } else {
        PairShort(data, pos, kt, et, es[i]);
        PairsShortFirst(data, pos, kt, et, |es|, i);
      }
    }
  }

  /** The first of the pairs i.. is whole: it decodes, and the input ends inside the rest. */
  lemma PairsShortRest(data: seq<byte>, pos: nat, kt: Type, et: Type, es: seq<Entry>, i: nat)
    requires EntriesEncodable(kt, et, es) && i < |es| && EncodableEntry(kt, et, es[i]) && At(data, pos, EntryFrame(kt, et, es[i]))
    requires Truncated(data, pos + |EntryFrame(kt, et, es[i])|, PairsFrame(kt, et, es, i + 1))
    ensures Short(ParsePairs(data, pos, kt, et, |es|, i))
    decreases TMap(kt, et), 1, |es| - i, 0
  {
    var x, q := PairAt(data, pos, kt, et, es[i]);
    PairsShort(data, q, kt, et, es, i + 1);
    PairsShortLater(data, pos, kt, et, |es|, i, x, q);
  }

  lemma PairsHeadShort(data: seq<byte>, pos: nat, kt: Type, et: Type, es: seq<Entry>, i: nat) returns (p: nat)
    requires EntriesEncodable(kt, et, es) && i < |es| && Truncated(data, pos, PairsFrame(kt, et, es, i))
    ensures EncodableEntry(kt, et, es[i]) && p == pos + |EntryFrame(kt, et, es[i])|
    ensures p <= |data| ==> At(data, pos, EntryFrame(kt, et, es[i])) && Truncated(data, p, PairsFrame(kt, et, es, i + 1))
    ensures |data| < p ==> Truncated(data, pos, EntryFrame(kt, et, es[i]))
  {
    var a, b := PairsFrameSplit(kt, et, es, i);
    TruncSplit(data, pos, a, b);
    p := pos + |a|;
  }

  lemma PairsShortLater(data: seq<byte>, pos: nat, kt: Type, et: Type, n: nat, i: nat, x: Entry, q: nat)
    requires i < n && pos <= q <= |data| && ParsePair(data, pos, kt, et) == Done(x, q)
    requires Short(ParsePairs(data, q, kt, et, n, i + 1))
    ensures Short(ParsePairs(data, pos, kt, et, n, i))
  {
  }

  lemma PairsShortFirst(data: seq<byte>, pos: nat, kt: Type, et: Type, n: nat, i: nat)
    requires i < n && pos <= |data| && Short(ParsePair(data, pos, kt, et))
    ensures Short(ParsePairs(data, pos, kt, et, n, i))
  {
  }

  lemma PairShort(data: seq<byte>, pos: nat, kt: Type, et: Type, e: Entry)
    requires EncodableEntry(kt, et, e) && Truncated(data, pos, EntryFrame(kt, et, e))
    ensures Short(ParsePair(data, pos, kt, et))
    decreases TMap(kt, et), 0, 1
  {
    var p := PairHalvesShort(data, pos, kt, et, e);
    if p <= |data| {
      PairShortInValue(data, pos, kt, et, e);
    } else {
      ParseShort(data, pos, kt, Zero(kt), e.key);
      PairShortKey(data, pos, kt, et);
    }
  }

  /** The key of e is whole and the input ends inside its value. */
  lemma PairShortInValue(data: seq<byte>, pos: nat, kt: Type, et: Type, e: Entry)
    requires Compatible(kt, Zero(kt), e.key) && At(data, pos, Frame(kt, e.key))
    requires Compatible(et, Zero(et), e.val) && Truncated(data, pos + |Frame(kt, e.key)|, Frame(et, e.val))
    ensures Short(ParsePair(data, pos, kt, et))
    decreases TMap(kt, et), 0, 0
  {
    var k, q := DecodeAt(data, pos, kt, Zero(kt), e.key);
    ParseShort(data, q, et, Zero(et), e.val);
    PairShortValue(data, pos, kt, et, k, q);
  }

  lemma PairHalvesShort(data: seq<byte>, pos: nat, kt: Type, et: Type, e: Entry) returns (p: nat)
    requires EncodableEntry(kt, et, e) && Truncated(data, pos, EntryFrame(kt, et, e))
    ensures Compatible(kt, Zero(kt), e.key) && Compatible(et, Zero(et), e.val) && p == pos + |Frame(kt, e.key)|
    ensures p <= |data| ==> At(data, pos, Frame(kt, e.key)) && Truncated(data, p, Frame(et, e.val))
    ensures |data| < p ==> Truncated(data, pos, Frame(kt, e.key))
  {
    ZeroHasType(kt);
    ZeroHasType(et);
    TruncSplit(data, pos, Frame(kt, e.key), Frame(et, e.val));
    p := pos + |Frame(kt, e.key)|;
  }

  lemma PairShortValue(data: seq<byte>, pos: nat, kt: Type, et: Type, k: Value, q: nat)
    requires q <= |data| && DecodesTo(data, pos, kt, Zero(kt), k, q) && HasType(Zero(et), et)
    requires Short(Parse(data, q, et, Zero(et), true))
    ensures Short(ParsePair(data, pos, kt, et))
  {
  }

  lemma PairShortKey(data: seq<byte>, pos: nat, kt: Type, et: Type)
    requires pos <= |data| && HasType(Zero(kt), kt) && Short(Parse(data, pos, kt, Zero(kt), true))
    ensures Short(ParsePair(data, pos, kt, et))
  {
  }
}
