/**
 * `DecodeValue` as the Go code runs it: a reader whose position advances
 * with every `io.ReadFull`, and loops that decode field after field, slot
 * after slot and pair after pair, stopping at the first error. The target
 * is passed in as a value and its new contents are returned.
 */
module Decoder {
  import opened Wire
  import opened Shapes
  import opened Codec

  /** What a decode call returns: the target's new contents, or the error. */
  datatype Result<T> = Ok(value: T) | Err(err: Error)

  /** res and the reader's position are what the specification outcome d says. */
  predicate Agrees<T(==)>(res: Result<T>, pos: nat, d: Decoded<T>) {
    match d
    case Done(x, p) => res == Ok(x) && pos == p
    case Failed(e) => res == Err(e)
  }

  /** A `bytes.Reader` over data: the bytes, and how many of them have been read. */
  class Reader {
    const data: seq<byte>
    var pos: nat

    ghost predicate Valid()
      reads this
    {
      pos <= |data|
    }

    /** `bytes.NewReader(b)`. */
    constructor(b: seq<byte>)
      ensures data == b && pos == 0 && Valid()
    {
      data := b;
      pos := 0;
    }

    /**
     * `io.ReadFull` of k bytes. On a short read the reader has handed out
     * everything it had, so it stands at the end.
     */
    method ReadFull(k: nat) returns (res: Result<seq<byte>>)
      requires Valid()
      modifies this
      ensures Valid()
      ensures Agrees(res, pos, Codec.ReadFull(data, old(pos), k))
      ensures res.Err? ==> pos == |data|
    {
      if pos + k <= |data| {
        res := Ok(data[pos..pos + k]);
        pos := pos + k;
      } else {
        res := if pos == |data| then Err(ErrEOF) else Err(ErrUnexpectedEOF);
        pos := |data|;
      }
    }

    /** An 8-byte field, read as `binary.LittleEndian.Uint64`. */
    method ReadU64() returns (res: Result<nat>)
      requires Valid()
      modifies this
      ensures Valid()
      ensures Agrees(res, pos, Codec.ReadU64(data, old(pos)))
      ensures res.Err? ==> pos == |data|
    {
      var l := ReadFull(8);
      if l.Err? {
        return Err(l.err);
      }
      U64Bound(l.value);
      res := Ok(FromLE(l.value));
    }
  }

  /**
   * Decoding from r into target t of type ty, where `settable` is whether
   * the target `CanSet`. A string or integer target that cannot be set is
   * refused before anything is read.
   */
  method DecodeValue(r: Reader, ty: Type, t: Value, settable: bool) returns (res: Result<Value>)
    requires r.Valid() && HasType(t, ty)
    modifies r
    ensures r.Valid()
    ensures Agrees(res, r.pos, Parse(r.data, old(r.pos), ty, t, settable))
    ensures !settable && (ty.TString? || ty.TInt? || ty.TUint?) ==> res == Err(ErrCantSet) && r.pos == old(r.pos)
    decreases ty, 4
  {
    match ty {
      case TString =>
        if !settable {
          return Err(ErrCantSet);
        }
        res := DecodeString(r);
      case TStruct(fds) =>
        var fs := DecodeFields(r, fds, t.fields, settable);
        if fs.Err? {
          return Err(fs.err);
        }
        res := Ok(Struct(fs.value));
      case TSlice(et) =>
        res := DecodeSlice(r, et, t.isNil, settable);
      case TArray(_, et) =>
        var es := DecodeElems(r, et, t.elems, settable);
        if es.Err? {
          return Err(es.err);
        }
        res := Ok(Array(es.value));
      case TMap(kt, et) =>
        res := DecodeMap(r, kt, et, t.isNil, settable);
      case TInt(w) =>
        if !settable {
          return Err(ErrCantSet);
        }
        var l := r.ReadU64();
        if l.Err? {
          return Err(l.err);
        }
        res := Ok(Int(ToSigned(l.value, w)));
      case TUint(w) =>
        if !settable {
          return Err(ErrCantSet);
        }
        var l := r.ReadU64();
        if l.Err? {
          return Err(l.err);
        }
        res := Ok(Uint(Truncate(l.value, w)));
      case TPointer(et) =>
        if t.target.None? {
          // Elem of a nil pointer is the invalid Value, whose Type panics
          return Err(ErrPanic);
        }
        var x := DecodeValue(r, et, t.target.value, true);
        if x.Err? {
          return Err(x.err);
        }
        res := Ok(Pointer(Some(x.value)));
    }
  }

  /** The string case: a length, then that many bytes. */
  method DecodeString(r: Reader) returns (res: Result<Value>)
    requires r.Valid()
    modifies r
    ensures r.Valid()
    ensures Agrees(res, r.pos, ParseString(r.data, old(r.pos)))
  {
    var l := r.ReadU64();
    if l.Err? {
      return Err(l.err);
    }
    var b := r.ReadFull(l.value);
    if b.Err? {
      return Err(b.err);
    }
    res := Ok(Str(b.value));
  }

  /** The slice case: a count, then that many zero elements, each decoded in turn. */
  method DecodeSlice(r: Reader, et: Type, isNil: bool, settable: bool) returns (res: Result<Value>)
    requires r.Valid()
    modifies r
    ensures r.Valid()
    ensures Agrees(res, r.pos, ParseSlice(r.data, old(r.pos), et, isNil, settable))
    decreases TSlice(et), 2
  {
    var l := r.ReadU64();
    if l.Err? {
      return Err(l.err);
    }
    var n := l.value;
    if !settable || n >= MAX_LEN {
      // Grow panics on a slice that cannot be set and on a negative int(length)
      return Err(ErrPanic);
    }
    // Clear, Grow and SetLen: n zero elements
    ZeroHasType(et);
    var es := DecodeElems(r, et, seq(n, _ => Zero(et)), true);
    if es.Err? {
      return Err(es.err);
    }
    // Grow(0) leaves a nil slice nil
    res := Ok(Slice(isNil && n == 0, es.value));
  }

  /** The map case: a count, allocation of a nil map, `Clear`, then the pairs. */
  method DecodeMap(r: Reader, kt: Type, et: Type, isNil: bool, settable: bool) returns (res: Result<Value>)
    requires r.Valid()
    modifies r
    ensures r.Valid()
    ensures Agrees(res, r.pos, ParseMap(r.data, old(r.pos), kt, et, isNil, settable))
    decreases TMap(kt, et), 3
  {
    var l := r.ReadU64();
    if l.Err? {
      return Err(l.err);
    }
    if isNil && !settable {
      // Set of a fresh map panics when the map cannot be set
      return Err(ErrPanic);
    }
    var es := DecodeEntries(r, kt, et, l.value);
    if es.Err? {
      return Err(es.err);
    }
    res := Ok(Map(false, es.value));
  }

  /** The struct case: each field that `CanInterface`, in declaration order; the others keep their contents. */
  method DecodeFields(r: Reader, fds: seq<FieldDecl>, ts: seq<Value>, settable: bool) returns (res: Result<seq<Value>>)
    requires r.Valid() && HasType(Struct(ts), TStruct(fds))
    modifies r
    ensures r.Valid()
    ensures Agrees(res, r.pos, ParseFields(r.data, old(r.pos), fds, ts, 0, settable))
    decreases fds, 1
  {
    var fs := ts;
    var i := 0;
    PrependNil(ParseFields(r.data, r.pos, fds, ts, 0, settable));
    while i < |fds|
      invariant i <= |fds| == |fs| && fs[i..] == ts[i..]
      invariant r.Valid()
      invariant Prepend(fs[..i], ParseFields(r.data, r.pos, fds, ts, i, settable))
             == ParseFields(r.data, old(r.pos), fds, ts, 0, settable)
    {
      var x := DecodeField(r, fds, ts, fs, i, settable);
      if x.Err? {
        return Err(x.err);
      }
      fs := x.value;
      i := i + 1;
    }
    assert fs[..i] + [] == fs;
    res := Ok(fs);
  }

  /** One field: field i of fs, decoded in place if it `CanInterface`, skipped otherwise. */
  method DecodeField(r: Reader, fds: seq<FieldDecl>, ts: seq<Value>, fs: seq<Value>, i: nat, settable: bool)
    returns (res: Result<seq<Value>>)
    requires r.Valid() && HasType(Struct(ts), TStruct(fds))
    requires i < |fds| == |fs| && fs[i..] == ts[i..]
    modifies r
    ensures r.Valid()
    ensures res.Err? ==> Prepend(fs[..i], ParseFields(r.data, old(r.pos), fds, ts, i, settable)) == Failed(res.err)
    ensures res.Ok? ==>
      |res.value| == |fds| && res.value[i + 1..] == ts[i + 1..] &&
      Prepend(res.value[..i + 1], ParseFields(r.data, r.pos, fds, ts, i + 1, settable))
        == Prepend(fs[..i], ParseFields(r.data, old(r.pos), fds, ts, i, settable))
    decreases fds, 0
  {
    assert fs[i] == fs[i..][0];
    ghost var rest := fs[i + 1..];
    assert rest == ts[i + 1..] by { assert fs[i + 1..] == fs[i..][1..]; }
    var fs' := fs;
    if fds[i].exported {
      var x := DecodeValue(r, fds[i].ty, fs[i], settable);
      if x.Err? {
        return Err(x.err);
      }
      fs' := fs[i := x.value];
    }
    assert fs'[i + 1..] == rest;
    PrependPrepend(fs[..i], [fs'[i]], ParseFields(r.data, r.pos, fds, ts, i + 1, settable));
    assert fs'[..i + 1] == fs[..i] + [fs'[i]];
    res := Ok(fs');
  }

  /** The slice and array cases: every element slot, in index order. */
  method DecodeElems(r: Reader, et: Type, ts: seq<Value>, settable: bool) returns (res: Result<seq<Value>>)
    requires r.Valid() && HasType(Array(ts), TArray(|ts|, et))
    modifies r
    ensures r.Valid()
    ensures Agrees(res, r.pos, ParseList(r.data, old(r.pos), et, ts, 0, settable))
    decreases et, 6
  {
    var es := ts;
    var i := 0;
    PrependNil(ParseList(r.data, r.pos, et, ts, 0, settable));
    while i < |ts|
      invariant i <= |ts| == |es| && es[i..] == ts[i..]
      invariant r.Valid()
      invariant Prepend(es[..i], ParseList(r.data, r.pos, et, ts, i, settable))
             == ParseList(r.data, old(r.pos), et, ts, 0, settable)
    {
      var x := DecodeElem(r, et, ts, es, i, settable);
      if x.Err? {
        return Err(x.err);
      }
      es := x.value;
      i := i + 1;
    }
    assert es[..i] + [] == es;
    res := Ok(es);
  }

  /** One element slot: slot i of es, decoded in place. */
  method DecodeElem(r: Reader, et: Type, ts: seq<Value>, es: seq<Value>, i: nat, settable: bool)
    returns (res: Result<seq<Value>>)
    requires r.Valid() && HasType(Array(ts), TArray(|ts|, et))
    requires i < |ts| == |es| && es[i..] == ts[i..]
    modifies r
    ensures r.Valid()
    ensures res.Err? ==> Prepend(es[..i], ParseList(r.data, old(r.pos), et, ts, i, settable)) == Failed(res.err)
    ensures res.Ok? ==>
      |res.value| == |ts| && res.value[i + 1..] == ts[i + 1..] &&
      Prepend(res.value[..i + 1], ParseList(r.data, r.pos, et, ts, i + 1, settable))
        == Prepend(es[..i], ParseList(r.data, old(r.pos), et, ts, i, settable))
    decreases et, 5
  {
    assert es[i] == es[i..][0];
    var x := DecodeValue(r, et, es[i], settable);
    if x.Err? {
      return Err(x.err);
    }
    ghost var rest := es[i + 1..];
    assert rest == ts[i + 1..] by { assert es[i + 1..] == es[i..][1..]; }
    var es' := es[i := x.value];
    assert es'[i + 1..] == rest;
    PrependPrepend(es[..i], [x.value], ParseList(r.data, r.pos, et, ts, i + 1, settable));
    assert es'[..i + 1] == es[..i] + [x.value];
    res := Ok(es');
  }

  /**
   * The map case after the count: the map is cleared, then n times a pair is
   * decoded and stored with `SetMapIndex`.
   */
  method DecodeEntries(r: Reader, kt: Type, et: Type, n: nat) returns (res: Result<seq<Entry>>)
    requires r.Valid()
    modifies r
    ensures r.Valid()
    ensures match ParsePairs(r.data, old(r.pos), kt, et, n, 0)
      case Done(ps, p) => res == Ok(InsertAll(ps)) && r.pos == p
      case Failed(e) => res == Err(e)
    decreases TMap(kt, et), 2
  {
    var es: seq<Entry> := [];
    ghost var ps: seq<Entry> := [];
    var j := 0;
    PrependNil(ParsePairs(r.data, r.pos, kt, et, n, 0));
    while j < n
      invariant j <= n && r.Valid() && es == InsertAll(ps)
      invariant Prepend(ps, ParsePairs(r.data, r.pos, kt, et, n, j)) == ParsePairs(r.data, old(r.pos), kt, et, n, 0)
    {
      var e := DecodeNextPair(r, kt, et, ps, n, j);
      if e.Err? {
        return Err(e.err);
      }
      InsertAllSnoc(ps, e.value);
      es := Insert(es, e.value);
      ps := ps + [e.value];
      j := j + 1;
    }
    assert ps + [] == ps;
    res := Ok(es);
  }

  /** Pair j of n, after the pairs ps. */
  method DecodeNextPair(r: Reader, kt: Type, et: Type, ghost ps: seq<Entry>, n: nat, j: nat) returns (res: Result<Entry>)
    requires r.Valid() && j < n
    modifies r
    ensures r.Valid()
    ensures res.Err? ==> Prepend(ps, ParsePairs(r.data, old(r.pos), kt, et, n, j)) == Failed(res.err)
    ensures res.Ok? ==>
      Prepend(ps + [res.value], ParsePairs(r.data, r.pos, kt, et, n, j + 1))
        == Prepend(ps, ParsePairs(r.data, old(r.pos), kt, et, n, j))
    decreases TMap(kt, et), 1
  {
    res := DecodePair(r, kt, et);
    if res.Ok? {
      PrependPrepend(ps, [res.value], ParsePairs(r.data, r.pos, kt, et, n, j + 1));
    }
  }

  /** A key decoded into a fresh zero key (`reflect.New`), then a value into a fresh zero element. */
  method DecodePair(r: Reader, kt: Type, et: Type) returns (res: Result<Entry>)
    requires r.Valid()
    modifies r
    ensures r.Valid()
    ensures Agrees(res, r.pos, ParsePair(r.data, old(r.pos), kt, et))
    decreases TMap(kt, et), 0
  {
    var k := DecodeFresh(r, kt);
    if k.Err? {
      return Err(k.err);
    }
    var x := DecodeFresh(r, et);
    if x.Err? {
      return Err(x.err);
    }
    res := Ok(Entry(k.value, x.value));
  }

  /** `DecodeValue(r, reflect.New(ty))`: a fresh zero holder of type ty, which can be set. */
  method DecodeFresh(r: Reader, ty: Type) returns (res: Result<Value>)
    requires r.Valid()
    modifies r
    ensures r.Valid()
    ensures Agrees(res, r.pos, ParseFresh(r.data, old(r.pos), ty))
    decreases ty, 5
  {
    ZeroHasType(ty);
    res := DecodeValue(r, ty, Zero(ty), true);
  }

  /** `Decode(b, a)`: a fresh reader over b, and the value a itself, which cannot be set. */
  method Decode(b: seq<byte>, ty: Type, t: Value) returns (res: Result<Value>)
    requires HasType(t, ty)
    ensures match Parse(b, 0, ty, t, false)
      case Done(x, _) => res == Ok(x)
      case Failed(e) => res == Err(e)
  {
    var r := new Reader(b);
    res := DecodeValue(r, ty, t, false);
  }
}
