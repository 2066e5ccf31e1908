/**
 * The wire format as two specification functions: `Frame` gives the bytes
 * `EncodeValue` produces for a value, and `Parse` gives what `DecodeValue`
 * does when the reader stands at `pos`: the new contents of the target and
 * the reader's new position, or the error that ends the traversal.
 */
module Codec {
  import opened Wire
  import opened Shapes

  // ---------------------------------------------------------------- encoding

  /** The wire frame of v: length- or count-prefixed where the kind calls for it. */
  function Frame(ty: Type, v: Value): (r: seq<byte>)
    requires EncodableValue(ty, v)
    ensures ty.TInt? || ty.TUint? ==> |r| == 8
    decreases ty, 1
  {
    match ty
    case TString => U64(|v.bytes|) + v.bytes
    case TInt(_) => U64(v.i % TWO_64)
    case TUint(_) => U64(v.n)
    case TStruct(fds) => FieldsFrame(fds, v.fields, 0)
    case TSlice(et) => U64(|v.elems|) + ListFrame(et, v.elems, 0)
    case TArray(_, et) => ListFrame(et, v.elems, 0)
    case TMap(kt, et) => U64(|v.entries|) + EntriesFrame(kt, et, v.entries, |v.entries|)
    case TPointer(_) => [] // excluded by Encodable
  }

  /** The frames of the exported fields i.. of a struct; unexported fields contribute nothing. */
  function FieldsFrame(fds: seq<FieldDecl>, vs: seq<Value>, i: nat): seq<byte>
    requires HasType(Struct(vs), TStruct(fds)) && Encodable(TStruct(fds)) && i <= |fds|
    decreases fds, |fds| - i
  {
    if i == |fds| then []
    else (if fds[i].exported then Frame(fds[i].ty, vs[i]) else []) + FieldsFrame(fds, vs, i + 1)
  }

  /** The frames of the elements i.. of a slice or an array, in index order. */
  function ListFrame(et: Type, vs: seq<Value>, i: nat): seq<byte>
    requires HasType(Array(vs), TArray(|vs|, et)) && Encodable(et) && i <= |vs|
    decreases et, 2, |vs| - i
  {
    if i == |vs| then [] else Frame(et, vs[i]) + ListFrame(et, vs, i + 1)
  }

  /** Key frame, then value frame, for the first n entries of a map, in iteration order. */
  function EntriesFrame(kt: Type, et: Type, es: seq<Entry>, n: nat): seq<byte>
    requires EntriesHaveType(es, kt, et) && Encodable(kt) && Encodable(et) && n <= |es|
    decreases TMap(kt, et), 1, n
  {
    if n == 0 then [] else EntriesFrame(kt, et, es, n - 1) + EntryFrame(kt, et, es[n - 1])
  }

  /** One map entry: the key's frame, then the value's. */
  function EntryFrame(kt: Type, et: Type, e: Entry): seq<byte>
    requires EncodableEntry(kt, et, e)
    decreases TMap(kt, et), 0
  {
    Frame(kt, e.key) + Frame(et, e.val)
  }

  // ---------------------------------------------------------------- decoding

  /**
   * `ErrCantSet`, the two short-read errors of `io.ReadFull`, and `ErrPanic`
   * for the points where the Go code panics instead of returning an error.
   */
  datatype Error = ErrCantSet | ErrEOF | ErrUnexpectedEOF | ErrPanic

  /** A decoded value and the reader's position after it, or the error that ended decoding. */
  datatype Decoded<T> = Done(value: T, pos: nat) | Failed(err: Error)

  predicate ShortRead(e: Error) {
    e == ErrEOF || e == ErrUnexpectedEOF
  }

  /**
   * `io.ReadFull` of k bytes from a `bytes.Reader` at pos: the k bytes, or
   * `EOF` when nothing was left and `ErrUnexpectedEOF` when only part was.
   */
  function ReadFull(data: seq<byte>, pos: nat, k: nat): (r: Decoded<seq<byte>>)
    requires pos <= |data|
    ensures r.Done? <==> pos + k <= |data|
    ensures r.Done? ==> r.pos == pos + k && r.value == data[pos..pos + k]
    ensures r.Failed? ==> ShortRead(r.err) && (r.err == ErrEOF <==> pos == |data|)
  {
    if pos + k <= |data| then Done(data[pos..pos + k], pos + k)
    else if pos == |data| then Failed(ErrEOF)
    else Failed(ErrUnexpectedEOF)
  }

  /** An 8-byte length, count or integer field. */
  function ReadU64(data: seq<byte>, pos: nat): (r: Decoded<nat>)
    requires pos <= |data|
    ensures r.Done? <==> pos + 8 <= |data|
    ensures r.Done? ==> r.value == FromLE(data[pos..pos + 8]) && r.value < TWO_64 && r.pos == pos + 8
    ensures r.Failed? ==> ShortRead(r.err)
  {
    match ReadFull(data, pos, 8)
    case Failed(e) => Failed(e)
    case Done(b, p) => U64Bound(b); Done(FromLE(b), p)
  }

  /**
   * The low bits of n that an integer of width w keeps: `SetUint(n)` on a
   * narrower kind stores the truncated value. Values of the width pass whole.
   */
  function Truncate(n: nat, w: Width): (r: nat)
    ensures r < Modulus(w) && (n < Modulus(w) ==> r == n)
  {
    match w
    case W8 => n % 0x100
    case W16 => n % 0x1_0000
    case W32 => n % 0x1_0000_0000
    case W64 => n % TWO_64
  }

  /** `SetInt(int64(n))` on an integer of width w: two's complement, truncated to the width. */
  function ToSigned(n: nat, w: Width): int {
    var m := Truncate(n, w);
    if m < Modulus(w) / 2 then m else m - Modulus(w)
  }

  function Prepend<T>(xs: seq<T>, r: Decoded<seq<T>>): Decoded<seq<T>> {
    match r
    case Done(ys, p) => Done(xs + ys, p)
    case Failed(e) => Failed(e)
  }

  lemma PrependNil<T>(r: Decoded<seq<T>>)
    ensures Prepend([], r) == r
  {
    if r.Done? {
      assert [] + r.value == r.value;
    }
  }

  lemma PrependPrepend<T>(xs: seq<T>, ys: seq<T>, r: Decoded<seq<T>>)
    ensures Prepend(xs, Prepend(ys, r)) == Prepend(xs + ys, r)
  {
    if r.Done? {
      assert xs + (ys + r.value) == (xs + ys) + r.value;
    }
  }

  /**
   * Decoding into target t of type ty; `settable` is `CanSet` of the target.
   * The outcome's value is the target's new contents.
   */
  function Parse(data: seq<byte>, pos: nat, ty: Type, t: Value, settable: bool): (r: Decoded<Value>)
    requires pos <= |data| && HasType(t, ty)
    ensures r.Done? ==> pos <= r.pos <= |data|
    ensures settable && r.Failed? ==> r.err != ErrCantSet
    decreases ty, 3
  {
    match ty
    case TString => if !settable then Failed(ErrCantSet) else ParseString(data, pos)
    case TInt(w) => if !settable then Failed(ErrCantSet) else ParseInt(data, pos, w)
    case TUint(w) => if !settable then Failed(ErrCantSet) else ParseUint(data, pos, w)
    case TStruct(fds) =>
      (match ParseFields(data, pos, fds, t.fields, 0, settable)
       case Failed(e) => Failed(e)
       case Done(fs, p) => Done(Struct(fs), p))
    case TSlice(et) => ParseSlice(data, pos, et, t.isNil, settable)
    case TArray(_, et) =>
      (match ParseList(data, pos, et, t.elems, 0, settable)
       case Failed(e) => Failed(e)
       case Done(es, p) => Done(Array(es), p))
    case TMap(kt, et) => ParseMap(data, pos, kt, et, t.isNil, settable)
    case TPointer(et) =>
      // Elem of a nil pointer is the invalid Value, whose Type panics
      if t.target.None? then Failed(ErrPanic)
      else
        (match Parse(data, pos, et, t.target.value, true)
         case Failed(e) => Failed(e)
         case Done(x, p) => Done(Pointer(Some(x)), p))
  }

  /** A length, then that many bytes (`SetString`). */
  function ParseString(data: seq<byte>, pos: nat): (r: Decoded<Value>)
    requires pos <= |data|
    ensures r.Done? <==> pos + 8 <= |data| && pos + 8 + FromLE(data[pos..pos + 8]) <= |data|
    ensures r.Done? ==> r.pos == pos + 8 + FromLE(data[pos..pos + 8]) && r.value == Str(data[pos + 8..r.pos])
    ensures r.Failed? ==> ShortRead(r.err)
  {
    match ReadU64(data, pos)
    case Failed(e) => Failed(e)
    case Done(n, p) =>
      (match ReadFull(data, p, n)
       case Failed(e) => Failed(e)
       case Done(b, q) => Done(Str(b), q))
  }

  /** An 8-byte field, stored with `SetInt(int64(...))`. */
  function ParseInt(data: seq<byte>, pos: nat, w: Width): (r: Decoded<Value>)
    requires pos <= |data|
    ensures r.Done? <==> pos + 8 <= |data|
    ensures r.Done? ==> r.pos == pos + 8 && HasType(r.value, TInt(w))
    ensures r.Failed? ==> ShortRead(r.err)
  {
    match ReadU64(data, pos)
    case Failed(e) => Failed(e)
    case Done(n, p) => Done(Int(ToSigned(n, w)), p)
  }

  /** An 8-byte field, stored with `SetUint`, which keeps the low bits of the width. */
  function ParseUint(data: seq<byte>, pos: nat, w: Width): (r: Decoded<Value>)
    requires pos <= |data|
    ensures r.Done? <==> pos + 8 <= |data|
    ensures r.Done? ==> r.pos == pos + 8 && HasType(r.value, TUint(w))
    ensures r.Failed? ==> ShortRead(r.err)
  {
    match ReadU64(data, pos)
    case Failed(e) => Failed(e)
    case Done(n, p) => Done(Uint(Truncate(n, w)), p)
  }

  /**
   * A count, then `Clear`, `Grow` and `SetLen` to that many zero elements, then each element.
   * `Grow` allocates only when the length must grow, so a nil slice stays nil for a count of 0.
   */
  function ParseSlice(data: seq<byte>, pos: nat, et: Type, isNil: bool, settable: bool): (r: Decoded<Value>)
    requires pos <= |data|
    ensures |data| < pos + 8 ==> r.Failed? && ShortRead(r.err)
    ensures pos + 8 <= |data| && !settable ==> r == Failed(ErrPanic)
    ensures r.Done? ==> pos + 8 <= r.pos <= |data| && r.value.Slice?
    ensures r.Done? ==> |r.value.elems| == FromLE(data[pos..pos + 8])
    ensures r.Done? ==> (r.value.isNil <==> isNil && r.value.elems == [])
    ensures r.Failed? ==> r.err != ErrCantSet
    decreases TSlice(et), 2
  {
    match ReadU64(data, pos)
    case Failed(e) => Failed(e)
    case Done(n, p) =>
      // Grow panics on a slice that cannot be set and on a negative int(length)
      if !settable || n >= MAX_LEN then Failed(ErrPanic)
      else
        ZeroHasType(et);
        (match ParseList(data, p, et, seq(n, _ => Zero(et)), 0, true)
         case Failed(e) => Failed(e)
         case Done(es, q) => Done(Slice(isNil && n == 0, es), q))
  }

  /** A count, then allocation if the map is nil, `Clear`, and that many pairs stored in turn. */
  function ParseMap(data: seq<byte>, pos: nat, kt: Type, et: Type, isNil: bool, settable: bool): (r: Decoded<Value>)
    requires pos <= |data|
    ensures |data| < pos + 8 ==> r.Failed? && ShortRead(r.err)
    ensures pos + 8 <= |data| && isNil && !settable ==> r == Failed(ErrPanic)
    ensures r.Done? ==> pos + 8 <= r.pos <= |data| && r.value.Map? && !r.value.isNil && DistinctKeys(r.value.entries)
    ensures r.Failed? ==> r.err != ErrCantSet
    decreases TMap(kt, et), 2
  {
    match ReadU64(data, pos)
    case Failed(e) => Failed(e)
    case Done(n, p) =>
      // allocating a nil map with Set panics when the map cannot be set
      if isNil && !settable then Failed(ErrPanic)
      else
        (match ParsePairs(data, p, kt, et, n, 0)
         case Failed(e) => Failed(e)
         case Done(ps, q) => InsertAllFacts(ps); Done(Map(false, InsertAll(ps)), q))
  }

  /**
   * A decoded map holds, for each key read, the value of the last pair with
   * that key: `SetMapIndex` of a later duplicate overwrites the earlier one.
   */
  lemma MapKeepsLastPair(data: seq<byte>, pos: nat, kt: Type, et: Type, isNil: bool, settable: bool)
    requires pos <= |data| && ParseMap(data, pos, kt, et, isNil, settable).Done?
    ensures ReadU64(data, pos).Done?
    ensures ParsePairs(data, pos + 8, kt, et, ReadU64(data, pos).value, 0).Done?
    ensures var ps := ParsePairs(data, pos + 8, kt, et, ReadU64(data, pos).value, 0).value;
            var m := ParseMap(data, pos, kt, et, isNil, settable).value;
            m.Map? && !m.isNil && DistinctKeys(m.entries) && Keys(m.entries) == Keys(ps) && MapOf(m.entries) == MapOf(ps)
  {
    var ps := ParsePairs(data, pos + 8, kt, et, ReadU64(data, pos).value, 0).value;
    InsertAllFacts(ps);
    MapOfInsertAll(ps);
  }

  /** Decoding into the fields i.. of a struct, skipping (and keeping) the unexported ones. */
  function ParseFields(data: seq<byte>, pos: nat, fds: seq<FieldDecl>, ts: seq<Value>, i: nat, settable: bool)
    : (r: Decoded<seq<Value>>)
    requires pos <= |data| && HasType(Struct(ts), TStruct(fds)) && i <= |fds|
    ensures r.Done? ==> pos <= r.pos <= |data| && |r.value| == |fds| - i
    ensures settable && r.Failed? ==> r.err != ErrCantSet
    decreases fds, |fds| - i
  {
    if i == |fds| then Done([], pos)
    else if !fds[i].exported then Prepend([ts[i]], ParseFields(data, pos, fds, ts, i + 1, settable))
    else
      match Parse(data, pos, fds[i].ty, ts[i], settable)
      case Failed(e) => Failed(e)
      case Done(f, p) => Prepend([f], ParseFields(data, p, fds, ts, i + 1, settable))
  }

  /** Decoding into the element slots i.. of a slice or an array, in index order. */
  function ParseList(data: seq<byte>, pos: nat, et: Type, ts: seq<Value>, i: nat, settable: bool)
    : (r: Decoded<seq<Value>>)
    requires pos <= |data| && HasType(Array(ts), TArray(|ts|, et)) && i <= |ts|
    ensures r.Done? ==> pos <= r.pos <= |data| && |r.value| == |ts| - i
    ensures settable && r.Failed? ==> r.err != ErrCantSet
    decreases et, 4, |ts| - i
  {
    if i == |ts| then Done([], pos)
    else
      match Parse(data, pos, et, ts[i], settable)
      case Failed(e) => Failed(e)
      case Done(x, p) => Prepend([x], ParseList(data, p, et, ts, i + 1, settable))
  }

  /**
   * Pairs i.. of a map of n, each decoded into fresh zero holders (`reflect.New`
   * of the key and of the element type, dereferenced, hence settable).
   */
  function ParsePairs(data: seq<byte>, pos: nat, kt: Type, et: Type, n: nat, i: nat): (r: Decoded<seq<Entry>>)
    requires pos <= |data| && i <= n
    ensures r.Done? ==> pos <= r.pos <= |data| && |r.value| == n - i
    ensures r.Failed? ==> r.err != ErrCantSet
    decreases TMap(kt, et), 1, n - i
  {
    if i == n then Done([], pos)
    else
      match ParsePair(data, pos, kt, et)
      case Failed(e) => Failed(e)
      case Done(e, p) => Prepend([e], ParsePairs(data, p, kt, et, n, i + 1))
  }

  /** One key, then its value. */
  function ParsePair(data: seq<byte>, pos: nat, kt: Type, et: Type): (r: Decoded<Entry>)
    requires pos <= |data|
    ensures r.Done? ==> pos <= r.pos <= |data|
    ensures r.Failed? ==> r.err != ErrCantSet
    decreases TMap(kt, et), 0
  {
    match ParseFresh(data, pos, kt)
    case Failed(e) => Failed(e)
    case Done(k, p) =>
      (match ParseFresh(data, p, et)
       case Failed(e) => Failed(e)
       case Done(x, q) => Done(Entry(k, x), q))
  }

  /** Decoding into a fresh holder of type ty (`reflect.New(ty).Elem()`: zero, settable). */
  function ParseFresh(data: seq<byte>, pos: nat, ty: Type): (r: Decoded<Value>)
    requires pos <= |data|
    ensures r.Done? ==> pos <= r.pos <= |data|
    ensures r.Failed? ==> r.err != ErrCantSet
    decreases ty, 4
  {
    ZeroHasType(ty);
    Parse(data, pos, ty, Zero(ty), true)
  }

}
