/**
 * The closed set of shapes the codec dispatches on, standing in for what Go's
 * `reflect` package reports: a `Type` says which kind a value is, which struct
 * fields are exported and what the element, key and pointee types are; a
 * `Value` holds the data of a value of such a type.
 */
module Shapes {
  import opened Wire

  datatype Option<T> = None | Some(value: T)

  /** The declared width of a Go integer type (`int` and `uint` are 64 bits wide). */
  datatype Width = W8 | W16 | W32 | W64

  /** 2^bits: the number of values of an integer type of width w. */
  function Modulus(w: Width): (m: nat)
    ensures m <= TWO_64 && m % 2 == 0
  {
    match w
    case W8 => 0x100
    case W16 => 0x1_0000
    case W32 => 0x1_0000_0000
    case W64 => TWO_64
  }

  /** One declared struct field; `exported` is what `CanInterface` answers for it. */
  datatype FieldDecl = FieldDecl(exported: bool, ty: Type)

  datatype Type =
    | TString
    | TInt(w: Width)
    | TUint(w: Width)
    | TStruct(fields: seq<FieldDecl>)
    | TSlice(elem: Type)
    | TArray(len: nat, elem: Type)
    | TMap(key: Type, elem: Type)
    | TPointer(elem: Type)

  /**
   * A Go map is a list of entries with pairwise distinct keys; the order of
   * the list is the order in which `MapKeys` happens to return the keys.
   * `isNil` distinguishes the nil slice or map from an allocated empty one.
   */
  datatype Value =
    | Str(bytes: seq<byte>)
    | Int(i: int)
    | Uint(n: nat)
    | Struct(fields: seq<Value>)
    | Slice(isNil: bool, elems: seq<Value>)
    | Array(elems: seq<Value>)
    | Map(isNil: bool, entries: seq<Entry>)
    | Pointer(target: Option<Value>)

  datatype Entry = Entry(key: Value, val: Value)

  /** One more than the largest Go `int`: every `len` is below it. */
  const MAX_LEN: nat := 0x8000_0000_0000_0000

  predicate DistinctKeys(es: seq<Entry>) {
    forall i, j :: 0 <= i < j < |es| ==> es[i].key != es[j].key
  }

  /** v is a Go value of type ty. */
  predicate HasType(v: Value, ty: Type)
    decreases ty, 1
  {
    match ty
    case TString => v.Str? && |v.bytes| < MAX_LEN
    case TInt(w) => v.Int? && -(Modulus(w) / 2) <= v.i < Modulus(w) / 2
    case TUint(w) => v.Uint? && v.n < Modulus(w)
    case TStruct(fds) =>
      v.Struct? && |v.fields| == |fds| &&
      forall i :: 0 <= i < |fds| ==> HasType(v.fields[i], fds[i].ty)
    case TSlice(t) =>
      v.Slice? && (v.isNil ==> v.elems == []) && |v.elems| < MAX_LEN &&
      forall i :: 0 <= i < |v.elems| ==> HasType(v.elems[i], t)
    case TArray(n, t) =>
      v.Array? && |v.elems| == n &&
      forall i :: 0 <= i < n ==> HasType(v.elems[i], t)
    case TMap(k, e) =>
      v.Map? && (v.isNil ==> v.entries == []) && |v.entries| < MAX_LEN &&
      EntriesHaveType(v.entries, k, e) && DistinctKeys(v.entries)
    case TPointer(t) =>
      v.Pointer? && (v.target.Some? ==> HasType(v.target.value, t))
  }

  /** Every key has type kt and every value type et. */
  predicate EntriesHaveType(es: seq<Entry>, kt: Type, et: Type)
    decreases TMap(kt, et), 0
  {
    forall i :: 0 <= i < |es| ==> HasType(es[i].key, kt) && HasType(es[i].val, et)
  }

  /** The zero value of ty: what `reflect.New`, `Clear` and `SetLen` leave behind. */
  function Zero(ty: Type): Value
    decreases ty
  {
    match ty
    case TString => Str([])
    case TInt(_) => Int(0)
    case TUint(_) => Uint(0)
    case TStruct(fds) => Struct(seq(|fds|, i requires 0 <= i < |fds| => Zero(fds[i].ty)))
    case TSlice(_) => Slice(true, [])
    case TArray(n, t) => Array(seq(n, _ => Zero(t)))
    case TMap(_, _) => Map(true, [])
    case TPointer(_) => Pointer(None)
  }

  lemma {:induction false} ZeroHasType(ty: Type)
    ensures HasType(Zero(ty), ty)
    decreases ty
  {
    match ty
    case TStruct(fds) =>
      forall i | 0 <= i < |fds| ensures HasType(Zero(ty).fields[i], fds[i].ty) {
        ZeroHasType(fds[i].ty);
      }
    case TArray(n, t) =>
      ZeroHasType(t);
    case _ =>
  }

  /**
   * The encoder has a case for ty: no pointer is reachable through exported
   * fields, elements, keys or values (pointers fall into the encoder's
   * `binary.Write` default, which is not part of this model).
   */
  predicate Encodable(ty: Type)
    decreases ty
  {
    match ty
    case TStruct(fds) => forall i :: 0 <= i < |fds| && fds[i].exported ==> Encodable(fds[i].ty)
    case TSlice(t) => Encodable(t)
    case TArray(_, t) => Encodable(t)
    case TMap(k, e) => Encodable(k) && Encodable(e)
    case TPointer(_) => false
    case _ => true
  }

  /** v has type ty, and values of ty can be encoded. */
  predicate EncodableValue(ty: Type, v: Value) {
    HasType(v, ty) && Encodable(ty)
  }

  /** Entry e has a key of type kt and a value of type et, and both types can be encoded. */
  predicate EncodableEntry(kt: Type, et: Type, e: Entry) {
    HasType(e.key, kt) && HasType(e.val, et) && Encodable(kt) && Encodable(et)
  }

  /**
   * Everything the wire does not carry is already as a fresh decode target
   * leaves it: unexported fields hold their zero value, maps are allocated,
   * and a slice is nil exactly when it is empty.
   */
  predicate Canonical(v: Value, ty: Type)
    decreases ty
  {
    match ty
    case TStruct(fds) =>
      v.Struct? && |v.fields| == |fds| &&
      forall i :: 0 <= i < |fds| ==>
        if fds[i].exported then Canonical(v.fields[i], fds[i].ty) else v.fields[i] == Zero(fds[i].ty)
    case TSlice(t) =>
      v.Slice? && (v.elems == [] ==> v.isNil) &&
      forall i :: 0 <= i < |v.elems| ==> Canonical(v.elems[i], t)
    case TArray(_, t) =>
      v.Array? && forall i :: 0 <= i < |v.elems| ==> Canonical(v.elems[i], t)
    case TMap(k, e) =>
      v.Map? && !v.isNil &&
      forall i :: 0 <= i < |v.entries| ==> Canonical(v.entries[i].key, k) && Canonical(v.entries[i].val, e)
    case _ => true
  }

  /** The value of a Go map: later entries would win, but a map's keys are distinct. */
  function MapOf(es: seq<Entry>): map<Value, Value> {
    if es == [] then map[] else MapOf(es[..|es| - 1])[es[|es| - 1].key := es[|es| - 1].val]
  }

  /** `MapIndex(k)` for a key the map holds finds the value stored with it. */
  lemma {:induction false} MapIndexFinds(es: seq<Entry>, i: nat)
    requires DistinctKeys(es) && i < |es|
    ensures es[i].key in MapOf(es) && MapOf(es)[es[i].key] == es[i].val
  {
    if i < |es| - 1 {
      MapIndexFinds(es[..|es| - 1], i);
    }
  }

  function Keys(es: seq<Entry>): set<Value> {
    set i | 0 <= i < |es| :: es[i].key
  }

  lemma KeysConcat(a: seq<Entry>, b: seq<Entry>)
    ensures Keys(a + b) == Keys(a) + Keys(b)
  {
    var r := a + b;
    forall k | k in Keys(a) ensures k in Keys(r) {
      var i :| 0 <= i < |a| && a[i].key == k;
      assert r[i] == a[i];
    }
    forall k | k in Keys(b) ensures k in Keys(r) {
      var i :| 0 <= i < |b| && b[i].key == k;
      assert r[|a| + i] == b[i];
    }
  }

  /** `SetMapIndex(k, v)`: overwrite the entry for e.key if there is one, otherwise add e at the end. */
  function Insert(es: seq<Entry>, e: Entry): seq<Entry> {
    if es == [] then [e]
    else if es[0].key == e.key then [e] + es[1..]
    else [es[0]] + Insert(es[1..], e)
  }

  lemma SingletonKeys(e: Entry)
    ensures Keys([e]) == {e.key}
  {
    assert [e][0] == e;
  }

  /** Storing e adds exactly e's key. */
  lemma {:induction false} InsertKeys(es: seq<Entry>, e: Entry)
    ensures Keys(Insert(es, e)) == Keys(es) + {e.key}
  {
    SingletonKeys(e);
    if es != [] {
      assert es == [es[0]] + es[1..];
      KeysConcat([es[0]], es[1..]);
      SingletonKeys(es[0]);
      if es[0].key == e.key {
        KeysConcat([e], es[1..]);
      } else {
        InsertKeys(es[1..], e);
        KeysConcat([es[0]], Insert(es[1..], e));
      }
    }
  }

  /** After storing e, the map holds e, and every entry is e or was there before. */
  lemma {:induction false} InsertEntries(es: seq<Entry>, e: Entry)
    ensures e in Insert(es, e)
    ensures forall i :: 0 <= i < |Insert(es, e)| ==> Insert(es, e)[i] == e || Insert(es, e)[i] in es
  {
    if es != [] && es[0].key != e.key {
      InsertEntries(es[1..], e);
      var t := Insert(es[1..], e);
      var r := [es[0]] + t;
      assert forall i :: 1 <= i < |r| ==> r[i] == t[i - 1];
      var k :| 0 <= k < |t| && t[k] == e;
      assert r[k + 1] == e;
    }
  }

  /** Storing e under a key the map does not hold appends it. */
  lemma {:induction false} InsertNew(es: seq<Entry>, e: Entry)
    requires e.key !in Keys(es)
    ensures Insert(es, e) == es + [e]
  {
    if es != [] {
      assert es[0].key in Keys(es);
      assert Keys(es[1..]) <= Keys(es) by {
        forall k | k in Keys(es[1..]) ensures k in Keys(es) {
          var i :| 0 <= i < |es[1..]| && es[1..][i].key == k;
          assert es[i + 1].key == k;
        }
      }
      InsertNew(es[1..], e);
      assert es == [es[0]] + es[1..];
    }
  }

  /** Storing e keeps the keys distinct. */
  lemma {:induction false} InsertDistinct(es: seq<Entry>, e: Entry)
    requires DistinctKeys(es)
    ensures DistinctKeys(Insert(es, e))
  {
    if es != [] {
      var r := Insert(es, e);
      if es[0].key == e.key {
        assert forall i :: 1 <= i < |r| ==> r[i] == es[i];
      } else {
        var t := Insert(es[1..], e);
        InsertDistinct(es[1..], e);
        InsertKeys(es[1..], e);
        assert forall i :: 1 <= i < |r| ==> r[i] == t[i - 1];
        assert es[0].key !in Keys(es[1..]);
        forall i, j | 0 <= i < j < |r| ensures r[i].key != r[j].key {
          if i == 0 {
            assert r[j].key in Keys(t);
          }
        }
      }
    }
  }

  /** The map built by `SetMapIndex` on each pair of ps in turn, starting from an empty map. */
  function InsertAll(ps: seq<Entry>): seq<Entry> {
    if ps == [] then [] else Insert(InsertAll(ps[..|ps| - 1]), ps[|ps| - 1])
  }

  /** Storing pairs one after the other leaves distinct keys, exactly the keys stored. */
  lemma {:induction false} InsertAllFacts(ps: seq<Entry>)
    ensures DistinctKeys(InsertAll(ps)) && Keys(InsertAll(ps)) == Keys(ps)
  {
    if ps != [] {
      var init := ps[..|ps| - 1];
      var last := ps[|ps| - 1];
      assert ps == init + [last];
      KeysConcat(init, [last]);
      SingletonKeys(last);
      InsertAllFacts(init);
      InsertKeys(InsertAll(init), last);
      InsertDistinct(InsertAll(init), last);
    }
  }

  /** Storing one more pair is one more `SetMapIndex`. */
  lemma InsertAllSnoc(ps: seq<Entry>, e: Entry)
    ensures InsertAll(ps + [e]) == Insert(InsertAll(ps), e)
  {
    assert (ps + [e])[..|ps|] == ps;
  }

  lemma {:induction false} MapOfKeys(es: seq<Entry>)
    ensures forall k :: k in MapOf(es) <==> k in Keys(es)
  {
    if es != [] {
      var init := es[..|es| - 1];
      MapOfKeys(init);
      assert es == init + [es[|es| - 1]];
      KeysConcat(init, [es[|es| - 1]]);
      SingletonKeys(es[|es| - 1]);
    }
  }

  /** After `SetMapIndex(e.key, e.val)`, e.key finds e.val and every other key what it found before. */
  lemma LookupAfterInsert(es: seq<Entry>, e: Entry, k: Value)
    requires DistinctKeys(es) && k in Keys(Insert(es, e))
    ensures k in MapOf(Insert(es, e))
    ensures k == e.key ==> MapOf(Insert(es, e))[k] == e.val
    ensures k != e.key ==> k in MapOf(es) && MapOf(Insert(es, e))[k] == MapOf(es)[k]
  {
    var r := Insert(es, e);
    InsertDistinct(es, e);
    InsertEntries(es, e);
    var j :| 0 <= j < |r| && r[j].key == k;
    MapIndexFinds(r, j);
    if k != e.key {
      assert r[j] in es;
      var i :| 0 <= i < |es| && es[i] == r[j];
      MapIndexFinds(es, i);
    } else {
      var i :| 0 <= i < |r| && r[i] == e;
      assert i == j;
    }
  }

  /** On a map with distinct keys, `SetMapIndex` is the map update. */
  lemma MapOfInsert(es: seq<Entry>, e: Entry)
    requires DistinctKeys(es)
    ensures MapOf(Insert(es, e)) == MapOf(es)[e.key := e.val]
  {
    var r := Insert(es, e);
    var m := MapOf(es)[e.key := e.val];
    InsertKeys(es, e);
    MapOfKeys(es);
    MapOfKeys(r);
    assert MapOf(r).Keys == m.Keys;
    forall k | k in m ensures MapOf(r)[k] == m[k] {
      LookupAfterInsert(es, e, k);
    }
  }

  /**
   * Storing pairs with `SetMapIndex` one after the other gives the map in
   * which each key holds the value of its last pair: a later duplicate
   * overwrites an earlier one.
   */
  lemma {:induction false} MapOfInsertAll(ps: seq<Entry>)
    ensures MapOf(InsertAll(ps)) == MapOf(ps)
  {
    if ps != [] {
      var init := ps[..|ps| - 1];
      MapOfInsertAll(init);
      InsertAllFacts(init);
      MapOfInsert(InsertAll(init), ps[|ps| - 1]);
    }
  }

  /** Storing pairs whose keys are distinct, in order, rebuilds exactly that entry list. */
  lemma {:induction false} InsertAllDistinct(es: seq<Entry>)
    requires DistinctKeys(es)
    ensures InsertAll(es) == es
  {
    if es != [] {
      var init := es[..|es| - 1];
      var last := es[|es| - 1];
      InsertAllDistinct(init);
      assert last.key !in Keys(init);
      InsertNew(init, last);
    }
  }
}
