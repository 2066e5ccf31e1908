# gensenc: a verified model of the reflection-driven binary codec

`gensenc` (`main.go`) turns a Go value into bytes and back, guided by the
value's type:

- a string is an 8-byte little-endian length followed by its bytes;
- every signed or unsigned integer, whatever its width, is 8 little-endian bytes;
- a struct is its exported fields in declaration order, with no header;
- a slice is an 8-byte count followed by its elements;
- an array is its elements alone;
- a map is an 8-byte count followed by, for each key, the key and then the value.

`DecodeValue` reads the same layout from an `io.Reader` into a target of the
same type. It stops at the first error: `ErrCantSet`, or a short read from
`io.ReadFull`.

This project models that core in Dafny:

- **`Wire`**: the 8-byte little-endian fields.
- **`Shapes`**: the closed set of types (`Type`) and values (`Value`) that
  the codec dispatches on, in place of `reflect`.
  - A struct field's `exported` flag is what `CanInterface` answers for it.
  - A map is an entry list with distinct keys. The order of the list is the
    order `MapKeys` returns.
  - Slices and maps record whether they are nil. Both encode a nil value as
    an empty one, so only the decoder tells them apart.
  - `Insert` and `InsertAll` are `SetMapIndex`.
- **`Codec`**: two specification functions.
  - `Frame` is the bytes the encoder writes.
  - `Parse` is what the decoder does from a reader position: the target's
    new contents and the new position, or the error.
- **`Encoder`**: `EncodeValue` as loops that append to a buffer, proved to
  produce `Frame`.
- **`Decoder`**: `DecodeValue` as a `Reader` class with a mutable position
  and loops over fields, slots and pairs, proved to agree with `Parse` on the
  result, the error and the final reader position.
- **`Layout`**: what `Frame` looks like, kind by kind.
- **`Input`** and **`RoundTrip`**: decoding the frame of `v` into a settable
  target.
  - The result is `Overlay(ty, t, v)` and exactly the frame is consumed.
  - Input that ends inside the frame fails with `EOF` or `ErrUnexpectedEOF`.
- **`Inverse`**: `Decode(Encode(v), &t)` end to end, through the pointer that
  `Decode` receives.
- **`Scenarios`**: concrete byte strings for a few small values.

The codec's own entry points are `Encode` (modelled as `Encoder.Encode`) and
`Decode` (modelled as `Decoder.Decode`). `Decode` wraps `a` in
`reflect.ValueOf`, which cannot be set. So a string, integer or slice
target, or a nil map, must be passed through a pointer, whose pointee is
settable. A map that is not nil may be passed by value: `SetMapIndex`
(main.go:154) fills it in place without asking `CanSet`, and `Set`
(main.go:139-141) runs only for a nil map. The same holds for a struct or
array passed by value when every string, integer, slice or nil map among
its exported fields and elements sits behind a non-nil pointer.

## Model

| member | source | states |
|---|---|---|
| Wire.U64RoundTrip | main.go:90-94 | `Uint64` of the 8 bytes `PutUint64` wrote for n is n |
| Wire.U64Bound | main.go:94 | any 8 bytes read as a little-endian number are below 2^64 |
| Shapes.ZeroHasType | main.go:144-149 | the zero value of a type (what `reflect.New`, `Clear` and `SetLen` leave) has that type |
| Shapes.MapIndexFinds | main.go:54-60 | `MapIndex(key)`, for a key the map holds, finds the value stored with it |
| Shapes.InsertKeys | main.go:154 | `SetMapIndex(k, v)` adds exactly the key k to the map's keys |
| Shapes.InsertDistinct | main.go:154 | `SetMapIndex` keeps the map's keys distinct |
| Shapes.InsertNew | main.go:154 | `SetMapIndex` of a key the map does not hold appends the pair |
| Shapes.LookupAfterInsert | main.go:154 | after `SetMapIndex(k, v)`, k finds v and every other key finds what it found before |
| Shapes.MapOfInsert | main.go:154 | on a map with distinct keys, `SetMapIndex` is the map update `m[k := v]` |
| Shapes.InsertAllFacts | main.go:142-155 | storing the decoded pairs one after the other leaves distinct keys, exactly the keys read |
| Shapes.MapOfInsertAll | main.go:142-155 | storing pairs in turn gives the map in which each key holds its last value: later duplicates overwrite earlier ones |
| Shapes.InsertAllDistinct | main.go:142-155 | storing pairs with distinct keys in turn rebuilds exactly that entry list |
| Codec.ReadFull | main.go:96-99 | `io.ReadFull` of k bytes succeeds iff k bytes are left and returns exactly them; otherwise `EOF` iff nothing was left, else `ErrUnexpectedEOF` |
| Codec.ReadU64 | main.go:90-94 | an 8-byte field read succeeds if and only if 8 bytes are left; it then yields the little-endian value of exactly those 8 bytes (below 2^64) and moves the position by 8; otherwise it is a short read |
| Codec.Truncate | main.go:173 | `SetUint` stores a number below the width's modulus, and a number of the width unchanged |
| Codec.Parse | main.go:83-193 | decoding never moves the reader backwards or past the end of the input, and into a settable target it never fails with `ErrCantSet` |
| Codec.ParseString | main.go:86-100 | the string case succeeds iff the 8-byte length and that many bytes are there; the string is exactly the bytes after the length field, and the reader stops right after them; any failure is a short read |
| Codec.ParseInt | main.go:156-164 | the integer case succeeds iff 8 bytes are left, consumes exactly 8 and stores an integer of the target's width; any failure is a short read |
| Codec.ParseUint | main.go:165-173 | the unsigned case succeeds iff 8 bytes are left, consumes exactly 8 and stores a number of the target's width; any failure is a short read |
| Codec.ParseSlice | main.go:111-125 | a missing count is a short read; after the count, a slice that cannot be set panics in `Grow`; a decoded slice has as many elements as the count says, and is nil exactly when the target was nil and the count is 0 (`Grow(0)` allocates nothing); `ErrCantSet` never arises below a slice |
| Codec.ParseMap | main.go:133-155 | a missing count is a short read; after the count, a nil map that cannot be set panics in `Set`; a decoded map is allocated with distinct keys; `ErrCantSet` never arises in a map, settable or not |
| Codec.ParsePair | main.go:144-154 | one key/value pair never moves the reader backwards or past the end, and never fails with `ErrCantSet` (both holders are settable) |
| Codec.ParseFresh | main.go:144-153 | decoding into a `reflect.New` holder never moves the reader backwards or past the end, and never fails with `ErrCantSet` |
| Codec.ParseList | main.go:126-132 | decoding into n element slots yields exactly n elements; settable slots never fail with `ErrCantSet` |
| Codec.ParseFields | main.go:101-110 | decoding a struct yields one value per declared field; a settable struct never fails with `ErrCantSet` |
| Codec.ParsePairs | main.go:143-155 | decoding n pairs yields exactly n pairs and never fails with `ErrCantSet` |
| Codec.MapKeepsLastPair | main.go:133-155 | a decoded map is allocated (never nil), has distinct keys, holds exactly the keys read and, for each key, the value of its last pair |
| Codec.Frame | main.go:13-81 | the encoder's specification: an integer of any width is exactly 8 bytes, whatever its value; the lengths of strings, slices and maps are spelled out by Layout.StringLayout, Layout.SliceLayout and Layout.MapLayout |
| Layout.StringLayout | main.go:17-21 | a string encodes as its byte length in 8 little-endian bytes followed by exactly its bytes (8 + len bytes) |
| Layout.IntLayout | main.go:66-68 | a signed integer of any width encodes as 8 little-endian bytes holding its 64-bit two's complement, which `SetInt` at that width turns back into it |
| Layout.ToSignedInverts | main.go:164 | `SetInt(int64(u))` at width w, for u the 64-bit two's complement of a w-bit i, stores i |
| Layout.UintLayout | main.go:69-71 | an unsigned integer of any width encodes as 8 little-endian bytes holding it |
| Layout.StructLayout | main.go:22-32 | a struct encodes as the frames of its `CanInterface` fields in declaration order, with no header |
| Layout.HiddenFieldsIgnored | main.go:23-25 | two structs that differ only in unexported fields encode to the same bytes |
| Layout.SliceLayout | main.go:33-42 | a slice encodes as its element count in 8 little-endian bytes, then its elements' frames in index order |
| Layout.ArrayLayout | main.go:43-50 | an array encodes as its elements' frames in index order, with no count |
| Layout.MapLayout | main.go:51-65 | a map encodes as its pair count in 8 little-endian bytes, then for each key in iteration order the key's frame and the value's frame |
| Layout.MapFrameAsPairs | main.go:51-65 | the pairs the encoder appends one by one are the pairs the decoder reads front to back |
| Encoder.Encode | main.go:195-198 | `Encode(a)` returns the frame of a |
| Encoder.EncodeValue | main.go:13-81 | the bytes returned are the frame of the value |
| Encoder.EncodeFields | main.go:22-32 | the struct loop appends the frame of each exported field, skipping the others |
| Encoder.EncodeElems | main.go:33-50 | the slice and array loop appends the frame of each element in index order |
| Encoder.EncodeEntries | main.go:51-65 | the map loop appends, for each key of `MapKeys`, the key's frame and the frame of `MapIndex(key)` |
| Encoder.EncodeEntry | main.go:55-64 | one map pair is the key's frame followed by the value's |
| Decoder.Reader.constructor | main.go:202 | a fresh `bytes.Reader` over b stands at position 0 |
| Decoder.Reader.ReadFull | main.go:96-99 | a read returns what `Codec.ReadFull` says and advances by k, or fails and leaves the reader at the end |
| Decoder.Reader.ReadU64 | main.go:90-94 | an 8-byte field read agrees with `Codec.ReadU64` on value, error and new position |
| Decoder.DecodeValue | main.go:83-193 | result, error and final reader position are what `Parse` says; a string or integer target that cannot be set fails with `ErrCantSet` and reads nothing |
| Decoder.DecodeString | main.go:86-100 | the string case: a length then that many bytes, agreeing with `ParseString` |
| Decoder.DecodeFields | main.go:101-110 | the struct loop decodes each exported field in order, keeps the others, and stops at the first error |
| Decoder.DecodeField | main.go:102-109 | one struct field: decoded if exported, skipped without reading otherwise |
| Decoder.DecodeSlice | main.go:111-125 | the slice case: a count, then n zero elements (the target is taken to have no capacity past its length), each decoded in turn; a target that cannot be set, or a count that makes `int(length)` negative, panics |
| Decoder.DecodeElems | main.go:126-132 | the element loop decodes each slot in index order and stops at the first error |
| Decoder.DecodeElem | main.go:127-131 | one element slot decoded in place, the later slots untouched |
| Decoder.DecodeMap | main.go:133-155 | the map case: a count, then allocation of a nil map (a panic if it cannot be set), `Clear`, then the pairs |
| Decoder.DecodeEntries | main.go:142-155 | after `Clear`, the map holds the n decoded pairs stored with `SetMapIndex` in turn |
| Decoder.DecodeNextPair | main.go:143-154 | one more pair extends the pairs decoded so far |
| Decoder.DecodePair | main.go:144-154 | a pair is a key decoded into a fresh zero key, then a value decoded into a fresh zero element |
| Decoder.DecodeFresh | main.go:144-153 | `DecodeValue` on a `reflect.New` holder agrees with `ParseFresh`: a zero holder, settable, decoded in place |
| Decoder.Decode | main.go:200-204 | `Decode(b, a)` decodes from the start of b into a, which itself cannot be set |
| RoundTrip.ReadU64At | main.go:90-94 | reading an 8-byte field that holds n gives n and advances by 8 |
| RoundTrip.ReadU64Short | main.go:90-92 | reading an 8-byte field from input that ends inside it is a short read |
| RoundTrip.ParseExact | main.go:83-193 | decoding the frame of v into a settable target t of its type yields `Overlay(t, v)` and consumes exactly the frame |
| RoundTrip.DecodeAt | main.go:83-193 | `ParseExact`, naming the decoded value and the new position |
| RoundTrip.StringExact | main.go:86-100 | a string frame decodes to the string, consuming 8 + len bytes |
| RoundTrip.IntExact | main.go:156-164 | an integer frame decodes to the integer, consuming 8 bytes |
| RoundTrip.IntPattern | main.go:164 | proof step of ParseExact: the two's complement pattern the encoder writes, stored with `SetInt` at the same width, is the integer again |
| RoundTrip.UintExact | main.go:165-173 | an unsigned frame decodes to the number, consuming 8 bytes |
| RoundTrip.UintPattern | main.go:173 | proof step of ParseExact: `SetUint` at width w keeps a number of that width whole |
| RoundTrip.StructExact | main.go:101-110 | a struct frame decodes into the exported fields, keeping the unexported ones of the target |
| RoundTrip.FieldsExact | main.go:101-110 | decoding the frames of fields i.. yields their overlay and consumes exactly those frames |
| RoundTrip.HiddenFieldStep | main.go:102-104 | proof step of ParseExact: an unexported field is skipped: it keeps its contents and no bytes are read for it |
| RoundTrip.FieldStep | main.go:105-108 | proof step of ParseExact: an exported field decoded, then the rest decoded, is the fields i.. decoded |
| RoundTrip.ArrayExact | main.go:126-132 | an array frame decodes element by element into the target's slots |
| RoundTrip.SliceExact | main.go:111-125 | a slice frame decodes to as many elements as were written, each decoded into a zero element, for a target with no capacity past its length |
| RoundTrip.ListExact | main.go:120-125 | decoding the frames of elements i.. yields their overlay and consumes exactly those frames |
| RoundTrip.ListStep | main.go:120-125 | proof step of ParseExact: an element decoded, then the rest decoded, is the elements i.. decoded |
| RoundTrip.MapExact | main.go:133-155 | a map frame decodes to an allocated map holding, stored in turn, each entry decoded into fresh holders |
| RoundTrip.PairsExact | main.go:143-155 | decoding the frames of pairs i.. yields their overlays in order and consumes exactly those frames |
| RoundTrip.PairsExactStep | main.go:143-155 | one pair decoded, then the pairs after it decoded, is the pairs i.. decoded |
| RoundTrip.PairsCons | main.go:143-155 | proof step of ParseExact: a decoded pair followed by the decoded rest is the decoded pairs i.. |
| RoundTrip.PairsNone | main.go:143 | proof step of ParseExact: zero pairs read nothing |
| RoundTrip.PairExact | main.go:144-154 | the frame of an entry decodes to its key and value, each decoded into a fresh zero holder |
| RoundTrip.PairStep | main.go:144-154 | proof step of ParseExact: a key decoded, then a value decoded, is the pair decoded |
| RoundTrip.ParseShort | main.go:83-193 | decoding into a settable target from input that ends inside the frame fails with `EOF` or `ErrUnexpectedEOF` |
| RoundTrip.StringShort | main.go:90-99 | a string frame cut short fails with a short read, in its length or its bytes |
| RoundTrip.IntShort | main.go:160-163 | an integer frame cut short fails with a short read |
| RoundTrip.UintShort | main.go:169-172 | an unsigned frame cut short fails with a short read |
| RoundTrip.StructShort | main.go:101-110 | a struct frame cut short fails with a short read: the first error aborts the loop |
| RoundTrip.FieldsShort | main.go:105-108 | the frames of fields i.. cut short fail with a short read |
| RoundTrip.ArrayShort | main.go:126-132 | an array frame cut short fails with a short read |
| RoundTrip.SliceShort | main.go:111-125 | a slice frame cut short fails with a short read, in its count or its elements |
| RoundTrip.ListShort | main.go:120-125 | the frames of elements i.. cut short fail with a short read |
| RoundTrip.MapShort | main.go:133-155 | a map frame cut short fails with a short read, in its count or its pairs |
| RoundTrip.PairsShort | main.go:143-155 | the frames of pairs i.. cut short fail with a short read |
| RoundTrip.PairShort | main.go:144-153 | a pair frame cut short fails with a short read, in its key or its value |
| Inverse.DecodeInto | main.go:200-204 | `Decode(Encode(v) + rest, &t)` leaves `Overlay(t, v)` in t and consumes exactly the encoding |
| Inverse.DecodeEncode | main.go:195-204 | decoding the encoding of v into a fresh zero target gives v back, when v's unexported fields are zero, its maps allocated and its slices nil exactly when empty (an empty non-nil slice comes back nil, see Scenarios.EmptySlice) |
| Inverse.DecodeMapByValue | main.go:133-155 | a non-nil map passed by value, which cannot be set, is filled in place exactly as through a pointer: the encoding of v decodes into it as `Overlay` and is consumed exactly |
| Inverse.DecodeTruncated | main.go:200-204 | `Decode` of any strict prefix of `Encode(v)` fails with `EOF` or `ErrUnexpectedEOF` |
| Inverse.StructFieldsAfterDecode | main.go:101-110 | after decoding into a struct, each unexported field is as the target had it and each exported field holds its own decode |
| Inverse.OverlayIdentity | main.go:83-193 | decoding the frame of a canonical value over the zero value of its type gives the value itself |
| Inverse.FieldsIdentity | main.go:101-110 | over zero fields, the decoded fields of a canonical struct are its fields |
| Inverse.ListIdentity | main.go:120-132 | over zero slots, the decoded elements of a canonical list are its elements |
| Inverse.EntriesIdentity | main.go:143-155 | pairs that decode to themselves are read back as the same list |
| Inverse.EntryIdentity | main.go:144-154 | a canonical entry decoded into fresh zero holders is itself |
| Scenarios.StringAb | main.go:17-21 | `"ab"` encodes as `02 00 00 00 00 00 00 00 61 62` |
| Scenarios.Uint8Five | main.go:69-71 | `uint8(5)` encodes as `05 00 00 00 00 00 00 00` |
| Scenarios.Uint8FiveDecodes | main.go:165-173 | those 8 bytes decode into a settable `uint8` as 5 |
| Scenarios.MinusOne | main.go:66-68 | the `int` -1 encodes as eight `FF` bytes |
| Scenarios.AllOnes | main.go:66-68 | 2^64 - 1 is eight `FF` bytes in little-endian order |
| Scenarios.Int32Slice | main.go:33-42 | `[]int32{1, -1, 1000}` encodes as the count 3, then `01`, eight `FF` bytes and `E8 03`, each element padded to 8 bytes |
| Scenarios.EmptySlice | main.go:111-125 | a nil and an empty slice both encode as the count 0; decoding that count through a pointer leaves a nil slice nil and an empty non-nil slice non-nil |
| Scenarios.Int32Frames | main.go:66-68 | each `int32` of that slice is 8 bytes, -1 as its 64-bit two's complement |
| Scenarios.OnePairMap | main.go:51-65 | `map[string]int{"k": 1}` encodes as the count 1, then `"k"`, then 1 |
| Scenarios.KeyAndValueFrames | main.go:17-21 | the key `"k"` and the `int` 1 of that map, byte by byte |
| Scenarios.OnePairMapDecodes | main.go:133-155 | decoding those bytes through a pointer to a nil `map[string]int` gives exactly the one pair |
| Scenarios.HiddenFieldScenario | main.go:22-32 | a struct with an exported `int32` 7 and an unexported field encodes as the 8 bytes of 7 alone |

## Left out

- The `default` cases of `EncodeValue` and `DecodeValue` (main.go:72-78, 179-190) are left out. They hand booleans, floats, complex numbers and other kinds to `encoding/binary`, a library outside this model. `Type` has no such kinds.
- Encoding a pointer is left out. The encoder has no pointer case, so pointers fall into that `default`. `Encodable` therefore excludes every type that reaches a pointer through exported fields, elements, keys or values. The decoder's pointer case (main.go:174-178) is modelled.
- `MapKeys` order is not fixed by Go. The model takes it to be the order of the map's entry list. No lemma depends on a particular order.
- Runtime panics are modelled as the outcome `ErrPanic`. Go does not return an error in these cases; the call does not return normally.
  - Decoding through a nil pointer panics: `Elem` gives the zero `Value`, and `v.Type()` (main.go:85) panics on it.
  - `Grow` on a slice that cannot be set panics.
  - A count of 2^63 or more makes `int(length)` negative, and `Grow` then panics.
  - `Set` of a freshly made map into a nil map that cannot be set panics.
  - These outcomes depend on the bytes read. No precondition on the caller's input could exclude them, so they are an explicit outcome of `Parse` and `DecodeValue`.
- Codec.ParseString: a length too large for `make([]byte, length)` panics in Go (main.go:95). The model goes on to the read of that many bytes, which fails as a short read, because memory limits are not modelled.
- Codec.ParseSlice: `Grow(int(length))` panics in Go when the count is below 2^63 but too large to allocate, or when the target's length plus the count overflows `int` (main.go:118). The model checks only the count against 2^63 and goes on decoding, because memory limits and slice capacity are not modelled.
- Decoder.DecodeSlice, RoundTrip.SliceExact: a `Value` slice carries no capacity, so the model takes every target slice to have no backing-array contents past its length. It does carry whether the slice is nil. Under that reading `Clear`, `Grow` and `SetLen` (main.go:117-119) leave n zero elements, and this is what Codec.ParseSlice, RoundTrip.Overlay, RoundTrip.ParseExact and Inverse.DecodeInto state. In Go, a target whose capacity exceeds its length exposes its old elements in slots len..n after `SetLen`, and those elements are decoded over rather than over zero elements. Their unexported fields, and the pointers they hold, survive into the result. The model does not capture this.
- Integer narrowing is modelled, not excluded. `SetUint` on a narrower kind stores the low bits (`Truncate`). `SetInt(int64(u))` stores the low bits read as two's complement of the target's width (`ToSigned`). So out-of-range bytes decode as Go decodes them. The round-trip lemmas hold for values of the declared width, which is all the encoder produces. `int` and `uint` are taken to be 64 bits wide.
- Decoder.DecodeValue: the target is a value, and its new contents are returned; it is not updated in place. So aliasing between targets is not modelled. Neither is the partly written target that Go leaves behind after an error (earlier fields decoded, a map already cleared). On error the model returns only the error.
- Encoder.EncodeValue: the error result is left out. It comes only from the `default` case.
- Go types that contain themselves (through a pointer, slice or map) cannot be written as a `Type`, which is a finite tree. Deeply nested values and the recursion depth of the Go code are therefore not modelled.
- The reader is a `bytes.Reader` over the whole input. Other `io.Reader`s, which may fail with errors of their own, are not modelled.
- Shapes.HasType admits map types whose key is a slice, a map, or a struct or array containing one. Go rejects such map types at compile time because their keys are not comparable. The lemmas hold for these types too, so they are not excluded.

## Notes on the code

- `DecodeValue` checks `CanSet` before it reads anything for a string, `int` or `uint` target (main.go:87-89, 157-159, 166-168). So such a target that cannot be set fails with `ErrCantSet` with the reader unmoved, and the model does the same. In particular, `Decode(b, v)` with a string or integer `v` passed by value always fails this way.
- Struct fields and array slots inherit settability from their parent. The pointee of a non-nil pointer (`Elem`, main.go:175), slice elements after `SetLen`, and the fresh key and value holders of a map (`reflect.New(...).Elem()`) are always settable. So the only targets the decoder reaches that cannot be set are the root that `Decode` is given and the fields and slots reached from it without passing through a pointer.
