# coti: run-time type descriptors and their JSON and MessagePack codecs

coti describes C++ objects at run time. A *type descriptor* (`TypeInfo`) has one of
seven kinds: Bool, Integer, Float, String, Array, List or Dict. A descriptor carries
the C++ byte size of the objects it describes. Through it those objects are read
and written. The kinds differ as follows:

- an Integer descriptor packs its signedness and bit width into one field;
- a Float descriptor packs its bit width and representation (IEEE or bfloat);
- an Array holds contiguous children of one element descriptor;
- a List holds children that each carry their own descriptor;
- a Dict is walked with a cursor (`beginIter`, `isEndIter`, `nextIter`), and is
  also reached by key (`getValueAt`, `eraseValueAt`).

`TypeTrait<T>` picks the descriptor for a static C++ type. `int_numeric.hpp`
supplies the integer helpers `is_power_of_2`, `cdiv` and `next_power_of_2`.

`utils.cpp` is built on these descriptors. It works in two directions, each
through one generic walk that switches on the descriptor's kind:

- it encodes any described object as nlohmann JSON and through a msgpack packer;
- it decodes JSON documents and msgpack objects back into an existing object.

Each container kind has its own loop: an index loop for Arrays and Lists, a
cursor loop for a Dict when encoding, and a loop over the document's items for a
Dict when decoding.

## How the model is built

- An object reached through a raw pointer becomes a value tree (`Value`). The
  predicate `HasType(v, t)` says that descriptor `t` can describe `v`.
- A write through a descriptor (`set`, `resize`, `eraseValueAt`, or decoding into
  a target) becomes a function from the old value to the new one.
- Every failure path of the C++ code becomes a `Fail` with its own error:
  - a failed `assert`;
  - a nlohmann `type_error`;
  - a key `getValueAt` cannot find;
  - a JSON number of the other kind;
  - undefined behaviour.
- The recursive walks (`ToJson`, `FromJson`, `ToMsgPack`, `FromMsgPack`) are
  specification functions. Each C++ loop is a `method` with a `while` loop. That
  method is proved to return what its specification function returns.
- The msgpack packer is a `Packer` class whose log of calls each `Pack`
  appends to.
- `Unpack` reads that log back into `msgpack_object` trees, in the way msgpack-c
  reads the bytes those calls write.

Proved about the codecs:

- **JSON.**
  - Decoding a value's own encoding gives the value back. This holds for any
    target with room for it (`Fits`).
  - A Dict is encoded as a key-sorted object with one member per entry.
  - Decoding fails on a key the Dict does not have.
  - Decoding never adds or removes a key.
  - Decoding leaves untouched every entry the document does not name.
- **MessagePack.**
  - Packing fails exactly when the value holds an unsigned 64-bit integer (the
    code's `assert`).
  - Otherwise the unpacker reads back a tree, `WireOf`, that is defined
    independently of the packer.
  - Decoding that tree gives the value back, unless the value holds a Bool. A Bool
    is packed with `msgpack_pack_char`, comes back as a positive integer, and
    fails the decoder's BOOLEAN `assert`.

## Model

| member | source | states |
|---|---|---|
| Descriptor.KindSelectsVariant | lib/coti/utils.cpp:14-42 | each of the seven kind tags holds exactly when the descriptor is of the matching variant, so the dispatch switch reaches the specialisation of the descriptor's own class and never its unreachable default |
| Descriptor.EveryKindHasDescriptor | include/tops/coti/type_info.h:18-39 | every kind tag is the kind of some descriptor |
| Descriptor.EncodeSignBit | include/tops/coti/type_info.h:82-94 | decoding the packed (width, sign) field gives back the width and signedness that were packed |
| Descriptor.EncodeBitKind | include/tops/coti/type_info.h:121-137 | decoding the packed (width, kind) field gives back the width and float kind that were packed |
| Descriptor.NewBoolInfo | include/tops/coti/type_info.h:54-71 | the Bool descriptor has kind Bool and byte size 1 |
| Descriptor.NewIntegerInfo | include/tops/coti/type_info.h:99-101 | the constructed descriptor has kind Integer, byte size width/8, and its isSigned and getBitWidth return the constructor's arguments; it is one the codecs support exactly for widths 8, 16, 32, 64 |
| Descriptor.NewFloatInfo | include/tops/coti/type_info.h:115-117 | the constructed descriptor has kind Float, byte size width/8, and its getBitWidth and getKind return the constructor's arguments |
| Descriptor.BoolSet | include/tops/coti/type_info.h:57-67 | after set(object, b) the object is a Bool and get returns b |
| Descriptor.StoreInt | include/tops/coti/type_info.h:86-88 | what get returns after set(object, i) lies in the declared width's range and equals i whenever i is in that range |
| Descriptor.ChildrenContiguous | lib/coti/utils.cpp:355-360 | the msgpack Array fill loop, which steps its child pointer by the element's byte size, finds child i+1 exactly where child i ends, and a later child never overlaps an earlier one; `DecodeMsgPackArray` keeps its pointer at `ChildOffset` by this lemma |
| Descriptor.ResizeArray | include/tops/coti/type_info.h:158-159 | after resize(object, n) the Array has n children, the first ones unchanged and the appended ones default objects, and it is still a value of the descriptor |
| Descriptor.ResizeList | include/tops/coti/type_info.h:175-182 | after resize(object, n) the List has n children, the first ones unchanged and the appended ones default objects of the pad descriptor, and it is still a value of the descriptor |
| Descriptor.WalkVisitsEveryEntry | include/tops/coti/type_info.h:187-199 | the walk from beginIter through nextIter until isEndIter visits every entry once, in order, in getNumItems steps |
| Descriptor.GetValueAt | include/tops/coti/type_info.h:203-204 | getValueAt finds a value exactly when the dict has an entry with that key, and what it finds is that entry's value |
| Descriptor.EraseValueAtLaws | include/tops/coti/type_info.h:206 | after eraseValueAt(key) the dict has no value for key, has one entry fewer if it had one, keeps distinct keys, and every other key keeps its value |
| TypeTrait.GetTypeInfo | include/tops/coti/type_trait.h:33-75 | bool gives the Bool descriptor; an integral type the Integer descriptor of its signedness and width sizeof*8; float and double the IEEE Float descriptors of 32 and 64 bits; the string types a String descriptor; vector and array an Array descriptor |
| TypeTrait.InfoOfObjectIsStatic | include/tops/coti/type_trait.h:23-31 | get_type_info(obj) is get_type_info<T>() whatever the object holds |
| TypeTrait.ContainerInfoIgnoresElement | include/tops/coti/type_trait.h:67-75 | every std::vector shares one descriptor and every std::array another, whatever the element type and length |
| TypeTrait.IntegralInfoValid | include/tops/coti/type_trait.h:38-47 | an integral type's descriptor is supported by the codecs exactly when the type is at most 8 bytes |
| TypeTrait.IntegralInfoInjective | include/tops/coti/type_trait.h:38-47 | two integral types get the same descriptor exactly when they have the same signedness and size |
| IntNumeric.IsPowerOf2Exactly | include/tops/utils/int_numeric.hpp:7 | is_power_of_2(x) holds exactly for 0 and the powers of two |
| IntNumeric.ClearLowestBit | include/tops/utils/int_numeric.hpp:7 | x & (x - 1) is zero exactly when x is a power of two |
| IntNumeric.CdivIsCeiling | include/tops/utils/int_numeric.hpp:9 | cdiv(a, b) is the ceiling of a / b: the least q with q * b >= a |
| IntNumeric.Clz | include/tops/utils/int_numeric.hpp:12 | the count z of leading zeros of a non-zero 32-bit value y is below 32 and places the highest set bit: 2^(31-z) <= y < 2^(32-z) |
| IntNumeric.NextPowerOf2IsLeastPowerAbove | include/tops/utils/int_numeric.hpp:11-13 | next_power_of_2(x) is a power of two that fits in 32 bits, is at least x, and its half is below x: the least power of two not below x |
| IntNumeric.NextPowerOf2OfPowerOfTwo | include/tops/utils/int_numeric.hpp:11-13 | next_power_of_2 of a power of two is that power of two |
| JsonDoc.Lookup | lib/coti/utils.cpp:114 | a JSON object has a member for a key exactly when the key is among its keys |
| JsonDoc.Emplace | lib/coti/utils.cpp:114 | emplacing adds the key to the object's keys |
| JsonDoc.EmplaceSorted | lib/coti/utils.cpp:114 | emplace keeps the object's members sorted by key |
| JsonDoc.EmplaceLookup | lib/coti/utils.cpp:114 | after emplace(key, value), looking up key gives the old value if there was one and value otherwise; every other key is unchanged |
| JsonDoc.EmplaceAllLaws | lib/coti/utils.cpp:110-116 | a sequence of emplaces keeps the object sorted and each key maps to its first emplaced value unless the object already had it |
| JsonDoc.At | lib/coti/utils.cpp:145 | json[idx] gives element idx of an array and a type error for anything else |
| JsonDoc.Items | lib/coti/utils.cpp:171 | items() of an object is its members; of an array its elements, item i keyed by the decimal digits of i; of null nothing; of a scalar the scalar itself under the empty key |
| JsonDoc.DecimalInjective | lib/coti/utils.cpp:171 | two indices with the same decimal key are equal, so an array's items have distinct keys |
| JsonDoc.GetBool | lib/coti/utils.cpp:133 | get<bool> succeeds exactly on a JSON boolean and returns its value |
| JsonDoc.GetInt64 | lib/coti/utils.cpp:133 | get<int64_t> succeeds exactly on a JSON integer; it returns a signed integer unchanged and an unsigned one as the int64_t with the same 64 bits |
| JsonDoc.GetDouble | lib/coti/utils.cpp:133 | get<double> succeeds exactly on a JSON float and returns its value |
| JsonDoc.GetString | lib/coti/utils.cpp:133 | get<std::string_view> succeeds exactly on a JSON string and returns its bytes |
| JsonCodec.DictMembers | lib/coti/utils.cpp:110-116 | the members the Dict loop emplaces are the entries in cursor order, each key with its value's encoding |
| JsonCodec.FromJson | lib/coti/utils.cpp:128-175 | a successful decode gives a value of the descriptor, and a decoded Dict keeps the target's keys and descriptors |
| JsonCodec.FromJsonElems | lib/coti/utils.cpp:139-148 | the Array fill loop keeps the child count and gives values of the element descriptor |
| JsonCodec.FromJsonItems | lib/coti/utils.cpp:159-167 | the List fill loop keeps the child count, each slot's descriptor, and gives values of those descriptors |
| JsonCodec.FromJsonMembers | lib/coti/utils.cpp:169-175 | the Dict loop keeps the entries' keys and descriptors and gives values of them |
| JsonCodec.FromJsonSlot | lib/coti/utils.cpp:172-173 | decoding one member keeps keys and descriptors and leaves every entry with another key unchanged |
| JsonCodec.EncodeJson | lib/coti/utils.cpp:53-61 | the dispatching encoder returns ToJson of the object |
| JsonCodec.EncodeJsonArray | lib/coti/utils.cpp:63-77 | the Array index loop returns ToJson of the object |
| JsonCodec.EncodeJsonList | lib/coti/utils.cpp:79-91 | the List index loop returns ToJson of the object |
| JsonCodec.EncodeJsonDict | lib/coti/utils.cpp:108-119 | the Dict cursor loop returns ToJson of the object |
| JsonCodec.DecodeJson | lib/coti/utils.cpp:128-137 | the dispatching decoder returns FromJson of target and document |
| JsonCodec.DecodeJsonArray | lib/coti/utils.cpp:150-157 | the Array resize-and-fill loop returns FromJson of target and document |
| JsonCodec.DecodeJsonList | lib/coti/utils.cpp:159-167 | the List resize-and-fill loop returns FromJson of target and document |
| JsonCodec.DecodeJsonDict | lib/coti/utils.cpp:169-175 | the Dict loop over the document's items returns FromJson of target and document |
| JsonCodec.DecodeJsonSlot | lib/coti/utils.cpp:172-173 | decoding one member into the slot of its key returns FromJsonSlot |
| JsonCodecLaws.DictEncoding | lib/coti/utils.cpp:108-119 | a Dict encodes as a key-sorted JSON object with one member per entry, its keys are the Dict's keys, and each key maps to the encoding of its value |
| JsonCodecLaws.ScalarDecoding | lib/coti/utils.cpp:128-137 | a Bool decodes exactly from a JSON boolean to its value; an Integer only from a JSON integer, to the integer itself when signed and to the int64_t of its bits when unsigned, whenever that lies in the field's range (a float is a conversion error); a Float from a JSON float to its value (an integer is a conversion error); a String from a JSON string to its bytes; anything else is a type error |
| JsonCodecLaws.ArrayDecoding | lib/coti/utils.cpp:139-157 | an Array is resized to the document's size and decoding succeeds exactly when every element decodes into its slot, the result holding those decoded slots |
| JsonCodecLaws.ListDecoding | lib/coti/utils.cpp:159-167 | a List is resized to the document's size and decoding succeeds exactly when every element decodes into its slot with the slot's descriptor, the result holding those decoded slots |
| JsonCodecLaws.DictDecoding | lib/coti/utils.cpp:169-175 | a document item whose key the Dict does not have makes decoding fail; a successful decode keeps the Dict's keys and descriptors and leaves every entry the document does not name unchanged |
| JsonCodecLaws.MembersUnknownKey | lib/coti/utils.cpp:171-173 | the Dict loop fails once it reaches an item whose key getValueAt cannot find |
| JsonCodecLaws.MembersUntouched | lib/coti/utils.cpp:169-175 | the Dict loop leaves every entry no item names as it was |
| JsonCodecLaws.JsonRoundTrip | lib/coti/utils.cpp:374-381 | from_json(to_json(v)) into any target with room for v gives v |
| JsonCodecLaws.JsonRoundTripInPlace | lib/coti/utils.cpp:374-381 | decoding a value's own encoding back into it changes nothing |
| MsgPackWire.IntObject | lib/coti/utils.cpp:305-310 | an integer comes back from the unpacker as POSITIVE_INTEGER when non-negative and NEGATIVE_INTEGER otherwise |
| MsgPackCodec.EncodeMsgPack | lib/coti/utils.cpp:187-271 | the dispatching encoder either appends to the packer exactly the calls ToMsgPack names and succeeds, or fails as ToMsgPack does |
| MsgPackCodec.EncodeMsgPackArray | lib/coti/utils.cpp:273-291 | the Array encoder appends the array header with the child count, then each child's calls in index order, or fails with the first child that fails |
| MsgPackCodec.EncodeMsgPackList | lib/coti/utils.cpp:248-256 | the List encoder appends the array header with the child count, then each child's calls with its own descriptor, or fails with the first child that fails |
| MsgPackCodec.EncodeMsgPackDict | lib/coti/utils.cpp:257-269 | the Dict encoder appends the map header with getNumItems, then each entry's key and value calls in cursor order, or fails with the first entry that fails |
| MsgPackCodec.EncodeMsgPackEntry | lib/coti/utils.cpp:262-265 | one step of the Dict loop appends the key at the cursor as a string followed by the value's calls |
| MsgPackCodec.FromMsgPack | lib/coti/utils.cpp:296-349 | a successful decode gives a value of the descriptor, and a decoded Dict keeps the target's keys and descriptors |
| MsgPackCodec.FromMsgPackElems | lib/coti/utils.cpp:351-362 | the Array fill loop keeps the child count and gives values of the element descriptor |
| MsgPackCodec.FromMsgPackItems | lib/coti/utils.cpp:325-334 | the List fill loop keeps the child count, each slot's descriptor, and gives values of those descriptors |
| MsgPackCodec.FromMsgPackPairs | lib/coti/utils.cpp:335-347 | the Dict pair loop keeps the entries' keys and descriptors and gives values of them |
| MsgPackCodec.DecodeMsgPack | lib/coti/utils.cpp:296-321 | the dispatching decoder returns FromMsgPack of target and object |
| MsgPackCodec.DecodeMsgPackArray | lib/coti/utils.cpp:351-370 | the Array resize-and-fill loop returns FromMsgPack of target and object |
| MsgPackCodec.DecodeMsgPackList | lib/coti/utils.cpp:325-334 | the List resize-and-fill loop returns FromMsgPack of target and object |
| MsgPackCodec.DecodeMsgPackDict | lib/coti/utils.cpp:335-347 | the Dict pair loop returns FromMsgPack of target and object |
| MsgPackCodecLaws.WireOf | lib/coti/utils.cpp:191-269 | the object the unpacker should give back has, for an Array or a List, one element per child and, for a Dict, one pair per entry |
| MsgPackCodecLaws.SafeCastPacking | lib/coti/utils.cpp:177-182 | for widths 8, 16 and 32, safe_cast keeps the value exactly when it lies in the field's range, so packing succeeds exactly then and otherwise fails the assert |
| MsgPackCodecLaws.IntPacking | lib/coti/utils.cpp:196-233 | an in-range signed integer is packed with its own width, an unsigned one narrower than 64 bits too, and an unsigned 64-bit one fails the assert |
| MsgPackCodecLaws.PackFails | lib/coti/utils.cpp:226-228 | packing fails exactly when the value holds an unsigned 64-bit integer, and then with a failed assert |
| MsgPackCodecLaws.PackUnpacks | lib/coti/utils.cpp:187-291 | the unpacker reads back from a successful packing exactly WireOf of the value and leaves what follows |
| MsgPackCodecLaws.DecodeWire | lib/coti/utils.cpp:296-370 | decoding WireOf(v) into a target with room for v gives v when v holds no Bool and fails the BOOLEAN assert when it does |
| MsgPackCodecLaws.ElemsDecode | lib/coti/utils.cpp:351-362 | the Array fill loop over the children's wire objects gives the children back, or fails the assert if one of them holds a Bool |
| MsgPackCodecLaws.ItemsDecode | lib/coti/utils.cpp:325-334 | the List fill loop over the children's wire objects gives the children back, or fails the assert if one of them holds a Bool |
| MsgPackCodecLaws.PairsDecode | lib/coti/utils.cpp:335-347 | the Dict pair loop over the entries' wire pairs gives the entries back, or fails the assert if one of them holds a Bool |
| MsgPackCodecLaws.MsgPackDecoding | lib/coti/utils.cpp:296-347 | a Bool decodes exactly from a BOOLEAN to its value; an Integer only from an integer object, to its int64_t view (a POSITIVE_INTEGER's bits read as int64_t) whenever that lies in the field's range; a Float exactly from a 64-bit float to its value; a String exactly from a STR to its bytes; containers keep child counts and slot descriptors; a map key that is not a STR or names no slot makes decoding fail |
| MsgPackCodecLaws.ArrayDecoding | lib/coti/utils.cpp:351-370 | an Array reads its object as an ARRAY (anything else is undefined behaviour), is resized to its size, and decodes exactly when every element decodes into its resized slot, the result holding those decoded slots |
| MsgPackCodecLaws.ListDecoding | lib/coti/utils.cpp:325-334 | a List reads its object as an ARRAY (anything else is undefined behaviour), is resized to its size, and decodes exactly when every element decodes into its slot with the slot's descriptor, the result holding those decoded slots |
| MsgPackCodecLaws.DictDecoding | lib/coti/utils.cpp:335-347 | a Dict reads its object as a MAP (anything else is undefined behaviour); a pair whose key names no slot makes it fail; a successful decode keeps keys and descriptors and leaves every entry no pair names unchanged |
| MsgPackCodecLaws.PairsUntouched | lib/coti/utils.cpp:338-345 | the Dict pair loop leaves every entry no remaining pair names as it was |
| MsgPackCodecLaws.PairsRejectKey | lib/coti/utils.cpp:338-344 | the Dict pair loop fails once it reaches a pair whose key is not a STR naming a slot |
| MsgPackCodecLaws.MsgPackRoundTrip | lib/coti/utils.cpp:383-391 | packing v, unpacking and decoding into a target with room for v gives v back, for every v holding neither an unsigned 64-bit integer nor a Bool |
| MsgPackCodecLaws.MsgPackRoundTripInPlace | lib/coti/utils.cpp:383-391 | decoding a value's own msgpack encoding back into it changes nothing, under the same conditions |
| MsgPackCodecLaws.BoolDoesNotRoundTrip | lib/coti/utils.cpp:300-304 | a Bool is packed as the char 1 or 0, comes back as a POSITIVE_INTEGER, and decoding it into a Bool fails the BOOLEAN assert |

## Left out

- `include/tops/coti/hash.h`, the hashing walk, is not part of this model. `TypeInfo::hash` is only declared in `type_info.h:51`; its definition lies outside the modelled files.
- The `utils.h` wrappers, the code generator and the GPU-side files are not part of this model.
- The JSON library's and msgpack-c's internals are not modelled.
  - A JSON document is a datatype with only the operations the codec uses.
  - The packer is a log of its calls, so the byte format is not modelled.
  - The unpacker's NIL, BIN and FLOAT32 objects are accepted as inputs but never produced by the packer.
  - The unpacker's EXT object is not modelled. The packer never produces it, and each scalar branch of the decoder would fail its type `assert` on it.
- Floating-point values are opaque 64-bit patterns. `FloatInfo::get/set` narrowing and widening, bfloat16 and `getU64ZExt`/`setU64` are not modelled.
- JsonDoc.GetInt64: a JSON float is not converted to an integer; the model gives a conversion error where the JSON library would truncate. A JSON unsigned integer is read as the int64_t with the same bits.
- JsonDoc.GetDouble: a JSON integer is not converted to a double; the model gives a conversion error where the JSON library would convert.
- Descriptor.StoreInt: `IntegerInfo::set` is only declared in `type_info.h:88`; its definition lies outside the modelled files. The model truncates to the declared width. Only "an in-range value is stored unchanged" is a claim about the source.
- Descriptor.EncodeSignBit: `encodeSignBit`, `decodeSignBit`, `encodeBitKind` and `decodeBitKind` are only declared in `type_info.h:93-94` and `type_info.h:136-137`; their definitions lie outside the modelled files. The model packs the flag into the low bit, so only the round trip is a claim about the source.
- Descriptor.EncodeBitKind: as above for the (width, kind) field.
- JsonCodecLaws.ScalarDecoding: the value stored for an integer outside the field's range depends on `IntegerInfo::set`, whose definition lies outside the modelled files. The lemma claims only the failure cases and the in-range value; the out-of-range result is the model's truncation.
- MsgPackCodecLaws.MsgPackDecoding: as above for an integer object outside the field's range.
- `get_type_info<T>()` (`type_trait.h:23-26`) calls `TypeTrait<T>::type_info()` as a static function, but the specialisations declare it as a non-static member, so `type_trait.h` as written does not compile once `get_type_info` is instantiated. The model takes the evident intent: the specialisation's descriptor (`TypeTrait.GetTypeInfo`).
- The registry singletons for the string and container types (`impl::getStdStrigTypeInfo` and the three like it, called at `type_trait.h:59-74`) are defined outside the modelled headers. They are parameters (`TypeTrait.Registry`) of the variants their return types name.
- The concrete List and Dict adapters (the subclasses implementing `ListInfo` and `DictInfo`) are defined outside the modelled files. The default slot a List's `resize` appends and the field table of a default Dict are fields of the descriptor (`padInfo`, `fields`).
- Raw pointers, aliasing and writes in place are not modelled. An object is a value tree, and every write returns the new tree.
- `finishIter` is not modelled: it releases the cursor and has no effect on the value.
- Builds with `NDEBUG` are not modelled. Every `assert` is active and a failed one is a `Fail(AssertionFailed)`.
- Reading the wrong union member, or reaching `__builtin_unreachable`, is undefined behaviour in C++. It is `Fail(UndefinedBehaviour)` here.
- The JSON object is key-sorted, as the code's `std::map`-backed document is.
- The Bool msgpack round trip does not hold in the code (`BoolDoesNotRoundTrip`). The round-trip lemmas therefore exclude values holding a Bool.
- TypeTrait.ContainerInfoIgnoresElement: every `std::vector<T>` gets the one descriptor `getStdVectorTypeInfo()`, and every `std::array<T, N>` the one `getStdArrayTypeInfo()` (`type_trait.h:67-75`). One `childInfo` cannot describe every element type, so this is likely a defect in `type_trait.h`. The lemma models the code as written.
- A 128-bit integral type gets a descriptor the codecs do not support (`IntegralInfoValid`). Its encoding is not modelled.
- IntNumeric.NextPowerOf2IsLeastPowerAbove: only 32-bit unsigned arguments are modelled, with 2 <= x <= 2^31. x = 1 reaches `clz(0)`, which is undefined, and above 2^31 the shift overflows.
- IntNumeric.IsPowerOf2Exactly: only 32-bit unsigned arguments are modelled; the template's other widths behave alike.
- IntNumeric.CdivIsCeiling: stated only when a + b - 1 does not wrap around 2^32. Otherwise the C++ sum wraps and the quotient is not the ceiling.
