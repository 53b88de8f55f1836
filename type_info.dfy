/**
 * The descriptor hierarchy of `type_info.h`: seven kinds of type descriptor,
 * each with a fixed C++ byte size and its access capabilities, and the values
 * they describe.
 *
 * A C++ value is reached through a raw pointer and read or written through its
 * descriptor. Here a value is a tree (`Value`) and `HasType(v, t)` says that the
 * tree is a value the descriptor `t` can describe; a write through a descriptor
 * is a function from the old value to the new one.
 */
module Descriptor {
  import opened Outcomes

  const CharBit: nat := 8

  type byte = b: int | 0 <= b < 0x100
  /** A `std::string_view`: a sequence of bytes. */
  type Bytes = seq<byte>
  type uint32 = x: int | 0 <= x < 0x1_0000_0000
  type int64 = x: int | -0x8000_0000_0000_0000 <= x < 0x8000_0000_0000_0000
  type uint64 = x: int | 0 <= x < 0x1_0000_0000_0000_0000
  /** The int64_t whose two's-complement bits are those of u. */
  function AsInt64(u: uint64): (i: int64)
    ensures i % 0x1_0000_0000_0000_0000 == u
    ensures u < 0x8000_0000_0000_0000 ==> i == u
  {
    if u < 0x8000_0000_0000_0000 then u else u - 0x1_0000_0000_0000_0000
  }

  /** A `double`, kept as the opaque 64-bit pattern `FloatInfo::get` returns. */
  type Double = uint64

  /** The kind tag every descriptor carries. */
  datatype TypeKind = OkBool | OkInt | OkFloat | OkString | OkArray | OkList | OkDict

  /** `FloatInfo::FloatKind`. */
  datatype FloatRepr = IEEE | BFloat

  datatype BitWidthAndSign = BitWidthAndSign(bitWidth: uint32, isSigned: bool)
  datatype BitWidthAndKind = BitWidthAndKind(bitWidth: uint32, kind: FloatRepr)

  /** A type descriptor. The constructor is the C++ dynamic type; the kind tag
      is derived from it (`Kind`), so a tag that disagrees with the variant
      cannot be expressed. Every variant carries `cppByteSize`.
      ListInfo names the descriptor of the slots its `resize` appends, and
      DictInfo the field table of a default-constructed object of its type:
      both belong to the concrete adapters. */
  datatype TypeInfo =
    | BoolInfo(cppByteSize: nat)
    | IntegerInfo(cppByteSize: nat, signBitEncode: uint32)
    | FloatInfo(cppByteSize: nat, kindBitEncode: uint32)
    | StringInfo(cppByteSize: nat)
    | ArrayInfo(cppByteSize: nat, childInfo: TypeInfo)
    | ListInfo(cppByteSize: nat, padInfo: TypeInfo)
    | DictInfo(cppByteSize: nat, fields: seq<Field>)
  {
    /** The kind tag: each variant fixes it. */
    function Kind(): TypeKind {
      match this
      case BoolInfo(_) => OkBool
      case IntegerInfo(_, _) => OkInt
      case FloatInfo(_, _) => OkFloat
      case StringInfo(_) => OkString
      case ArrayInfo(_, _) => OkArray
      case ListInfo(_, _) => OkList
      case DictInfo(_, _) => OkDict
    }

    /** `IntegerInfo::isSigned`. */
    predicate IsSigned()
      requires IntegerInfo?
    {
      DecodeSignBit(signBitEncode).isSigned
    }

    /** `IntegerInfo::getBitWidth`. */
    function IntBitWidth(): uint32
      requires IntegerInfo?
    {
      DecodeSignBit(signBitEncode).bitWidth
    }

    /** `FloatInfo::getBitWidth`. */
    function FloatBitWidth(): uint32
      requires FloatInfo?
    {
      DecodeBitKind(kindBitEncode).bitWidth
    }

    /** `FloatInfo::getKind`. */
    function FloatKind(): FloatRepr
      requires FloatInfo?
    {
      DecodeBitKind(kindBitEncode).kind
    }
  }

  /** `type_info_dispatch`: the kind tag selects the descriptor variant, one
      variant per tag and one tag per variant, so the switch over the seven
      tags reaches the specialisation of the descriptor's own variant and
      never falls through to `__builtin_unreachable`. It holds by the
      definition of `Kind`: the tag is read off the variant. */
  lemma KindSelectsVariant(t: TypeInfo)
    ensures t.Kind() == OkBool <==> t.BoolInfo?
    ensures t.Kind() == OkInt <==> t.IntegerInfo?
    ensures t.Kind() == OkFloat <==> t.FloatInfo?
    ensures t.Kind() == OkString <==> t.StringInfo?
    ensures t.Kind() == OkArray <==> t.ArrayInfo?
    ensures t.Kind() == OkList <==> t.ListInfo?
    ensures t.Kind() == OkDict <==> t.DictInfo?
  {
  }

  /** Every one of the seven kinds is the tag of some descriptor; the witness
      for each is a descriptor of the matching variant. */
  lemma EveryKindHasDescriptor(k: TypeKind) returns (t: TypeInfo)
    ensures t.Kind() == k
  {
    match k
    case OkBool => t := BoolInfo(1);
    case OkInt => t := IntegerInfo(4, 65);
    case OkFloat => t := FloatInfo(4, 64);
    case OkString => t := StringInfo(16);
    case OkArray => t := ArrayInfo(24, BoolInfo(1));
    case OkList => t := ListInfo(24, BoolInfo(1));
    case OkDict => t := DictInfo(0, []);
  }

  /** A named field of a dict's field table. */
  datatype Field = Field(key: Bytes, info: TypeInfo)

  // ----- packed (sign, width) and (width, kind) fields -----
  // The bodies of the four packing functions are not part of this model; the
  // model packs the flag into the low bit and the width above it.

  function EncodeSignBit(isSigned: bool, bitWidth: uint32): (e: uint32)
    requires bitWidth < 0x8000_0000
    ensures DecodeSignBit(e) == BitWidthAndSign(bitWidth, isSigned)
  {
    bitWidth * 2 + (if isSigned then 1 else 0)
  }

  function DecodeSignBit(e: uint32): BitWidthAndSign {
    BitWidthAndSign(e / 2, e % 2 == 1)
  }

  function EncodeBitKind(bitWidth: uint32, kind: FloatRepr): (e: uint32)
    requires bitWidth < 0x8000_0000
    ensures DecodeBitKind(e) == BitWidthAndKind(bitWidth, kind)
  {
    bitWidth * 2 + (if kind == BFloat then 1 else 0)
  }

  function DecodeBitKind(e: uint32): BitWidthAndKind {
    BitWidthAndKind(e / 2, if e % 2 == 1 then BFloat else IEEE)
  }

  // ----- construction -----

  /** `BoolInfo()`. */
  function NewBoolInfo(): (t: TypeInfo)
    ensures t.Kind() == OkBool && t.cppByteSize == 1 && ValidInfo(t)
  {
    BoolInfo(1)
  }

  /** `IntegerInfo(isSigned, bitWidth)`: the byte size is the width in bytes and
      the accessors give back the constructor's arguments. */
  function NewIntegerInfo(isSigned: bool, bitWidth: uint32): (t: TypeInfo)
    requires bitWidth < 0x8000_0000
    ensures t.Kind() == OkInt && t.cppByteSize == bitWidth / CharBit
    ensures t.IsSigned() == isSigned && t.IntBitWidth() == bitWidth
    ensures ValidInfo(t) <==> ValidIntWidth(bitWidth)
  {
    IntegerInfo(bitWidth / CharBit, EncodeSignBit(isSigned, bitWidth))
  }

  /** `FloatInfo(bitWidth, kind)`. */
  function NewFloatInfo(bitWidth: uint32, kind: FloatRepr): (t: TypeInfo)
    requires bitWidth < 0x8000_0000
    ensures t.Kind() == OkFloat && t.cppByteSize == bitWidth / CharBit
    ensures t.FloatBitWidth() == bitWidth && t.FloatKind() == kind
    ensures ValidInfo(t)
  {
    FloatInfo(bitWidth / CharBit, EncodeBitKind(bitWidth, kind))
  }

  /** The integer widths the codecs support. */
  predicate ValidIntWidth(w: nat) {
    w == 8 || w == 16 || w == 32 || w == 64
  }

  /** The keys of a field table are pairwise distinct. */
  predicate DistinctFieldKeys(fields: seq<Field>) {
    forall i, j :: 0 <= i < j < |fields| ==> fields[i].key != fields[j].key
  }

  /** A descriptor as the registry and the generated adapters build it:
      integer widths the codecs support, sizes that agree with the widths, and
      field tables without repeated names. */
  predicate ValidInfo(t: TypeInfo)
    decreases t
  {
    match t
    case BoolInfo(sz) => sz == 1
    case IntegerInfo(sz, e) => ValidIntWidth(DecodeSignBit(e).bitWidth) && sz == DecodeSignBit(e).bitWidth / CharBit
    case FloatInfo(sz, e) => sz == DecodeBitKind(e).bitWidth / CharBit
    case StringInfo(_) => true
    case ArrayInfo(_, child) => ValidInfo(child)
    case ListInfo(_, pad) => ValidInfo(pad)
    case DictInfo(_, fields) =>
      DistinctFieldKeys(fields) && forall i :: 0 <= i < |fields| ==> ValidInfo(fields[i].info)
  }

  // ----- values -----

  /** A value as a tree. `IntV` holds what `IntegerInfo::get` returns (an
      int64_t), `FloatV` what `FloatInfo::get` returns. A List child and a Dict
      value carry their own descriptor, as `TypedPtr` does. Dict entries are
      in the order of the dict's cursor. */
  datatype Value =
    | BoolV(b: bool)
    | IntV(i: int64)
    | FloatV(d: Double)
    | StrV(s: Bytes)
    | ArrayV(elems: seq<Value>)
    | ListV(items: seq<Typed>)
    | DictV(entries: seq<Entry>)

  /** `TypedPtr`: a value paired with its descriptor. */
  datatype Typed = Typed(info: TypeInfo, val: Value)

  datatype Entry = Entry(key: Bytes, item: Typed)

  /** The keys of a dict's entries are pairwise distinct. */
  predicate DistinctKeys(entries: seq<Entry>) {
    forall i, j :: 0 <= i < j < |entries| ==> entries[i].key != entries[j].key
  }

  /** The range of `IntegerInfo::get` for a descriptor: the declared width and
      sign, except that an unsigned 64-bit field reads back as any int64_t. */
  predicate IntFits(t: TypeInfo, i: int)
    requires t.IntegerInfo?
  {
    var w := t.IntBitWidth();
    if w == 64 then -0x8000_0000_0000_0000 <= i < 0x8000_0000_0000_0000
    else if w == 32 then (if t.IsSigned() then -0x8000_0000 <= i < 0x8000_0000 else 0 <= i < 0x1_0000_0000)
    else if w == 16 then (if t.IsSigned() then -0x8000 <= i < 0x8000 else 0 <= i < 0x1_0000)
    else if w == 8 then (if t.IsSigned() then -0x80 <= i < 0x80 else 0 <= i < 0x100)
    else false
  }

  /** v is a value the descriptor t describes. A List item and a Dict entry
      carry their own descriptors, so this does not tie a List's items to
      `padInfo` or a Dict's entries to `fields`. Those two appear only where
      the code uses them: in `Default` (what a fresh Dict holds), in
      `ResizeList` (the slots `resize` appends) and in `Fits` (a decode
      target has the List slots and Dict keys the decoded value needs). */
  predicate HasType(v: Value, t: TypeInfo)
    decreases v
  {
    ValidInfo(t) &&
    match t
    case BoolInfo(_) => v.BoolV?
    case IntegerInfo(_, _) => v.IntV? && IntFits(t, v.i)
    case FloatInfo(_, _) => v.FloatV?
    case StringInfo(_) => v.StrV?
    case ArrayInfo(_, child) =>
      v.ArrayV? && forall i :: 0 <= i < |v.elems| ==> HasType(v.elems[i], child)
    case ListInfo(_, _) =>
      v.ListV? && forall i :: 0 <= i < |v.items| ==> HasType(v.items[i].val, v.items[i].info)
    case DictInfo(_, _) =>
      v.DictV? && DistinctKeys(v.entries) &&
      forall i :: 0 <= i < |v.entries| ==> HasType(v.entries[i].item.val, v.entries[i].item.info)
  }

  /** A default-constructed object of the descriptor's type: what a container's
      `resize` puts in the slots it appends. */
  function Default(t: TypeInfo): Value
    decreases t
  {
    match t
    case BoolInfo(_) => BoolV(false)
    case IntegerInfo(_, _) => IntV(0)
    case FloatInfo(_, _) => FloatV(0)
    case StringInfo(_) => StrV([])
    case ArrayInfo(_, _) => ArrayV([])
    case ListInfo(_, _) => ListV([])
    case DictInfo(_, fields) =>
      DictV(seq(|fields|, i requires 0 <= i < |fields| =>
        Entry(fields[i].key, Typed(fields[i].info, Default(fields[i].info)))))
  }

  /** Every valid descriptor's default object is a value of that descriptor. */
  lemma {:induction false} DefaultHasType(t: TypeInfo)
    requires ValidInfo(t)
    ensures HasType(Default(t), t)
    decreases t
  {
    match t
    case DictInfo(_, fields) =>
      var d := Default(t);
      forall i | 0 <= i < |d.entries|
        ensures HasType(d.entries[i].item.val, d.entries[i].item.info)
      {
        DefaultHasType(fields[i].info);
      }
      assert DistinctKeys(d.entries);
    case _ =>
  }

  // ----- Bool -----

  /** `BoolInfo::get`. */
  function BoolGet(v: Value): bool
    requires v.BoolV?
  {
    v.b
  }

  /** `BoolInfo::set`: the object becomes the given boolean. */
  function BoolSet(v: Value, b: bool): (r: Value)
    requires v.BoolV?
    ensures HasType(r, NewBoolInfo()) && BoolGet(r) == b
  {
    BoolV(b)
  }

  // ----- Integer -----

  /** 2^w for the supported widths. */
  function WidthModulus(w: nat): nat
    requires ValidIntWidth(w)
  {
    if w == 8 then 0x100 else if w == 16 then 0x1_0000
    else if w == 32 then 0x1_0000_0000 else 0x1_0000_0000_0000_0000
  }

  /** What `IntegerInfo::get` returns after `IntegerInfo::set(object, i)`. The
      body of `set` is not part of this model: the model stores i truncated
      to the declared width (two's-complement wrap-around), which leaves every
      value of the declared range unchanged. */
  function StoreInt(t: TypeInfo, i: int64): (r: int64)
    requires t.IntegerInfo? && ValidIntWidth(t.IntBitWidth())
    ensures IntFits(t, r)
    ensures IntFits(t, i) ==> r == i
  {
    var m := WidthModulus(t.IntBitWidth());
    var u := i % m;
    if (t.IsSigned() || t.IntBitWidth() == 64) && u >= m / 2 then u - m else u
  }

  // ----- Array: homogeneous, contiguous children -----

  /** `ArrayInfo::getNumChilds`. */
  function NumChilds(v: Value): nat
    requires v.ArrayV?
  {
    |v.elems|
  }

  /** Byte offset of child idx from `getChildBegin` in an Array whose
      children have descriptor elem: children are laid out one after the
      other, each `elem.cppByteSize` bytes. */
  function ChildOffset(elem: TypeInfo, idx: nat): nat {
    idx * elem.cppByteSize
  }

  /** Contiguity: child i ends at or before child j begins when i < j, and
      child i+1 begins exactly where child i ends, which is where the Array
      loops move their child pointer after each child. */
  lemma ChildrenContiguous(elem: TypeInfo, i: nat, j: nat)
    requires i < j
    ensures ChildOffset(elem, i) + elem.cppByteSize <= ChildOffset(elem, j)
    ensures ChildOffset(elem, i + 1) == ChildOffset(elem, i) + elem.cppByteSize
  {
    var s := elem.cppByteSize;
    MulMonotone(i + 1, j, s);
    assert (i + 1) * s == i * s + s;
  }

  lemma {:induction false} MulMonotone(a: nat, b: nat, s: nat)
    requires a <= b
    ensures a * s <= b * s
    decreases b - a
  {
    if a < b {
      MulMonotone(a, b - 1, s);
      assert b * s == (b - 1) * s + s;
    }
  }

  /** `ArrayInfo::resize(object, n)`: n children afterwards; the first ones are
      kept and the appended ones are default-constructed. */
  function ResizeArray(t: TypeInfo, v: Value, n: nat): (r: Value)
    requires t.ArrayInfo? && v.ArrayV?
    ensures r.ArrayV? && NumChilds(r) == n
    ensures forall i :: 0 <= i < n && i < |v.elems| ==> r.elems[i] == v.elems[i]
    ensures forall i :: |v.elems| <= i < n ==> r.elems[i] == Default(t.childInfo)
    ensures HasType(v, t) ==> HasType(r, t)
  {
    var r := ArrayV(seq(n, i requires 0 <= i < n => if i < |v.elems| then v.elems[i] else Default(t.childInfo)));
    assert HasType(v, t) ==> HasType(r, t) by {
      if HasType(v, t) { DefaultHasType(t.childInfo); }
    }
    r
  }

  // ----- List: heterogeneous children -----

  /** `ListInfo::getNumChilds`. */
  function ListNumChilds(v: Value): nat
    requires v.ListV?
  {
    |v.items|
  }

  /** `ListInfo::getChildAt`: the child and its own descriptor. */
  function GetChildAt(v: Value, idx: nat): Typed
    requires v.ListV? && idx < |v.items|
  {
    v.items[idx]
  }

  /** `ListInfo::resize(object, n)`: n children afterwards; the first ones are
      kept and the appended ones are default objects of the list's pad
      descriptor. */
  function ResizeList(t: TypeInfo, v: Value, n: nat): (r: Value)
    requires t.ListInfo? && v.ListV?
    ensures r.ListV? && ListNumChilds(r) == n
    ensures forall i :: 0 <= i < n && i < |v.items| ==> r.items[i] == v.items[i]
    ensures forall i :: |v.items| <= i < n ==> r.items[i] == Typed(t.padInfo, Default(t.padInfo))
    ensures HasType(v, t) ==> HasType(r, t)
  {
    var r := ListV(seq(n, i requires 0 <= i < n =>
      if i < |v.items| then v.items[i] else Typed(t.padInfo, Default(t.padInfo))));
    assert HasType(v, t) ==> HasType(r, t) by {
      if HasType(v, t) { DefaultHasType(t.padInfo); }
    }
    r
  }

  // ----- Dict: cursor protocol, lookup, erase -----

  /** `DictInfo::getNumItems`. */
  function NumItems(v: Value): nat
    requires v.DictV?
  {
    |v.entries|
  }

  /** A dict cursor: the position of the entry it stands on. */
  datatype Cursor = Cursor(pos: nat)

  /** `DictInfo::beginIter`. */
  function BeginIter(v: Value): Cursor
    requires v.DictV?
  {
    Cursor(0)
  }

  /** `DictInfo::isEndIter`. */
  predicate IsEndIter(v: Value, c: Cursor)
    requires v.DictV?
  {
    c.pos >= |v.entries|
  }

  /** `DictInfo::nextIter`. */
  function NextIter(v: Value, c: Cursor): Cursor
    requires v.DictV? && !IsEndIter(v, c)
  {
    Cursor(c.pos + 1)
  }

  /** `DictInfo::getKeyAtIter`. */
  function KeyAtIter(v: Value, c: Cursor): Bytes
    requires v.DictV? && !IsEndIter(v, c)
  {
    v.entries[c.pos].key
  }

  /** `DictInfo::getValueAtIter`. */
  function ValueAtIter(v: Value, c: Cursor): Typed
    requires v.DictV? && !IsEndIter(v, c)
  {
    v.entries[c.pos].item
  }

  /** The entries a cursor walk visits from c until `isEndIter`. */
  function Walk(v: Value, c: Cursor): seq<Entry>
    requires v.DictV?
    decreases |v.entries| - c.pos
  {
    if IsEndIter(v, c) then []
    else [Entry(KeyAtIter(v, c), ValueAtIter(v, c))] + Walk(v, NextIter(v, c))
  }

  /** A walk from `beginIter` visits every entry once, in order, so it takes
      exactly `getNumItems` steps. */
  lemma WalkVisitsEveryEntry(v: Value)
    requires v.DictV?
    ensures Walk(v, BeginIter(v)) == v.entries
    ensures |Walk(v, BeginIter(v))| == NumItems(v)
  {
    WalkFrom(v, 0);
  }

  lemma {:induction false} WalkFrom(v: Value, k: nat)
    requires v.DictV? && k <= |v.entries|
    ensures Walk(v, Cursor(k)) == v.entries[k..]
    decreases |v.entries| - k
  {
    if k < |v.entries| {
      WalkFrom(v, k + 1);
    }
  }

  /** The index of the entry with the given key, searching from k. */
  function SlotFrom(entries: seq<Entry>, key: Bytes, k: nat): (r: Option<nat>)
    requires k <= |entries|
    ensures r.Some? ==> k <= r.value < |entries| && entries[r.value].key == key
    ensures r.None? ==> forall i :: k <= i < |entries| ==> entries[i].key != key
    decreases |entries| - k
  {
    if k == |entries| then None
    else if entries[k].key == key then Some(k)
    else SlotFrom(entries, key, k + 1)
  }

  /** The index of the entry `getValueAt(object, key)` points into. */
  function SlotOf(entries: seq<Entry>, key: Bytes): Option<nat> {
    SlotFrom(entries, key, 0)
  }

  /** `DictInfo::getValueAt`: the value stored under the key, with its
      descriptor; None when the dict has no such key. */
  function GetValueAt(v: Value, key: Bytes): (r: Option<Typed>)
    requires v.DictV?
    ensures r.Some? <==> exists i :: 0 <= i < |v.entries| && v.entries[i].key == key
    ensures r.Some? ==> exists i :: 0 <= i < |v.entries| && v.entries[i] == Entry(key, r.value)
  {
    match SlotOf(v.entries, key)
    case None => None
    case Some(i) => Some(v.entries[i].item)
  }

  /** With distinct keys, the slot of an entry's key is that entry. */
  lemma SlotOfDistinct(entries: seq<Entry>, i: nat)
    requires DistinctKeys(entries) && i < |entries|
    ensures SlotOf(entries, entries[i].key) == Some(i)
  {
  }

  /** `DictInfo::eraseValueAt(object, key)`: the entry with that key is
      removed. */
  function EraseValueAt(v: Value, key: Bytes): Value
    requires v.DictV?
  {
    match SlotOf(v.entries, key)
    case None => v
    case Some(i) => DictV(v.entries[..i] + v.entries[i + 1..])
  }

  /** After erasing a key the dict has no value for it, one entry fewer if it
      had one, and every other key keeps its value. */
  lemma EraseValueAtLaws(v: Value, key: Bytes, other: Bytes)
    requires v.DictV? && DistinctKeys(v.entries) && other != key
    ensures EraseValueAt(v, key).DictV? && DistinctKeys(EraseValueAt(v, key).entries)
    ensures GetValueAt(EraseValueAt(v, key), key).None?
    ensures NumItems(EraseValueAt(v, key)) == if GetValueAt(v, key).Some? then NumItems(v) - 1 else NumItems(v)
    ensures GetValueAt(EraseValueAt(v, key), other) == GetValueAt(v, other)
  {
    var r := EraseValueAt(v, key);
    match SlotOf(v.entries, key)
    case None =>
    case Some(s) =>
      var es := v.entries;
      assert r.entries == es[..s] + es[s + 1..];
      assert forall i :: 0 <= i < |r.entries| ==> r.entries[i] == if i < s then es[i] else es[i + 1];
      match SlotOf(es, other)
      case None =>
        assert GetValueAt(r, other).None?;
      case Some(o) =>
        var o' := if o < s then o else o - 1;
        assert r.entries[o'] == es[o];
        SlotOfDistinct(r.entries, o');
  }

  // ----- decode targets -----

  /** Every entry is a value of its own descriptor. */
  predicate WellTyped(es: seq<Entry>) {
    forall i :: 0 <= i < |es| ==> HasType(es[i].item.val, es[i].item.info)
  }

  /** Two entry sequences have the same keys and descriptors, slot by slot. */
  predicate SameSlots(a: seq<Entry>, b: seq<Entry>) {
    |a| == |b| && forall i :: 0 <= i < |a| ==> a[i].key == b[i].key && a[i].item.info == b[i].item.info
  }

  /** target has room for v the way the decoders fill it: after each
      resize, every child of v lands on a slot of the same shape. Scalars fit
      anywhere; a List slot must already have the descriptor of v's child
      (decoding keeps a slot's descriptor); a Dict must have v's keys and
      descriptors in v's order (decoding never adds or removes keys). */
  predicate Fits(t: TypeInfo, target: Value, v: Value)
    decreases v
  {
    match t
    case ArrayInfo(_, child) =>
      target.ArrayV? && v.ArrayV? &&
      forall i :: 0 <= i < |v.elems| ==>
        Fits(child, if i < |target.elems| then target.elems[i] else Default(child), v.elems[i])
    case ListInfo(_, pad) =>
      target.ListV? && v.ListV? &&
      forall i :: 0 <= i < |v.items| ==>
        var slot := if i < |target.items| then target.items[i] else Typed(pad, Default(pad));
        slot.info == v.items[i].info && Fits(slot.info, slot.val, v.items[i].val)
    case DictInfo(_, _) =>
      target.DictV? && v.DictV? && SameSlots(target.entries, v.entries) &&
      forall i :: 0 <= i < |v.entries| ==>
        Fits(v.entries[i].item.info, target.entries[i].item.val, v.entries[i].item.val)
    case _ => true
  }

  /** Every value fits into itself. */
  lemma {:induction false} FitsSelf(t: TypeInfo, v: Value)
    requires HasType(v, t)
    ensures Fits(t, v, v)
    decreases v
  {
    match t
    case ArrayInfo(_, child) =>
      forall i | 0 <= i < |v.elems| ensures Fits(child, v.elems[i], v.elems[i]) {
        FitsSelf(child, v.elems[i]);
      }
    case ListInfo(_, _) =>
      forall i | 0 <= i < |v.items| ensures Fits(v.items[i].info, v.items[i].val, v.items[i].val) {
        FitsSelf(v.items[i].info, v.items[i].val);
      }
    case DictInfo(_, _) =>
      forall i | 0 <= i < |v.entries|
        ensures Fits(v.entries[i].item.info, v.entries[i].item.val, v.entries[i].item.val)
      {
        FitsSelf(v.entries[i].item.info, v.entries[i].item.val);
      }
    case _ =>
  }
}
