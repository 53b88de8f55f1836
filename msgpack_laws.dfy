/**
 * What the MessagePack codec promises, proved about `ToMsgPack`,
 * `Unpack` and `FromMsgPack`.
 *
 * Packing fails exactly when the value holds an unsigned 64-bit integer
 * (the codec's `assert` for that case); otherwise the unpacker gives back
 * `WireOf(t, v)`, an object tree defined here independently of the packer.
 * Decoding that tree into a target with room for v gives v back, except that
 * a Bool anywhere in v makes decoding fail: a Bool is packed as a char, comes
 * back as an integer, and the decoder asserts a BOOLEAN object.
 */
module MsgPackCodecLaws {
  import opened Outcomes
  import opened Descriptor
  import opened MsgPackWire
  import opened MsgPackCodec
  import IntNumeric

  /** v holds an unsigned 64-bit integer somewhere. */
  predicate HasU64(t: TypeInfo, v: Value)
    decreases v
  {
    match t
    case IntegerInfo(_, _) => !t.IsSigned() && t.IntBitWidth() == 64
    case ArrayInfo(_, child) => v.ArrayV? && exists i :: 0 <= i < |v.elems| && HasU64(child, v.elems[i])
    case ListInfo(_, _) => v.ListV? && exists i :: 0 <= i < |v.items| && HasU64(v.items[i].info, v.items[i].val)
    case DictInfo(_, _) =>
      v.DictV? && exists i :: 0 <= i < |v.entries| && HasU64(v.entries[i].item.info, v.entries[i].item.val)
    case _ => false
  }

  /** v holds a Bool somewhere. */
  predicate HasBool(t: TypeInfo, v: Value)
    decreases v
  {
    match t
    case BoolInfo(_) => true
    case ArrayInfo(_, child) => v.ArrayV? && exists i :: 0 <= i < |v.elems| && HasBool(child, v.elems[i])
    case ListInfo(_, _) => v.ListV? && exists i :: 0 <= i < |v.items| && HasBool(v.items[i].info, v.items[i].val)
    case DictInfo(_, _) =>
      v.DictV? && exists i :: 0 <= i < |v.entries| && HasBool(v.entries[i].item.info, v.entries[i].item.val)
    case _ => false
  }

  /** The object the unpacker should give back for a value: a Bool as the
      integer 1 or 0, an integer by its sign, a float as a 64-bit float, a
      string as STR, an Array or a List as an ARRAY of its children, a Dict as
      a MAP of (STR key, value) pairs in cursor order. */
  function WireOf(t: TypeInfo, v: Value): (m: MsgObject)
    requires HasType(v, t)
    ensures t.ArrayInfo? ==> m.MArray? && |m.elems| == |v.elems|
    ensures t.ListInfo? ==> m.MArray? && |m.elems| == |v.items|
    ensures t.DictInfo? ==> m.MMap? && |m.pairs| == |v.entries|
    decreases v
  {
    match t
    case BoolInfo(_) => IntObject(if v.b then 1 else 0)
    case IntegerInfo(_, _) => IntObject(v.i)
    case FloatInfo(_, _) => MFloat64(v.d)
    case StringInfo(_) => MStr(v.s)
    case ArrayInfo(_, child) =>
      MArray(seq(|v.elems|, i requires 0 <= i < |v.elems| => WireOf(child, v.elems[i])))
    case ListInfo(_, _) =>
      MArray(seq(|v.items|, i requires 0 <= i < |v.items| => WireOf(v.items[i].info, v.items[i].val)))
    case DictInfo(_, _) =>
      MMap(seq(|v.entries|, i requires 0 <= i < |v.entries| =>
        KeyVal(MStr(v.entries[i].key), WireOf(v.entries[i].item.info, v.entries[i].item.val))))
  }

  // ----- packing integers -----

  lemma {:induction false} Pow2Add(a: nat, b: nat)
    ensures IntNumeric.Pow2(a + b) == IntNumeric.Pow2(a) * IntNumeric.Pow2(b)
    decreases a
  {
    if a > 0 {
      Pow2Add(a - 1, b);
    }
  }

  lemma Pow2Widths()
    ensures IntNumeric.Pow2(8) == 0x100 && IntNumeric.Pow2(16) == 0x1_0000 && IntNumeric.Pow2(32) == 0x1_0000_0000
  {
    Pow2Add(8, 8);
    Pow2Add(16, 16);
  }

  /** The integer packer call for a value of the field's range: a signed field
      is packed with its own width, an unsigned field narrower than 64 bits
      too (`safe_cast` never fires); an unsigned 64-bit field fails its
      `assert`. */
  lemma IntPacking(t: TypeInfo, i: int64)
    requires t.IntegerInfo? && ValidInfo(t) && IntFits(t, i)
    ensures t.IsSigned() ==> IntPackEvent(t, i) == Ok(PackInt(t.IntBitWidth(), i))
    ensures !t.IsSigned() && t.IntBitWidth() < 64 ==> IntPackEvent(t, i) == Ok(PackUInt(t.IntBitWidth(), i))
    ensures !t.IsSigned() && t.IntBitWidth() == 64 ==> IntPackEvent(t, i) == Fail(AssertionFailed)
  {
    Pow2Widths();
  }

  /** An 8-, 16- or 32-bit field goes through `safe_cast`: packing succeeds
      exactly when the value lies in the field's range, and a value outside
      it fails the cast's `assert`. */
  lemma SafeCastPacking(t: TypeInfo, val: int64)
    requires t.IntegerInfo? && (t.IntBitWidth() == 8 || t.IntBitWidth() == 16 || t.IntBitWidth() == 32)
    ensures CastKeeps(val, t.IntBitWidth(), t.IsSigned()) <==> IntFits(t, val)
    ensures IntPackEvent(t, val).Ok? <==> IntFits(t, val)
    ensures !IntFits(t, val) ==> IntPackEvent(t, val) == Fail(AssertionFailed)
  {
    Pow2Widths();
  }

  // ----- packing fails exactly on unsigned 64-bit integers -----

  /** Packing fails exactly when v holds an unsigned 64-bit integer, and
      then with a failed `assert`. */
  lemma {:induction false} PackFails(t: TypeInfo, v: Value)
    requires HasType(v, t)
    ensures ToMsgPack(t, v).Fail? <==> HasU64(t, v)
    ensures ToMsgPack(t, v).Fail? ==> ToMsgPack(t, v).error == AssertionFailed
    decreases v, 1
  {
    match t
    case BoolInfo(_) =>
    case IntegerInfo(_, _) => IntPacking(t, v.i);
    case FloatInfo(_, _) =>
    case StringInfo(_) =>
    case ArrayInfo(_, child) => ElemsFail(child, v.elems, 0);
    case ListInfo(_, _) => ItemsFail(v.items, 0);
    case DictInfo(_, _) => EntriesFail(v.entries, 0);
  }

  lemma {:induction false} ElemsFail(child: TypeInfo, vs: seq<Value>, idx: nat)
    requires idx <= |vs| && forall i :: 0 <= i < |vs| ==> HasType(vs[i], child)
    ensures ToMsgPackElems(child, vs, idx).Fail? <==> exists i :: idx <= i < |vs| && HasU64(child, vs[i])
    ensures ToMsgPackElems(child, vs, idx).Fail? ==> ToMsgPackElems(child, vs, idx).error == AssertionFailed
    decreases ArrayV(vs), 0, |vs| - idx
  {
    if idx < |vs| {
      PackFails(child, vs[idx]);
      ElemsFail(child, vs, idx + 1);
    }
  }

  lemma {:induction false} ItemsFail(items: seq<Typed>, idx: nat)
    requires idx <= |items| && forall i :: 0 <= i < |items| ==> HasType(items[i].val, items[i].info)
    ensures ToMsgPackItems(items, idx).Fail? <==>
      exists i :: idx <= i < |items| && HasU64(items[i].info, items[i].val)
    ensures ToMsgPackItems(items, idx).Fail? ==> ToMsgPackItems(items, idx).error == AssertionFailed
    decreases ListV(items), 0, |items| - idx
  {
    if idx < |items| {
      PackFails(items[idx].info, items[idx].val);
      ItemsFail(items, idx + 1);
    }
  }

  lemma {:induction false} EntriesFail(es: seq<Entry>, idx: nat)
    requires idx <= |es| && WellTyped(es)
    ensures ToMsgPackEntries(es, idx).Fail? <==>
      exists i :: idx <= i < |es| && HasU64(es[i].item.info, es[i].item.val)
    ensures ToMsgPackEntries(es, idx).Fail? ==> ToMsgPackEntries(es, idx).error == AssertionFailed
    decreases DictV(es), 0, |es| - idx
  {
    if idx < |es| {
      PackFails(es[idx].item.info, es[idx].item.val);
      EntriesFail(es, idx + 1);
    }
  }

  // ----- unpacking what was packed -----

  /** The unpacker reads back, from what a successful `to_msgpack` wrote,
      exactly the object `WireOf` names, and leaves whatever follows. */
  lemma {:induction false} PackUnpacks(t: TypeInfo, v: Value, rest: seq<PackEvent>)
    requires HasType(v, t) && ToMsgPack(t, v).Ok?
    ensures Unpack(ToMsgPack(t, v).value + rest) == Some((WireOf(t, v), rest))
    decreases v, 2
  {
    match t
    case ArrayInfo(_, _) => ArrayUnpacks(t, v, rest);
    case ListInfo(_, _) => ListUnpacks(t, v, rest);
    case DictInfo(_, _) => DictUnpacks(t, v, rest);
    case IntegerInfo(_, _) =>
      IntPacking(t, v.i);
      assert (ToMsgPack(t, v).value + rest)[1..] == rest;
    case _ =>
      assert (ToMsgPack(t, v).value + rest)[1..] == rest;
  }

  lemma {:induction false} ArrayUnpacks(t: TypeInfo, v: Value, rest: seq<PackEvent>)
    requires t.ArrayInfo? && HasType(v, t) && ToMsgPack(t, v).Ok?
    ensures Unpack(ToMsgPack(t, v).value + rest) == Some((WireOf(t, v), rest))
    decreases v, 1
  {
    var body := ToMsgPackElems(t.childInfo, v.elems, 0).value;
    assert ToMsgPack(t, v).value + rest == [PackArray(|v.elems|)] + (body + rest);
    ElemsUnpack(t, v, 0, rest);
    assert WireOf(t, v).elems[0..] == WireOf(t, v).elems;
  }

  lemma {:induction false} ListUnpacks(t: TypeInfo, v: Value, rest: seq<PackEvent>)
    requires t.ListInfo? && HasType(v, t) && ToMsgPack(t, v).Ok?
    ensures Unpack(ToMsgPack(t, v).value + rest) == Some((WireOf(t, v), rest))
    decreases v, 1
  {
    var body := ToMsgPackItems(v.items, 0).value;
    assert ToMsgPack(t, v).value + rest == [PackArray(|v.items|)] + (body + rest);
    ItemsUnpack(t, v, 0, rest);
    assert WireOf(t, v).elems[0..] == WireOf(t, v).elems;
  }

  lemma {:induction false} DictUnpacks(t: TypeInfo, v: Value, rest: seq<PackEvent>)
    requires t.DictInfo? && HasType(v, t) && ToMsgPack(t, v).Ok?
    ensures Unpack(ToMsgPack(t, v).value + rest) == Some((WireOf(t, v), rest))
    decreases v, 1
  {
    var body := ToMsgPackEntries(v.entries, 0).value;
    assert ToMsgPack(t, v).value + rest == [PackMap(|v.entries|)] + (body + rest);
    EntriesUnpack(t, v, 0, rest);
    assert WireOf(t, v).pairs[0..] == WireOf(t, v).pairs;
  }

  /** One element more in front of an array body. */
  lemma UnpackManyStep(ev: seq<PackEvent>, n: nat, first: MsgObject, mid: seq<PackEvent>,
                       others: seq<MsgObject>, rest: seq<PackEvent>)
    requires n > 0 && Unpack(ev) == Some((first, mid)) && UnpackMany(mid, n - 1) == Some((others, rest))
    ensures UnpackMany(ev, n) == Some(([first] + others, rest))
  {
  }

  /** One key-value pair more in front of a map body, its key a string. */
  lemma UnpackPairsStep(key: Bytes, after: seq<PackEvent>, n: nat, val: MsgObject, mid: seq<PackEvent>,
                        others: seq<KeyVal>, rest: seq<PackEvent>)
    requires n > 0 && Unpack(after) == Some((val, mid)) && UnpackPairs(mid, n - 1) == Some((others, rest))
    ensures UnpackPairs([PackStr(key)] + after, n) == Some(([KeyVal(MStr(key), val)] + others, rest))
  {
    assert ([PackStr(key)] + after)[1..] == after;
  }

  lemma {:induction false} ElemsUnpack(t: TypeInfo, v: Value, idx: nat, rest: seq<PackEvent>)
    requires t.ArrayInfo? && HasType(v, t) && idx <= |v.elems|
    requires ToMsgPackElems(t.childInfo, v.elems, idx).Ok?
    ensures UnpackMany(ToMsgPackElems(t.childInfo, v.elems, idx).value + rest, |v.elems| - idx)
      == Some((WireOf(t, v).elems[idx..], rest))
    decreases v, 0, |v.elems| - idx
  {
    var w := WireOf(t, v).elems;
    if idx == |v.elems| {
      assert ToMsgPackElems(t.childInfo, v.elems, idx).value + rest == rest;
    } else {
      var child := t.childInfo;
      var head := ToMsgPack(child, v.elems[idx]).value;
      var tail := ToMsgPackElems(child, v.elems, idx + 1).value;
      assert ToMsgPackElems(child, v.elems, idx).value + rest == head + (tail + rest);
      PackUnpacks(child, v.elems[idx], tail + rest);
      ElemsUnpack(t, v, idx + 1, rest);
      UnpackManyStep(head + (tail + rest), |v.elems| - idx, w[idx], tail + rest, w[idx + 1..], rest);
      assert w[idx..] == [w[idx]] + w[idx + 1..];
    }
  }

  lemma {:induction false} ItemsUnpack(t: TypeInfo, v: Value, idx: nat, rest: seq<PackEvent>)
    requires t.ListInfo? && HasType(v, t) && idx <= |v.items|
    requires ToMsgPackItems(v.items, idx).Ok?
    ensures UnpackMany(ToMsgPackItems(v.items, idx).value + rest, |v.items| - idx)
      == Some((WireOf(t, v).elems[idx..], rest))
    decreases v, 0, |v.items| - idx
  {
    var w := WireOf(t, v).elems;
    if idx == |v.items| {
      assert ToMsgPackItems(v.items, idx).value + rest == rest;
    } else {
      var item := v.items[idx];
      var head := ToMsgPack(item.info, item.val).value;
      var tail := ToMsgPackItems(v.items, idx + 1).value;
      assert ToMsgPackItems(v.items, idx).value + rest == head + (tail + rest);
      PackUnpacks(item.info, item.val, tail + rest);
      ItemsUnpack(t, v, idx + 1, rest);
      UnpackManyStep(head + (tail + rest), |v.items| - idx, w[idx], tail + rest, w[idx + 1..], rest);
      assert w[idx..] == [w[idx]] + w[idx + 1..];
    }
  }

  lemma {:induction false} EntriesUnpack(t: TypeInfo, v: Value, idx: nat, rest: seq<PackEvent>)
    requires t.DictInfo? && HasType(v, t) && idx <= |v.entries|
    requires ToMsgPackEntries(v.entries, idx).Ok?
    ensures UnpackPairs(ToMsgPackEntries(v.entries, idx).value + rest, |v.entries| - idx)
      == Some((WireOf(t, v).pairs[idx..], rest))
    decreases v, 0, |v.entries| - idx
  {
    if idx == |v.entries| {
      assert ToMsgPackEntries(v.entries, idx).value + rest == rest;
      assert WireOf(t, v).pairs[idx..] == [];
    } else {
      var e := v.entries[idx];
      var tail := ToMsgPackEntries(v.entries, idx + 1).value;
      PackUnpacks(e.item.info, e.item.val, tail + rest);
      EntriesUnpack(t, v, idx + 1, rest);
      EntryUnpacks(t, v, idx, rest);
    }
  }

  /** The step of `EntriesUnpack`: the pair at idx in front of the rest. */
  lemma EntryUnpacks(t: TypeInfo, v: Value, idx: nat, rest: seq<PackEvent>)
    requires t.DictInfo? && HasType(v, t) && idx < |v.entries|
    requires ToMsgPackEntries(v.entries, idx).Ok?
    requires ToMsgPack(v.entries[idx].item.info, v.entries[idx].item.val).Ok?
    requires ToMsgPackEntries(v.entries, idx + 1).Ok?
    requires Unpack(ToMsgPack(v.entries[idx].item.info, v.entries[idx].item.val).value +
                    (ToMsgPackEntries(v.entries, idx + 1).value + rest))
      == Some((WireOf(v.entries[idx].item.info, v.entries[idx].item.val), ToMsgPackEntries(v.entries, idx + 1).value + rest))
    requires UnpackPairs(ToMsgPackEntries(v.entries, idx + 1).value + rest, |v.entries| - (idx + 1))
      == Some((WireOf(t, v).pairs[idx + 1..], rest))
    ensures UnpackPairs(ToMsgPackEntries(v.entries, idx).value + rest, |v.entries| - idx)
      == Some((WireOf(t, v).pairs[idx..], rest))
  {
    var w := WireOf(t, v).pairs;
    var e := v.entries[idx];
    var head := ToMsgPack(e.item.info, e.item.val).value;
    var tail := ToMsgPackEntries(v.entries, idx + 1).value;
    assert ToMsgPackEntries(v.entries, idx).value + rest == [PackStr(e.key)] + (head + (tail + rest));
    assert w[idx] == KeyVal(MStr(e.key), WireOf(e.item.info, e.item.val));
    UnpackPairsStep(e.key, head + (tail + rest), |v.entries| - idx, w[idx].val, tail + rest, w[idx + 1..], rest);
    assert w[idx..] == [w[idx]] + w[idx + 1..];
  }

  // ----- decoding the unpacked object -----

  /** Decoding `WireOf(t, v)` into a target with room for v gives v back
      when v holds no Bool, and fails the BOOLEAN `assert` when it does. */
  lemma {:induction false} DecodeWire(t: TypeInfo, target: Value, v: Value)
    requires HasType(v, t) && HasType(target, t) && Fits(t, target, v)
    ensures FromMsgPack(t, target, WireOf(t, v)) == if HasBool(t, v) then Fail(AssertionFailed) else Ok(v)
    decreases v, 1
  {
    match t
    case ArrayInfo(_, _) => ArrayDecodesWire(t, target, v);
    case ListInfo(_, _) => ListDecodesWire(t, target, v);
    case DictInfo(_, _) => DictDecodesWire(t, target, v);
    case _ =>
  }

  lemma {:induction false} ArrayDecodesWire(t: TypeInfo, target: Value, v: Value)
    requires t.ArrayInfo? && HasType(v, t) && HasType(target, t) && Fits(t, target, v)
    ensures FromMsgPack(t, target, WireOf(t, v)) == if HasBool(t, v) then Fail(AssertionFailed) else Ok(v)
    decreases v, 0, |v.elems| + 1, 0
  {
    var m := WireOf(t, v);
    var slots := ResizeArray(t, target, |m.elems|).elems;
    ElemsDecode(t.childInfo, m.elems, slots, 0, v.elems);
  }

  lemma {:induction false} ListDecodesWire(t: TypeInfo, target: Value, v: Value)
    requires t.ListInfo? && HasType(v, t) && HasType(target, t) && Fits(t, target, v)
    ensures FromMsgPack(t, target, WireOf(t, v)) == if HasBool(t, v) then Fail(AssertionFailed) else Ok(v)
    decreases v, 0, |v.items| + 1
  {
    var m := WireOf(t, v);
    var slots := ResizeList(t, target, |m.elems|).items;
    ItemsDecode(m.elems, slots, 0, v.items);
  }

  lemma {:induction false} DictDecodesWire(t: TypeInfo, target: Value, v: Value)
    requires t.DictInfo? && HasType(v, t) && HasType(target, t) && Fits(t, target, v)
    ensures FromMsgPack(t, target, WireOf(t, v)) == if HasBool(t, v) then Fail(AssertionFailed) else Ok(v)
    decreases v, 0, |v.entries| + 1
  {
    PairsDecode(WireOf(t, v).pairs, target.entries, 0, v.entries);
  }

  /** The Array fill loop half way: the wire children are those of vs,
      the slots before idx already hold vs's children and the others have
      room for them. */
  predicate ElemsFilling(child: TypeInfo, ms: seq<MsgObject>, elems: seq<Value>, idx: nat, vs: seq<Value>) {
    |ms| == |vs| == |elems| && idx <= |vs| &&
    (forall i :: 0 <= i < |vs| ==> HasType(vs[i], child) && ms[i] == WireOf(child, vs[i])) &&
    (forall i :: 0 <= i < |elems| ==> HasType(elems[i], child)) &&
    (forall i :: 0 <= i < idx ==> elems[i] == vs[i]) &&
    (forall i :: idx <= i < |vs| ==> Fits(child, elems[i], vs[i]))
  }

  lemma ElemsFillingStep(child: TypeInfo, ms: seq<MsgObject>, elems: seq<Value>, idx: nat, vs: seq<Value>)
    requires ElemsFilling(child, ms, elems, idx, vs) && idx < |vs|
    ensures ElemsFilling(child, ms, elems[idx := vs[idx]], idx + 1, vs)
  {
  }

  lemma ElemsDecode(child: TypeInfo, ms: seq<MsgObject>, elems: seq<Value>, idx: nat, vs: seq<Value>)
    requires ElemsFilling(child, ms, elems, idx, vs)
    ensures FromMsgPackElems(child, ms, elems, idx) ==
      if exists i :: idx <= i < |vs| && HasBool(child, vs[i]) then Fail(AssertionFailed) else Ok(vs)
    decreases ArrayV(vs), 0, |vs| - idx, 1
  {
    if i :| idx <= i < |vs| && HasBool(child, vs[i]) {
      ElemsDecodeFail(child, ms, elems, idx, vs, i);
    } else {
      ElemsDecodeOk(child, ms, elems, idx, vs);
    }
  }

  /** Without a Bool among the children from idx on, the fill loop puts
      vs's children into the slots. */
  lemma {:induction false} ElemsDecodeOk(child: TypeInfo, ms: seq<MsgObject>, elems: seq<Value>, idx: nat,
                                         vs: seq<Value>)
    requires ElemsFilling(child, ms, elems, idx, vs)
    requires forall i :: idx <= i < |vs| ==> !HasBool(child, vs[i])
    ensures FromMsgPackElems(child, ms, elems, idx) == Ok(vs)
    decreases ArrayV(vs), 0, |vs| - idx, 0
  {
    if idx < |vs| {
      DecodeWire(child, elems[idx], vs[idx]);
      ElemsFillingStep(child, ms, elems, idx, vs);
      ElemsDecodeOk(child, ms, elems[idx := vs[idx]], idx + 1, vs);
    } else {
      assert elems == vs;
    }
  }

  /** With a Bool at child k, the fill loop stops there with a failed
      `assert`. */
  lemma {:induction false} ElemsDecodeFail(child: TypeInfo, ms: seq<MsgObject>, elems: seq<Value>, idx: nat,
                                           vs: seq<Value>, k: nat)
    requires ElemsFilling(child, ms, elems, idx, vs)
    requires idx <= k < |vs| && HasBool(child, vs[k])
    ensures FromMsgPackElems(child, ms, elems, idx) == Fail(AssertionFailed)
    decreases ArrayV(vs), 0, |vs| - idx, 0
  {
    DecodeWire(child, elems[idx], vs[idx]);
    if !HasBool(child, vs[idx]) {
      ElemsFillingStep(child, ms, elems, idx, vs);
      ElemsDecodeFail(child, ms, elems[idx := vs[idx]], idx + 1, vs, k);
    }
  }

  /** The List fill loop half way. */
  predicate ItemsFilling(ms: seq<MsgObject>, items: seq<Typed>, idx: nat, vs: seq<Typed>) {
    |ms| == |vs| == |items| && idx <= |vs| &&
    (forall i :: 0 <= i < |vs| ==> HasType(vs[i].val, vs[i].info) && ms[i] == WireOf(vs[i].info, vs[i].val)) &&
    (forall i :: 0 <= i < |items| ==> HasType(items[i].val, items[i].info)) &&
    (forall i :: 0 <= i < idx ==> items[i] == vs[i]) &&
    (forall i :: idx <= i < |vs| ==> items[i].info == vs[i].info && Fits(vs[i].info, items[i].val, vs[i].val))
  }

  lemma ItemsFillingStep(ms: seq<MsgObject>, items: seq<Typed>, idx: nat, vs: seq<Typed>)
    requires ItemsFilling(ms, items, idx, vs) && idx < |vs|
    ensures ItemsFilling(ms, items[idx := vs[idx]], idx + 1, vs)
  {
  }

  lemma ItemsDecode(ms: seq<MsgObject>, items: seq<Typed>, idx: nat, vs: seq<Typed>)
    requires ItemsFilling(ms, items, idx, vs)
    ensures FromMsgPackItems(ms, items, idx) ==
      if exists i :: idx <= i < |vs| && HasBool(vs[i].info, vs[i].val) then Fail(AssertionFailed) else Ok(vs)
    decreases ListV(vs), 0, |vs| - idx, 1
  {
    if i :| idx <= i < |vs| && HasBool(vs[i].info, vs[i].val) {
      ItemsDecodeFail(ms, items, idx, vs, i);
    } else {
      ItemsDecodeOk(ms, items, idx, vs);
    }
  }

  /** Without a Bool among the items from idx on, the fill loop puts vs's
      items into the slots. */
  lemma {:induction false} ItemsDecodeOk(ms: seq<MsgObject>, items: seq<Typed>, idx: nat, vs: seq<Typed>)
    requires ItemsFilling(ms, items, idx, vs)
    requires forall i :: idx <= i < |vs| ==> !HasBool(vs[i].info, vs[i].val)
    ensures FromMsgPackItems(ms, items, idx) == Ok(vs)
    decreases ListV(vs), 0, |vs| - idx, 0
  {
    if idx < |vs| {
      assert vs[idx] in vs;
      DecodeWire(vs[idx].info, items[idx].val, vs[idx].val);
      ItemsFillingStep(ms, items, idx, vs);
      ItemsDecodeOk(ms, items[idx := vs[idx]], idx + 1, vs);
    } else {
      assert items == vs;
    }
  }

  /** With a Bool at item k, the fill loop stops there with a failed
      `assert`. */
  lemma {:induction false} ItemsDecodeFail(ms: seq<MsgObject>, items: seq<Typed>, idx: nat, vs: seq<Typed>, k: nat)
    requires ItemsFilling(ms, items, idx, vs)
    requires idx <= k < |vs| && HasBool(vs[k].info, vs[k].val)
    ensures FromMsgPackItems(ms, items, idx) == Fail(AssertionFailed)
    decreases ListV(vs), 0, |vs| - idx, 0
  {
    assert vs[idx] in vs;
    DecodeWire(vs[idx].info, items[idx].val, vs[idx].val);
    if !HasBool(vs[idx].info, vs[idx].val) {
      ItemsFillingStep(ms, items, idx, vs);
      ItemsDecodeFail(ms, items[idx := vs[idx]], idx + 1, vs, k);
    }
  }

  /** The Dict pair loop half way. */
  predicate PairsFilling(pairs: seq<KeyVal>, entries: seq<Entry>, idx: nat, vs: seq<Entry>) {
    |pairs| == |vs| && idx <= |vs| &&
    WellTyped(vs) && DistinctKeys(vs) &&
    (forall i :: 0 <= i < |vs| ==>
      pairs[i] == KeyVal(MStr(vs[i].key), WireOf(vs[i].item.info, vs[i].item.val))) &&
    WellTyped(entries) && DistinctKeys(entries) && SameSlots(entries, vs) &&
    (forall i :: 0 <= i < idx ==> entries[i] == vs[i]) &&
    (forall i :: idx <= i < |vs| ==> Fits(vs[i].item.info, entries[i].item.val, vs[i].item.val))
  }

  lemma PairsFillingStep(pairs: seq<KeyVal>, entries: seq<Entry>, idx: nat, vs: seq<Entry>)
    requires PairsFilling(pairs, entries, idx, vs) && idx < |vs|
    ensures PairsFilling(pairs, entries[idx := vs[idx]], idx + 1, vs)
  {
  }

  lemma PairsDecode(pairs: seq<KeyVal>, entries: seq<Entry>, idx: nat, vs: seq<Entry>)
    requires PairsFilling(pairs, entries, idx, vs)
    ensures FromMsgPackPairs(pairs, entries, idx) ==
      if exists i :: idx <= i < |vs| && HasBool(vs[i].item.info, vs[i].item.val) then Fail(AssertionFailed)
      else Ok(vs)
    decreases DictV(vs), 0, |vs| - idx, 1
  {
    if i :| idx <= i < |vs| && HasBool(vs[i].item.info, vs[i].item.val) {
      PairsDecodeFail(pairs, entries, idx, vs, i);
    } else {
      PairsDecodeOk(pairs, entries, idx, vs);
    }
  }

  /** The member at idx decodes in place into its slot, which keeps its
      key. */
  lemma PairDecodes(pairs: seq<KeyVal>, entries: seq<Entry>, idx: nat, vs: seq<Entry>)
    requires PairsFilling(pairs, entries, idx, vs) && idx < |vs|
    ensures pairs[idx].key == MStr(vs[idx].key) && SlotOf(entries, vs[idx].key) == Some(idx)
    ensures FromMsgPack(entries[idx].item.info, entries[idx].item.val, pairs[idx].val) ==
      if HasBool(vs[idx].item.info, vs[idx].item.val) then Fail(AssertionFailed) else Ok(vs[idx].item.val)
    ensures entries[idx := Entry(entries[idx].key, Typed(entries[idx].item.info, vs[idx].item.val))] ==
      entries[idx := vs[idx]]
    decreases DictV(vs), 0, 0, 0
  {
    SlotOfDistinct(entries, idx);
    assert vs[idx] in vs;
    DecodeWire(vs[idx].item.info, entries[idx].item.val, vs[idx].item.val);
    assert entries[idx := Entry(entries[idx].key, Typed(entries[idx].item.info, vs[idx].item.val))] == entries[idx := vs[idx]];
  }

  /** Without a Bool among the members from idx on, the fill loop puts vs's
      values into the slots. */
  lemma {:induction false} PairsDecodeOk(pairs: seq<KeyVal>, entries: seq<Entry>, idx: nat, vs: seq<Entry>)
    requires PairsFilling(pairs, entries, idx, vs)
    requires forall i :: idx <= i < |vs| ==> !HasBool(vs[i].item.info, vs[i].item.val)
    ensures FromMsgPackPairs(pairs, entries, idx) == Ok(vs)
    decreases DictV(vs), 0, |vs| - idx, 0
  {
    if idx < |vs| {
      PairDecodes(pairs, entries, idx, vs);
      PairsFillingStep(pairs, entries, idx, vs);
      PairsDecodeOk(pairs, entries[idx := vs[idx]], idx + 1, vs);
    } else {
      assert entries == vs;
    }
  }

  /** With a Bool at member k, the fill loop stops there with a failed
      `assert`. */
  lemma {:induction false} PairsDecodeFail(pairs: seq<KeyVal>, entries: seq<Entry>, idx: nat, vs: seq<Entry>, k: nat)
    requires PairsFilling(pairs, entries, idx, vs)
    requires idx <= k < |vs| && HasBool(vs[k].item.info, vs[k].item.val)
    ensures FromMsgPackPairs(pairs, entries, idx) == Fail(AssertionFailed)
    decreases DictV(vs), 0, |vs| - idx, 0
  {
    PairDecodes(pairs, entries, idx, vs);
    if !HasBool(vs[idx].item.info, vs[idx].item.val) {
      PairsFillingStep(pairs, entries, idx, vs);
      PairsDecodeFail(pairs, entries[idx := vs[idx]], idx + 1, vs, k);
    }
  }

  // ----- what the decoder asserts -----

  /** `from_msgpack` checks the object it is given: each scalar fails its
      `assert` on any object type but its own (BOOLEAN, POSITIVE or
      NEGATIVE_INTEGER, FLOAT, STR) and otherwise stores the object's value,
      an integer of the field's range read through `via.i64` as it is; an Array or List ends with as many children as the wire
      array has, a List's slots keeping their descriptors; a Dict keeps its
      keys and descriptors, and fails when a pair's key is not a STR or names
      no slot. */
  lemma MsgPackDecoding(t: TypeInfo, target: Value, m: MsgObject)
    requires HasType(target, t)
    ensures t.BoolInfo? ==> FromMsgPack(t, target, m) == if m.MBoolean? then Ok(BoolV(m.b)) else Fail(AssertionFailed)
    ensures t.IntegerInfo? && !(m.MPositiveInteger? || m.MNegativeInteger?) ==>
      FromMsgPack(t, target, m) == Fail(AssertionFailed)
    ensures t.IntegerInfo? && m.MPositiveInteger? && IntFits(t, AsInt64(m.u)) ==>
      FromMsgPack(t, target, m) == Ok(IntV(AsInt64(m.u)))
    ensures t.IntegerInfo? && m.MNegativeInteger? && IntFits(t, m.i) ==> FromMsgPack(t, target, m) == Ok(IntV(m.i))
    ensures t.FloatInfo? ==> FromMsgPack(t, target, m) == if m.MFloat64? then Ok(FloatV(m.d)) else Fail(AssertionFailed)
    ensures t.StringInfo? ==> FromMsgPack(t, target, m) == if m.MStr? then Ok(StrV(m.s)) else Fail(AssertionFailed)
    ensures t.ArrayInfo? && FromMsgPack(t, target, m).Ok? ==>
      m.MArray? && NumChilds(FromMsgPack(t, target, m).value) == |m.elems|
    ensures t.ListInfo? && FromMsgPack(t, target, m).Ok? ==>
      m.MArray? && ListNumChilds(FromMsgPack(t, target, m).value) == |m.elems| &&
      forall i :: 0 <= i < |m.elems| ==>
        FromMsgPack(t, target, m).value.items[i].info == ResizeList(t, target, |m.elems|).items[i].info
    ensures t.DictInfo? && FromMsgPack(t, target, m).Ok? ==>
      m.MMap? && SameSlots(FromMsgPack(t, target, m).value.entries, target.entries)
    ensures (t.DictInfo? && m.MMap? && exists k :: 0 <= k < |m.pairs| && !KnownKey(target.entries, m.pairs[k].key))
      ==> FromMsgPack(t, target, m).Fail?
  {
    if t.DictInfo? && m.MMap? && exists k :: 0 <= k < |m.pairs| && !KnownKey(target.entries, m.pairs[k].key) {
      var k :| 0 <= k < |m.pairs| && !KnownKey(target.entries, m.pairs[k].key);
      PairsRejectKey(m.pairs, target.entries, 0, k);
    }
  }

  /** A map key the Dict accepts: a STR naming one of its slots. */
  predicate KnownKey(entries: seq<Entry>, key: MsgObject) {
    key.MStr? && exists i :: 0 <= i < |entries| && entries[i].key == key.s
  }

  /** The Dict pair loop fails once it reaches a pair whose key it does not
      accept. */
  lemma {:induction false} PairsRejectKey(pairs: seq<KeyVal>, entries: seq<Entry>, idx: nat, k: nat)
    requires WellTyped(entries) && DistinctKeys(entries)
    requires idx <= k < |pairs| && !KnownKey(entries, pairs[k].key)
    ensures FromMsgPackPairs(pairs, entries, idx).Fail?
    decreases |pairs| - idx
  {
    if idx < k && pairs[idx].key.MStr? {
      match SlotOf(entries, pairs[idx].key.s)
      case None =>
      case Some(s) =>
        var slot := entries[s].item;
        var y := FromMsgPack(slot.info, slot.val, pairs[idx].val);
        if y.Ok? {
          var entries' := entries[s := Entry(entries[s].key, Typed(slot.info, y.value))];
          assert SameSlots(entries', entries);
          assert !KnownKey(entries', pairs[k].key);
          PairsRejectKey(pairs, entries', idx + 1, k);
        }
    }
  }

  // ----- from_msgpack on containers: resize, then fill slot by slot -----

  /** The Array fill loop from idx on succeeds exactly when every remaining
      `array.ptr[i]` decodes into its slot. */
  lemma {:induction false} ElemsSucceed(child: TypeInfo, ms: seq<MsgObject>, elems: seq<Value>, idx: nat)
    requires idx <= |elems| == |ms|
    requires forall i :: 0 <= i < |elems| ==> HasType(elems[i], child)
    ensures FromMsgPackElems(child, ms, elems, idx).Ok? <==>
      forall i :: idx <= i < |elems| ==> FromMsgPack(child, elems[i], ms[i]).Ok?
    decreases |elems| - idx
  {
    if idx < |elems| {
      var y := FromMsgPack(child, elems[idx], ms[idx]);
      if y.Ok? {
        ElemsSucceed(child, ms, elems[idx := y.value], idx + 1);
      }
    }
  }

  /** When it succeeds, the Array fill loop from idx on leaves the slots
      before idx alone and puts into slot i what decoding `array.ptr[i]`
      into slot i gives. */
  lemma {:induction false} ElemsSlotwise(child: TypeInfo, ms: seq<MsgObject>, elems: seq<Value>, idx: nat)
    requires idx <= |elems| == |ms|
    requires forall i :: 0 <= i < |elems| ==> HasType(elems[i], child)
    ensures FromMsgPackElems(child, ms, elems, idx).Ok? ==>
      var r := FromMsgPackElems(child, ms, elems, idx).value;
      (forall i :: 0 <= i < idx ==> r[i] == elems[i]) &&
      forall i :: idx <= i < |elems| ==> FromMsgPack(child, elems[i], ms[i]) == Ok(r[i])
    decreases |elems| - idx
  {
    if idx < |elems| {
      var y := FromMsgPack(child, elems[idx], ms[idx]);
      if y.Ok? {
        ElemsSlotwise(child, ms, elems[idx := y.value], idx + 1);
      }
    }
  }

  /** `from_msgpack` on an Array: an object that is not an ARRAY is read
      through the wrong union member; an ARRAY resizes the target to its
      size, and then the call succeeds exactly when each `array.ptr[i]`
      decodes into resized child i, child i of the result being that
      decoding. */
  lemma ArrayDecoding(t: TypeInfo, target: Value, m: MsgObject)
    requires t.ArrayInfo? && HasType(target, t)
    ensures !m.MArray? ==> FromMsgPack(t, target, m) == Fail(UndefinedBehaviour)
    ensures m.MArray? ==>
      var slots := ResizeArray(t, target, |m.elems|).elems;
      (FromMsgPack(t, target, m).Ok? <==>
        forall i :: 0 <= i < |m.elems| ==> FromMsgPack(t.childInfo, slots[i], m.elems[i]).Ok?) &&
      (FromMsgPack(t, target, m).Ok? ==>
        var r := FromMsgPack(t, target, m).value;
        NumChilds(r) == |m.elems| &&
        forall i :: 0 <= i < |m.elems| ==> FromMsgPack(t.childInfo, slots[i], m.elems[i]) == Ok(r.elems[i]))
  {
    if m.MArray? {
      ElemsSucceed(t.childInfo, m.elems, ResizeArray(t, target, |m.elems|).elems, 0);
      ElemsSlotwise(t.childInfo, m.elems, ResizeArray(t, target, |m.elems|).elems, 0);
    }
  }

  /** The List fill loop from idx on succeeds exactly when every remaining
      `array.ptr[i]` decodes into its slot. */
  lemma {:induction false} ItemsSucceed(ms: seq<MsgObject>, items: seq<Typed>, idx: nat)
    requires idx <= |items| == |ms|
    requires forall i :: 0 <= i < |items| ==> HasType(items[i].val, items[i].info)
    ensures FromMsgPackItems(ms, items, idx).Ok? <==>
      forall i :: idx <= i < |items| ==> FromMsgPack(items[i].info, items[i].val, ms[i]).Ok?
    decreases |items| - idx
  {
    if idx < |items| {
      var y := FromMsgPack(items[idx].info, items[idx].val, ms[idx]);
      if y.Ok? {
        ItemsSucceed(ms, items[idx := Typed(items[idx].info, y.value)], idx + 1);
      }
    }
  }

  /** When it succeeds, the List fill loop from idx on decodes slot by slot,
      each slot keeping its descriptor. */
  lemma {:induction false} ItemsSlotwise(ms: seq<MsgObject>, items: seq<Typed>, idx: nat)
    requires idx <= |items| == |ms|
    requires forall i :: 0 <= i < |items| ==> HasType(items[i].val, items[i].info)
    ensures FromMsgPackItems(ms, items, idx).Ok? ==>
      var r := FromMsgPackItems(ms, items, idx).value;
      (forall i :: 0 <= i < idx ==> r[i] == items[i]) &&
      forall i :: idx <= i < |items| ==>
        r[i].info == items[i].info && FromMsgPack(items[i].info, items[i].val, ms[i]) == Ok(r[i].val)
    decreases |items| - idx
  {
    if idx < |items| {
      var y := FromMsgPack(items[idx].info, items[idx].val, ms[idx]);
      if y.Ok? {
        ItemsSlotwise(ms, items[idx := Typed(items[idx].info, y.value)], idx + 1);
      }
    }
  }

  /** `from_msgpack` on a List: an object that is not an ARRAY is read
      through the wrong union member; an ARRAY resizes the target to its
      size (appended children are default objects of the pad descriptor),
      then child i is decoded from `array.ptr[i]` with its own descriptor. */
  lemma ListDecoding(t: TypeInfo, target: Value, m: MsgObject)
    requires t.ListInfo? && HasType(target, t)
    ensures !m.MArray? ==> FromMsgPack(t, target, m) == Fail(UndefinedBehaviour)
    ensures m.MArray? ==>
      var slots := ResizeList(t, target, |m.elems|).items;
      (FromMsgPack(t, target, m).Ok? <==>
        forall i :: 0 <= i < |m.elems| ==> FromMsgPack(slots[i].info, slots[i].val, m.elems[i]).Ok?) &&
      (FromMsgPack(t, target, m).Ok? ==>
        var r := FromMsgPack(t, target, m).value;
        ListNumChilds(r) == |m.elems| &&
        forall i :: 0 <= i < |m.elems| ==>
          r.items[i].info == slots[i].info && FromMsgPack(slots[i].info, slots[i].val, m.elems[i]) == Ok(r.items[i].val))
  {
    if m.MArray? {
      ItemsSucceed(m.elems, ResizeList(t, target, |m.elems|).items, 0);
      ItemsSlotwise(m.elems, ResizeList(t, target, |m.elems|).items, 0);
    }
  }

  /** Some pair from idx on has the STR key `key`. */
  predicate PairNames(pairs: seq<KeyVal>, idx: nat, key: Bytes) {
    exists k :: idx <= k < |pairs| && pairs[k].key == MStr(key)
  }

  /** The Dict pair loop changes no entry whose key no remaining pair
      names. */
  lemma {:induction false} PairsUntouched(pairs: seq<KeyVal>, entries: seq<Entry>, idx: nat)
    requires idx <= |pairs|
    requires WellTyped(entries) && DistinctKeys(entries)
    ensures FromMsgPackPairs(pairs, entries, idx).Ok? ==>
      forall i :: 0 <= i < |entries| && !PairNames(pairs, idx, entries[i].key) ==>
        FromMsgPackPairs(pairs, entries, idx).value[i] == entries[i]
    decreases |pairs| - idx
  {
    if idx < |pairs| && pairs[idx].key.MStr? {
      match SlotOf(entries, pairs[idx].key.s)
      case None =>
      case Some(s) =>
        var slot := entries[s].item;
        var y := FromMsgPack(slot.info, slot.val, pairs[idx].val);
        if y.Ok? {
          var entries' := entries[s := Entry(entries[s].key, Typed(slot.info, y.value))];
          assert SameSlots(entries', entries);
          PairsUntouched(pairs, entries', idx + 1);
          var r := FromMsgPackPairs(pairs, entries, idx);
          assert r == FromMsgPackPairs(pairs, entries', idx + 1);
          forall i | 0 <= i < |entries| && !PairNames(pairs, idx, entries[i].key) && r.Ok?
            ensures r.value[i] == entries[i]
          {
            assert pairs[idx].key == MStr(entries[s].key);
            assert i != s;
            assert !PairNames(pairs, idx + 1, entries'[i].key);
          }
        }
    }
  }

  /** `from_msgpack` on a Dict: an object that is not a MAP is read through
      the wrong union member; a MAP never resizes the dict: a pair whose key
      is not a STR naming a slot makes the call fail, and on success every
      key and descriptor is kept and every entry no pair names keeps its
      value. */
  lemma DictDecoding(t: TypeInfo, target: Value, m: MsgObject)
    requires t.DictInfo? && HasType(target, t)
    ensures !m.MMap? ==> FromMsgPack(t, target, m) == Fail(UndefinedBehaviour)
    ensures m.MMap? && (exists k :: 0 <= k < |m.pairs| && !KnownKey(target.entries, m.pairs[k].key)) ==>
      FromMsgPack(t, target, m).Fail?
    ensures FromMsgPack(t, target, m).Ok? ==>
      var r := FromMsgPack(t, target, m).value;
      m.MMap? && SameSlots(r.entries, target.entries) &&
      forall i :: 0 <= i < |target.entries| && !PairNames(m.pairs, 0, target.entries[i].key) ==>
        r.entries[i] == target.entries[i]
  {
    if m.MMap? {
      if exists k :: 0 <= k < |m.pairs| && !KnownKey(target.entries, m.pairs[k].key) {
        var k :| 0 <= k < |m.pairs| && !KnownKey(target.entries, m.pairs[k].key);
        PairsRejectKey(m.pairs, target.entries, 0, k);
      }
      PairsUntouched(m.pairs, target.entries, 0);
    }
  }

  // ----- end to end -----

  /** Packing a value, unpacking what was written and decoding the object
      into a target with room for it gives the value back, provided it holds
      neither an unsigned 64-bit integer (packing fails) nor a Bool (decoding
      fails). */
  lemma MsgPackRoundTrip(t: TypeInfo, target: Value, v: Value)
    requires HasType(v, t) && HasType(target, t) && Fits(t, target, v)
    requires !HasU64(t, v) && !HasBool(t, v)
    ensures ToMsgPack(t, v).Ok?
    ensures Unpack(ToMsgPack(t, v).value) == Some((WireOf(t, v), []))
    ensures FromMsgPack(t, target, WireOf(t, v)) == Ok(v)
  {
    PackFails(t, v);
    PackUnpacks(t, v, []);
    assert ToMsgPack(t, v).value + [] == ToMsgPack(t, v).value;
    DecodeWire(t, target, v);
  }

  /** Decoding a value's own encoding back into it changes nothing. */
  lemma MsgPackRoundTripInPlace(t: TypeInfo, v: Value)
    requires HasType(v, t) && !HasU64(t, v) && !HasBool(t, v)
    ensures ToMsgPack(t, v).Ok?
    ensures Unpack(ToMsgPack(t, v).value) == Some((WireOf(t, v), []))
    ensures FromMsgPack(t, v, WireOf(t, v)) == Ok(v)
  {
    FitsSelf(t, v);
    MsgPackRoundTrip(t, v, v);
  }

  /** A Bool does not survive the trip: it is packed as the char 1 or 0, the
      unpacker gives back a POSITIVE_INTEGER, and decoding into a Bool fails
      the BOOLEAN `assert`, whatever the target held. */
  lemma BoolDoesNotRoundTrip(b: bool, target: bool)
    ensures ToMsgPack(NewBoolInfo(), BoolV(b)) == Ok([PackChar(if b then 1 else 0)])
    ensures Unpack([PackChar(if b then 1 else 0)]) == Some((MPositiveInteger(if b then 1 else 0), []))
    ensures FromMsgPack(NewBoolInfo(), BoolV(target), MPositiveInteger(if b then 1 else 0)) == Fail(AssertionFailed)
  {
  }
}
