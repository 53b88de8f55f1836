/**
 * The MessagePack codec of `utils.cpp`: `to_msgpack` makes packer calls from
 * a value through its descriptor, `from_msgpack` writes an unpacked object
 * into an existing value.
 *
 * `ToMsgPack` and `FromMsgPack` state what the codec computes, with the
 * codec's `assert`s and its reads of the wrong union member as errors;
 * `EncodeMsgPack` and `DecodeMsgPack` follow the loops of the C++ code and are
 * proved to compute exactly that.
 */
module MsgPackCodec {
  import opened Outcomes
  import opened Descriptor
  import opened MsgPackWire
  import IntNumeric

  /** `safe_cast<T>(val)` keeps the value: it lies in the range of the C
      integer type of the given width and signedness. */
  predicate CastKeeps(val: int, width: nat, signed: bool) {
    var m: int := IntNumeric.Pow2(width);
    if signed then -m / 2 <= val < m / 2 else 0 <= val < m
  }

  /** The packer call for an integer: signed fields of 8, 16 and 32 bits
      through `safe_cast` (whose `assert` fails when the value does not fit),
      signed 64-bit fields as they are; unsigned fields of 8, 16 and 32 bits
      through `safe_cast`; an unsigned 64-bit field fails its `assert`; any
      other width reaches `__builtin_unreachable`. */
  function IntPackEvent(t: TypeInfo, val: int64): (r: Result<PackEvent>)
    requires t.IntegerInfo?
  {
    var w := t.IntBitWidth();
    if t.IsSigned() then
      if w == 8 || w == 16 || w == 32 then
        if CastKeeps(val, w, true) then Ok(PackInt(w, val)) else Fail(AssertionFailed)
      else if w == 64 then Ok(PackInt(64, val))
      else Fail(UndefinedBehaviour)
    else
      if w == 8 || w == 16 || w == 32 then
        if CastKeeps(val, w, false) then Ok(PackUInt(w, val)) else Fail(AssertionFailed)
      else if w == 64 then Fail(AssertionFailed)
      else Fail(UndefinedBehaviour)
  }

  /** The calls `pre` followed by those of r, unless r failed. */
  function Prepend(pre: seq<PackEvent>, r: Result<seq<PackEvent>>): Result<seq<PackEvent>> {
    match r
    case Ok(rest) => Ok(pre + rest)
    case Fail(e) => Fail(e)
  }

  lemma PrependLaws(a: seq<PackEvent>, b: seq<PackEvent>, r: Result<seq<PackEvent>>)
    ensures Prepend([], r) == r
    ensures Prepend(a, Prepend(b, r)) == Prepend(a + b, r)
  {
    if r.Ok? {
      assert [] + r.value == r.value;
      assert a + (b + r.value) == (a + b) + r.value;
    }
  }

  /** The calls of `head` followed by those of `tail`; the first failure
      ends the sequence. */
  function Then(head: Result<seq<PackEvent>>, tail: Result<seq<PackEvent>>): Result<seq<PackEvent>> {
    match head
    case Fail(e) => Fail(e)
    case Ok(first) => Prepend(first, tail)
  }

  /** One call of an encoding loop: with `done` emitted after `start`, the
      whole loop's calls `whole` are `done` and then `head` and `tail`. A
      call that emitted `head` moves it into `done`; a failed call is the
      failure of the whole loop. */
  lemma LoopStep(r: Result<()>, before: seq<PackEvent>, after: seq<PackEvent>, start: seq<PackEvent>,
                 done: seq<PackEvent>, head: Result<seq<PackEvent>>, tail: Result<seq<PackEvent>>,
                 whole: Result<seq<PackEvent>>)
    requires before == start + done && whole == Prepend(done, Then(head, tail))
    requires Emitted(r, before, after, head)
    ensures r.Fail? ==> whole == Fail(r.error)
    ensures r.Ok? ==> head.Ok? && after == start + (done + head.value) && whole == Prepend(done + head.value, tail)
  {
    if r.Ok? {
      PrependLaws(done, head.value, tail);
    }
  }

  /** `to_msgpack(type_info, object, packer)`: a Bool as the char 1 or 0, an
      integer through `IntPackEvent`, a float as a double, a string with its
      body; an Array or List as an array header with the child count followed
      by the children in index order; a Dict as a map header with
      `getNumItems` followed by each key and value in cursor order. The first
      failing `assert` ends the call. */
  function ToMsgPack(t: TypeInfo, v: Value): Result<seq<PackEvent>>
    requires HasType(v, t)
    decreases v, 1
  {
    match t
    case BoolInfo(_) => Ok([PackChar(if v.b then 1 else 0)])
    case IntegerInfo(_, _) =>
      (match IntPackEvent(t, v.i)
       case Ok(e) => Ok([e])
       case Fail(err) => Fail(err))
    case FloatInfo(_, _) => Ok([PackDouble(v.d)])
    case StringInfo(_) => Ok([PackStr(v.s)])
    case ArrayInfo(_, child) => Prepend([PackArray(|v.elems|)], ToMsgPackElems(child, v.elems, 0))
    case ListInfo(_, _) => Prepend([PackArray(|v.items|)], ToMsgPackItems(v.items, 0))
    case DictInfo(_, _) => Prepend([PackMap(|v.entries|)], ToMsgPackEntries(v.entries, 0))
  }

  /** The children of an Array from index idx on, one after another. */
  function ToMsgPackElems(child: TypeInfo, vs: seq<Value>, idx: nat): Result<seq<PackEvent>>
    requires idx <= |vs|
    requires forall i :: 0 <= i < |vs| ==> HasType(vs[i], child)
    decreases ArrayV(vs), 0, |vs| - idx
  {
    if idx == |vs| then Ok([])
    else
      Then(ToMsgPack(child, vs[idx]), ToMsgPackElems(child, vs, idx + 1))
  }

  /** The children of a List from index idx on, each with its own
      descriptor. */
  function ToMsgPackItems(items: seq<Typed>, idx: nat): Result<seq<PackEvent>>
    requires idx <= |items|
    requires forall i :: 0 <= i < |items| ==> HasType(items[i].val, items[i].info)
    decreases ListV(items), 0, |items| - idx
  {
    if idx == |items| then Ok([])
    else
      Then(ToMsgPack(items[idx].info, items[idx].val), ToMsgPackItems(items, idx + 1))
  }

  /** The entries of a Dict from cursor position idx on: each key as a
      string, then its value. */
  function ToMsgPackEntries(es: seq<Entry>, idx: nat): Result<seq<PackEvent>>
    requires idx <= |es|
    requires WellTyped(es)
    decreases DictV(es), 0, |es| - idx
  {
    if idx == |es| then Ok([])
    else
      Then(Prepend([PackStr(es[idx].key)], ToMsgPack(es[idx].item.info, es[idx].item.val)), ToMsgPackEntries(es, idx + 1))
  }

  /** `from_msgpack(type_info, object, msg_obj)`: each scalar asserts the
      object's type (a Bool wants BOOLEAN, an integer POSITIVE_INTEGER or
      NEGATIVE_INTEGER read through `via.i64`, a float FLOAT, a string STR)
      and stores it through the descriptor's setter. An Array or List reads
      `via.array`, is resized to its size and then filled child by child; a
      Dict reads `via.map` and, for each pair, asserts a STR key and decodes
      the value into the slot `getValueAt` gives for it. Reading `via.array`
      or `via.map` of an object of another type is undefined. */
  function FromMsgPack(t: TypeInfo, target: Value, m: MsgObject): (r: Result<Value>)
    requires HasType(target, t)
    ensures r.Ok? ==> HasType(r.value, t)
    ensures r.Ok? && t.DictInfo? ==> SameSlots(r.value.entries, target.entries)
    decreases m, 1
  {
    match t
    case BoolInfo(_) =>
      if m.MBoolean? then Ok(BoolV(m.b)) else Fail(AssertionFailed)
    case IntegerInfo(_, _) =>
      if m.MPositiveInteger? then Ok(IntV(StoreInt(t, AsInt64(m.u))))
      else if m.MNegativeInteger? then Ok(IntV(StoreInt(t, m.i)))
      else Fail(AssertionFailed)
    case FloatInfo(_, _) =>
      if m.MFloat64? then Ok(FloatV(m.d)) else Fail(AssertionFailed)
    case StringInfo(_) =>
      if m.MStr? then Ok(StrV(m.s)) else Fail(AssertionFailed)
    case ArrayInfo(_, child) =>
      if !m.MArray? then Fail(UndefinedBehaviour)
      else
        var resized := ResizeArray(t, target, |m.elems|);
        (match FromMsgPackElems(child, m.elems, resized.elems, 0)
         case Ok(es) => Ok(ArrayV(es))
         case Fail(e) => Fail(e))
    case ListInfo(_, _) =>
      if !m.MArray? then Fail(UndefinedBehaviour)
      else
        var resized := ResizeList(t, target, |m.elems|);
        (match FromMsgPackItems(m.elems, resized.items, 0)
         case Ok(items) => Ok(ListV(items))
         case Fail(e) => Fail(e))
    case DictInfo(_, _) =>
      if !m.MMap? then Fail(UndefinedBehaviour)
      else
        match FromMsgPackPairs(m.pairs, target.entries, 0)
        case Ok(es) => Ok(DictV(es))
        case Fail(e) => Fail(e)
  }

  /** The fill loop of an Array: child idx, idx+1, ... from `array.ptr[idx]`,
      ... */
  function FromMsgPackElems(child: TypeInfo, ms: seq<MsgObject>, elems: seq<Value>, idx: nat)
    : (r: Result<seq<Value>>)
    requires idx <= |elems| == |ms|
    requires forall i :: 0 <= i < |elems| ==> HasType(elems[i], child)
    ensures r.Ok? ==> |r.value| == |elems| && forall i :: 0 <= i < |elems| ==> HasType(r.value[i], child)
    decreases MArray(ms), 0, |ms| - idx
  {
    if idx == |ms| then Ok(elems)
    else
      match FromMsgPack(child, elems[idx], ms[idx])
      case Fail(e) => Fail(e)
      case Ok(y) => FromMsgPackElems(child, ms, elems[idx := y], idx + 1)
  }

  /** The fill loop of a List: each child decoded with its own descriptor. */
  function FromMsgPackItems(ms: seq<MsgObject>, items: seq<Typed>, idx: nat): (r: Result<seq<Typed>>)
    requires idx <= |items| == |ms|
    requires forall i :: 0 <= i < |items| ==> HasType(items[i].val, items[i].info)
    ensures r.Ok? ==> |r.value| == |items| && forall i :: 0 <= i < |items| ==>
      r.value[i].info == items[i].info && HasType(r.value[i].val, r.value[i].info)
    decreases MArray(ms), 0, |ms| - idx
  {
    if idx == |ms| then Ok(items)
    else
      match FromMsgPack(items[idx].info, items[idx].val, ms[idx])
      case Fail(e) => Fail(e)
      case Ok(y) => FromMsgPackItems(ms, items[idx := Typed(items[idx].info, y)], idx + 1)
  }

  /** The pair loop of a Dict: pair idx, idx+1, ... of `via.map`, each with a
      STR key decoded into the slot of that key. */
  function FromMsgPackPairs(pairs: seq<KeyVal>, entries: seq<Entry>, idx: nat): (r: Result<seq<Entry>>)
    requires idx <= |pairs|
    requires WellTyped(entries) && DistinctKeys(entries)
    ensures r.Ok? ==> SameSlots(r.value, entries) && WellTyped(r.value)
    decreases MMap(pairs), 0, |pairs| - idx
  {
    if idx == |pairs| then Ok(entries)
    else if !pairs[idx].key.MStr? then Fail(AssertionFailed)
    else
      match SlotOf(entries, pairs[idx].key.s)
      case None => Fail(UnknownKey)
      case Some(s) =>
        var slot := entries[s].item;
        match FromMsgPack(slot.info, slot.val, pairs[idx].val)
        case Fail(e) => Fail(e)
        case Ok(y) =>
          var entries' := entries[s := Entry(entries[s].key, Typed(slot.info, y))];
          assert SameSlots(entries', entries);
          FromMsgPackPairs(pairs, entries', idx + 1)
  }

  // ----- the C++ loops -----

  /** A call on the packer ended as spec says: when spec succeeds the call
      succeeded and appended exactly spec's calls; when spec fails the call
      failed with the same error. */
  predicate Emitted(r: Result<()>, before: seq<PackEvent>, after: seq<PackEvent>, spec: Result<seq<PackEvent>>) {
    match spec
    case Ok(evs) => r.Ok? && after == before + evs
    case Fail(e) => r == Fail(e)
  }

  /** `to_msgpack(type_info, object, packer)` as the C++ code runs it. */
  method EncodeMsgPack(t: TypeInfo, v: Value, packer: Packer) returns (r: Result<()>)
    requires HasType(v, t)
    modifies packer
    ensures Emitted(r, old(packer.log), packer.log, ToMsgPack(t, v))
    decreases v, 2
  {
    match t
    case BoolInfo(_) =>
      packer.Pack(PackChar(if BoolGet(v) then 1 else 0));
      r := Ok(());
    case IntegerInfo(_, _) =>
      var e := IntPackEvent(t, v.i);
      if e.Fail? { return Fail(e.error); }
      packer.Pack(e.value);
      r := Ok(());
    case FloatInfo(_, _) =>
      packer.Pack(PackDouble(v.d));
      r := Ok(());
    case StringInfo(_) =>
      packer.Pack(PackStr(v.s));
      r := Ok(());
    case ArrayInfo(_, child) =>
      r := EncodeMsgPackArray(child, v.elems, packer);
    case ListInfo(_, _) =>
      r := EncodeMsgPackList(v.items, packer);
    case DictInfo(_, _) =>
      r := EncodeMsgPackDict(v.entries, packer);
  }

  /** `to_msgpack(elemInfo, numChilds, childBegin, packer)`: the array header,
      then an index loop packing each child. */
  method EncodeMsgPackArray(child: TypeInfo, vs: seq<Value>, packer: Packer) returns (r: Result<()>)
    requires forall i :: 0 <= i < |vs| ==> HasType(vs[i], child)
    modifies packer
    ensures Emitted(r, old(packer.log), packer.log, Prepend([PackArray(|vs|)], ToMsgPackElems(child, vs, 0)))
    decreases ArrayV(vs), 0
  {
    packer.Pack(PackArray(|vs|));
    ghost var start := packer.log;
    ghost var done: seq<PackEvent> := [];
    PrependLaws([], [], ToMsgPackElems(child, vs, 0));
    var idx := 0;
    while idx < |vs|
      invariant idx <= |vs|
      invariant packer.log == start + done
      invariant ToMsgPackElems(child, vs, 0) == Prepend(done, ToMsgPackElems(child, vs, idx))
    {
      ghost var before := packer.log;
      var res := EncodeMsgPack(child, vs[idx], packer);
      LoopStep(res, before, packer.log, start, done, ToMsgPack(child, vs[idx]), ToMsgPackElems(child, vs, idx + 1),
               ToMsgPackElems(child, vs, 0));
      if res.Fail? { return res; }
      done := done + ToMsgPack(child, vs[idx]).value;
      idx := idx + 1;
    }
    r := Ok(());
  }

  /** `ToMsgPack<ListInfo>`: the array header, then an index loop packing
      each `getChildAt` with its own descriptor. */
  method EncodeMsgPackList(items: seq<Typed>, packer: Packer) returns (r: Result<()>)
    requires forall i :: 0 <= i < |items| ==> HasType(items[i].val, items[i].info)
    modifies packer
    ensures Emitted(r, old(packer.log), packer.log, Prepend([PackArray(|items|)], ToMsgPackItems(items, 0)))
    decreases ListV(items), 0
  {
    packer.Pack(PackArray(|items|));
    ghost var start := packer.log;
    ghost var done: seq<PackEvent> := [];
    PrependLaws([], [], ToMsgPackItems(items, 0));
    var idx := 0;
    while idx < |items|
      invariant idx <= |items|
      invariant packer.log == start + done
      invariant ToMsgPackItems(items, 0) == Prepend(done, ToMsgPackItems(items, idx))
    {
      var child := items[idx];
      ghost var before := packer.log;
      var res := EncodeMsgPack(child.info, child.val, packer);
      LoopStep(res, before, packer.log, start, done, ToMsgPack(child.info, child.val), ToMsgPackItems(items, idx + 1),
               ToMsgPackItems(items, 0));
      if res.Fail? { return res; }
      done := done + ToMsgPack(child.info, child.val).value;
      idx := idx + 1;
    }
    r := Ok(());
  }

  /** The Dict loop half way: `done` holds the calls of the members before
      idx, and the calls of the whole loop are those of `done` and then
      those of the members from idx on. */
  predicate EntriesSoFar(es: seq<Entry>, idx: nat, done: seq<PackEvent>)
    requires idx <= |es| && WellTyped(es)
  {
    ToMsgPackEntries(es, 0) == Prepend(done, ToMsgPackEntries(es, idx))
  }

  /** One member of the Dict loop: its calls move into `done`, or its failure
      is that of the whole loop. */
  lemma EntriesStep(es: seq<Entry>, idx: nat, r: Result<()>, before: seq<PackEvent>, after: seq<PackEvent>,
                    start: seq<PackEvent>, done: seq<PackEvent>)
    requires idx < |es| && WellTyped(es) && EntriesSoFar(es, idx, done) && before == start + done
    requires Emitted(r, before, after, Prepend([PackStr(es[idx].key)], ToMsgPack(es[idx].item.info, es[idx].item.val)))
    ensures r.Fail? ==> ToMsgPackEntries(es, 0) == Fail(r.error)
    ensures r.Ok? ==> |start| <= |after| && after == start + after[|start|..] && EntriesSoFar(es, idx + 1, after[|start|..])
  {
    var head := Prepend([PackStr(es[idx].key)], ToMsgPack(es[idx].item.info, es[idx].item.val));
    LoopStep(r, before, after, start, done, head, ToMsgPackEntries(es, idx + 1), ToMsgPackEntries(es, 0));
    if r.Ok? {
      assert after[|start|..] == done + head.value;
    }
  }

  /** `ToMsgPack<DictInfo>`: the map header with `getNumItems`, then a
      cursor walk packing each key as a string followed by its value. */
  method EncodeMsgPackDict(es: seq<Entry>, packer: Packer) returns (r: Result<()>)
    requires WellTyped(es)
    modifies packer
    ensures Emitted(r, old(packer.log), packer.log, Prepend([PackMap(|es|)], ToMsgPackEntries(es, 0)))
    decreases DictV(es), 1
  {
    var v := DictV(es);
    packer.Pack(PackMap(NumItems(v)));
    ghost var start := packer.log;
    ghost var done: seq<PackEvent> := [];
    PrependLaws([], [], ToMsgPackEntries(es, 0));
    var iter := BeginIter(v);
    while !IsEndIter(v, iter)
      invariant iter.pos <= |es|
      invariant packer.log == start + done
      invariant EntriesSoFar(es, iter.pos, done)
      decreases |es| - iter.pos
    {
      ghost var before := packer.log;
      var res := EncodeMsgPackEntry(v, iter, packer);
      EntriesStep(es, iter.pos, res, before, packer.log, start, done);
      if res.Fail? { return res; }
      done := packer.log[|start|..];
      iter := NextIter(v, iter);
    }
    assert ToMsgPackEntries(es, |es|) == Ok([]);
    r := Ok(());
  }

  /** The body of the Dict loop: the key at the cursor packed as a string,
      then its value. */
  method EncodeMsgPackEntry(v: Value, iter: Cursor, packer: Packer) returns (r: Result<()>)
    requires v.DictV? && WellTyped(v.entries) && !IsEndIter(v, iter)
    modifies packer
    ensures Emitted(r, old(packer.log), packer.log,
                    Prepend([PackStr(v.entries[iter.pos].key)], ToMsgPack(v.entries[iter.pos].item.info, v.entries[iter.pos].item.val)))
    decreases v, 0
  {
    var key := KeyAtIter(v, iter);
    var value := ValueAtIter(v, iter);
    packer.Pack(PackStr(key));
    r := EncodeMsgPack(value.info, value.val, packer);
  }

  /** `from_msgpack(type_info, object, msg_obj)` as the C++ code runs it. */
  method DecodeMsgPack(t: TypeInfo, target: Value, m: MsgObject) returns (r: Result<Value>)
    requires HasType(target, t)
    ensures r == FromMsgPack(t, target, m)
    decreases m, 1
  {
    match t
    case BoolInfo(_) =>
      if !m.MBoolean? { return Fail(AssertionFailed); }
      r := Ok(BoolSet(target, m.b));
    case IntegerInfo(_, _) =>
      if !(m.MPositiveInteger? || m.MNegativeInteger?) { return Fail(AssertionFailed); }
      var i64 := if m.MPositiveInteger? then AsInt64(m.u) else m.i;
      r := Ok(IntV(StoreInt(t, i64)));
    case FloatInfo(_, _) =>
      if !m.MFloat64? { return Fail(AssertionFailed); }
      r := Ok(FloatV(m.d));
    case StringInfo(_) =>
      if !m.MStr? { return Fail(AssertionFailed); }
      r := Ok(StrV(m.s));
    case ArrayInfo(_, _) =>
      r := DecodeMsgPackArray(t, target, m);
    case ListInfo(_, _) =>
      r := DecodeMsgPackList(t, target, m);
    case DictInfo(_, _) =>
      r := DecodeMsgPackDict(t, target, m);
  }

  /** `from_msgpack(const ArrayInfo &, ..., msg_obj.via.array)`: resize to
      the array's size, then an index loop decoding `array.ptr[idx]` into
      child idx, the child pointer stepping by the element size so that it
      stands at `ChildOffset` of the index. */
  method DecodeMsgPackArray(t: TypeInfo, target: Value, m: MsgObject) returns (r: Result<Value>)
    requires t.ArrayInfo? && HasType(target, t)
    ensures r == FromMsgPack(t, target, m)
    decreases m, 0
  {
    if !m.MArray? { return Fail(UndefinedBehaviour); }
    var size := |m.elems|;
    var resized := ResizeArray(t, target, size);
    var elems := resized.elems;
    ghost var child := 0;
    var sizeInBytes := t.childInfo.cppByteSize;
    var idx := 0;
    while idx < size
      invariant idx <= size == |elems|
      invariant child == ChildOffset(t.childInfo, idx)
      invariant forall i :: 0 <= i < |elems| ==> HasType(elems[i], t.childInfo)
      invariant FromMsgPackElems(t.childInfo, m.elems, elems, idx)
             == FromMsgPackElems(t.childInfo, m.elems, resized.elems, 0)
    {
      var y := DecodeMsgPack(t.childInfo, elems[idx], m.elems[idx]);
      if y.Fail? { return Fail(y.error); }
      elems := elems[idx := y.value];
      ChildrenContiguous(t.childInfo, idx, idx + 1);
      child := child + sizeInBytes;
      idx := idx + 1;
    }
    r := Ok(ArrayV(elems));
  }

  /** `FromMsgPack<ListInfo>`: resize to the array's size, then an index loop
      decoding `array.ptr[idx]` into `getChildAt(idx)`. */
  method DecodeMsgPackList(t: TypeInfo, target: Value, m: MsgObject) returns (r: Result<Value>)
    requires t.ListInfo? && HasType(target, t)
    ensures r == FromMsgPack(t, target, m)
    decreases m, 0
  {
    if !m.MArray? { return Fail(UndefinedBehaviour); }
    var size := |m.elems|;
    var resized := ResizeList(t, target, size);
    var items := resized.items;
    var idx := 0;
    while idx < size
      invariant idx <= size == |items|
      invariant forall i :: 0 <= i < |items| ==> HasType(items[i].val, items[i].info)
      invariant FromMsgPackItems(m.elems, items, idx) == FromMsgPackItems(m.elems, resized.items, 0)
    {
      var child := items[idx];
      var y := DecodeMsgPack(child.info, child.val, m.elems[idx]);
      if y.Fail? { return Fail(y.error); }
      items := items[idx := Typed(child.info, y.value)];
      idx := idx + 1;
    }
    r := Ok(ListV(items));
  }

  /** `FromMsgPack<DictInfo>`: a loop over the map's pairs, each asserting a
      STR key and decoded into the slot `getValueAt` gives for it. */
  method DecodeMsgPackDict(t: TypeInfo, target: Value, m: MsgObject) returns (r: Result<Value>)
    requires t.DictInfo? && HasType(target, t)
    ensures r == FromMsgPack(t, target, m)
    decreases m, 0
  {
    if !m.MMap? { return Fail(UndefinedBehaviour); }
    var entries := target.entries;
    var idx := 0;
    while idx < |m.pairs|
      invariant idx <= |m.pairs|
      invariant WellTyped(entries) && DistinctKeys(entries)
      invariant FromMsgPackPairs(m.pairs, entries, idx) == FromMsgPackPairs(m.pairs, target.entries, 0)
    {
      var pair := m.pairs[idx];
      if !pair.key.MStr? { return Fail(AssertionFailed); }
      var slot := SlotOf(entries, pair.key.s);
      if slot.None? { return Fail(UnknownKey); }
      var s := slot.value;
      var child := entries[s].item;
      assert pair in m.pairs;
      var y := DecodeMsgPack(child.info, child.val, pair.val);
      if y.Fail? { return Fail(y.error); }
      var entries' := entries[s := Entry(entries[s].key, Typed(child.info, y.value))];
      assert SameSlots(entries', entries);
      entries := entries';
      idx := idx + 1;
    }
    r := Ok(DictV(entries));
  }
}
