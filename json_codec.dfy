/**
 * The JSON codec of `utils.cpp`: `to_json` maps a value to a document through
 * its descriptor, `from_json` writes a document into an existing value.
 *
 * `ToJson` and `FromJson` state what the codec computes; `EncodeJson` and
 * `DecodeJson` follow the loops of the C++ code (index loops over children, the
 * dict cursor loop, resize-then-fill) and are proved to compute exactly that.
 */
module JsonCodec {
  import opened Outcomes
  import opened Descriptor
  import opened JsonDoc

  /** `to_json(type_info, object)`: the dispatcher picks the branch from the
      descriptor's kind. Scalars become the matching JSON scalar, Arrays and
      Lists an array in index order, Dicts an object built by emplacing the
      members in cursor order. */
  function ToJson(t: TypeInfo, v: Value): Json
    requires HasType(v, t)
    decreases v
  {
    match t
    case BoolInfo(_) => JBool(v.b)
    case IntegerInfo(_, _) => JInt(v.i)
    case FloatInfo(_, _) => JFloat(v.d)
    case StringInfo(_) => JString(v.s)
    case ArrayInfo(_, child) =>
      JArray(seq(|v.elems|, i requires 0 <= i < |v.elems| => ToJson(child, v.elems[i])))
    case ListInfo(_, _) =>
      JArray(seq(|v.items|, i requires 0 <= i < |v.items| => ToJson(v.items[i].info, v.items[i].val)))
    case DictInfo(_, _) =>
      JObject(EmplaceAll([], DictMembers(v.entries)))
  }

  /** The members a dict's cursor walk emplaces: each key with its encoded
      value, in cursor order. */
  function DictMembers(es: seq<Entry>): (ms: seq<Member>)
    requires WellTyped(es)
    ensures |ms| == |es|
    ensures forall i :: 0 <= i < |ms| ==> ms[i] == Member(es[i].key, ToJson(es[i].item.info, es[i].item.val))
    decreases es
  {
    if es == [] then []
    else [Member(es[0].key, ToJson(es[0].item.info, es[0].item.val))] + DictMembers(es[1..])
  }

  /** `from_json(type_info, object, json)`: writes the document into the
      target. Scalars are set from `json.get<T>()`. Arrays and Lists are first
      resized to `json.size()`, then child idx is decoded from `json[idx]`.
      Dicts are not resized: each item of `json.items()` is decoded into the
      slot `getValueAt` gives for its key. */
  function FromJson(t: TypeInfo, target: Value, j: Json): (r: Result<Value>)
    requires HasType(target, t)
    ensures r.Ok? ==> HasType(r.value, t)
    ensures r.Ok? && t.DictInfo? ==> SameSlots(r.value.entries, target.entries)
    decreases j, 1, target, |Items(j)| + 1
  {
    match t
    case BoolInfo(_) =>
      (match GetBool(j)
       case Ok(b) => Ok(BoolV(b))
       case Fail(e) => Fail(e))
    case IntegerInfo(_, _) =>
      (match GetInt64(j)
       case Ok(i) => Ok(IntV(StoreInt(t, i)))
       case Fail(e) => Fail(e))
    case FloatInfo(_, _) =>
      (match GetDouble(j)
       case Ok(d) => Ok(FloatV(d))
       case Fail(e) => Fail(e))
    case StringInfo(_) =>
      (match GetString(j)
       case Ok(s) => Ok(StrV(s))
       case Fail(e) => Fail(e))
    case ArrayInfo(_, child) =>
      var resized := ResizeArray(t, target, Size(j));
      (match FromJsonElems(child, j, resized.elems, 0)
       case Ok(es) => Ok(ArrayV(es))
       case Fail(e) => Fail(e))
    case ListInfo(_, _) =>
      var resized := ResizeList(t, target, Size(j));
      (match FromJsonItems(j, resized.items, 0)
       case Ok(items) => Ok(ListV(items))
       case Fail(e) => Fail(e))
    case DictInfo(_, _) =>
      match FromJsonMembers(j, target, target.entries, Items(j), 0)
      case Ok(es) => Ok(DictV(es))
      case Fail(e) => Fail(e)
  }

  /** The fill loop of an Array: child idx, idx+1, ... decoded from
      `json[idx]`, ... into the resized children. */
  function FromJsonElems(child: TypeInfo, j: Json, elems: seq<Value>, idx: nat): (r: Result<seq<Value>>)
    requires idx <= |elems| == Size(j)
    requires forall i :: 0 <= i < |elems| ==> HasType(elems[i], child)
    ensures r.Ok? ==> |r.value| == |elems| && forall i :: 0 <= i < |elems| ==> HasType(r.value[i], child)
    decreases j, 0, Default(child), |elems| - idx
  {
    if idx == |elems| then Ok(elems)
    else
      match At(j, idx)
      case Fail(e) => Fail(e)
      case Ok(x) =>
        match FromJson(child, elems[idx], x)
        case Fail(e) => Fail(e)
        case Ok(y) => FromJsonElems(child, j, elems[idx := y], idx + 1)
  }

  /** The fill loop of a List: each child decoded with its own descriptor. */
  function FromJsonItems(j: Json, items: seq<Typed>, idx: nat): (r: Result<seq<Typed>>)
    requires idx <= |items| == Size(j)
    requires forall i :: 0 <= i < |items| ==> HasType(items[i].val, items[i].info)
    ensures r.Ok? ==> |r.value| == |items| && forall i :: 0 <= i < |items| ==>
      r.value[i].info == items[i].info && HasType(r.value[i].val, r.value[i].info)
    decreases j, 0, Default(BoolInfo(1)), |items| - idx
  {
    if idx == |items| then Ok(items)
    else
      match At(j, idx)
      case Fail(e) => Fail(e)
      case Ok(x) =>
        match FromJson(items[idx].info, items[idx].val, x)
        case Fail(e) => Fail(e)
        case Ok(y) => FromJsonItems(j, items[idx := Typed(items[idx].info, y)], idx + 1)
  }

  /** The item loop of a Dict: item idx, idx+1, ... of `json.items()`, each
      decoded into the slot of its key. A non-container document has one
      item, itself, so decoding recurses into a slot of the target with the
      same document. */
  function FromJsonMembers(j: Json, target: Value, entries: seq<Entry>, items: seq<Member>, idx: nat)
    : (r: Result<seq<Entry>>)
    requires target.DictV? && items == Items(j) && idx <= |items|
    requires WellTyped(entries) && DistinctKeys(entries)
    requires j.JObject? || j.JArray? || entries == target.entries || idx == |items|
    ensures r.Ok? ==> SameSlots(r.value, entries) && WellTyped(r.value)
    decreases j, 1, target, |items| - idx
  {
    if idx == |items| then Ok(entries)
    else
      match FromJsonSlot(entries, items[idx].key, items[idx].value)
      case Fail(e) => Fail(e)
      case Ok(entries') => FromJsonMembers(j, target, entries', items, idx + 1)
  }

  /** One item of a Dict: `getValueAt(object, key)` finds the slot of the
      key (`UnknownKey` when there is none) and the value is decoded into it
      with the slot's descriptor. */
  function FromJsonSlot(entries: seq<Entry>, key: Bytes, value: Json): (r: Result<seq<Entry>>)
    requires WellTyped(entries) && DistinctKeys(entries)
    ensures r.Ok? ==> SameSlots(r.value, entries) && WellTyped(r.value) && DistinctKeys(r.value)
    ensures r.Ok? ==> forall i :: 0 <= i < |entries| && entries[i].key != key ==> r.value[i] == entries[i]
    decreases value, 1, entries, 0
  {
    match SlotOf(entries, key)
    case None => Fail(UnknownKey)
    case Some(s) =>
      var slot := entries[s].item;
      assert entries[s] in entries;
      match FromJson(slot.info, slot.val, value)
      case Fail(e) => Fail(e)
      case Ok(y) =>
        var entries' := entries[s := Entry(key, Typed(slot.info, y))];
        assert SameSlots(entries', entries);
        Ok(entries')
  }

  /** `to_json(type_info, object)` as the C++ code runs it: the dispatcher
      reads scalars through the descriptor's getter and hands containers to
      their own encoder. */
  method EncodeJson(t: TypeInfo, v: Value) returns (j: Json)
    requires HasType(v, t)
    ensures j == ToJson(t, v)
    decreases v, 1
  {
    match t
    case BoolInfo(_) => j := JBool(BoolGet(v));
    case IntegerInfo(_, _) => j := JInt(v.i);
    case FloatInfo(_, _) => j := JFloat(v.d);
    case StringInfo(_) => j := JString(v.s);
    case ArrayInfo(_, _) => j := EncodeJsonArray(t, v);
    case ListInfo(_, _) => j := EncodeJsonList(t, v);
    case DictInfo(_, _) => j := EncodeJsonDict(t, v);
  }

  /** `to_json(const ArrayInfo &, ...)`: an index loop over the children,
      pushing each encoded child. */
  method EncodeJsonArray(t: TypeInfo, v: Value) returns (j: Json)
    requires t.ArrayInfo? && HasType(v, t)
    ensures j == ToJson(t, v)
    decreases v, 0
  {
    var elems: seq<Json> := [];
    var idx := 0;
    var numChild := NumChilds(v);
    while idx < numChild
      invariant idx <= numChild == |v.elems|
      invariant |elems| == idx
      invariant forall i :: 0 <= i < idx ==> elems[i] == ToJson(t.childInfo, v.elems[i])
    {
      var e := EncodeJson(t.childInfo, v.elems[idx]);
      elems := elems + [e];
      idx := idx + 1;
    }
    j := JArray(elems);
  }

  /** `to_json(const ListInfo &, ...)`: an index loop over `getChildAt`,
      encoding each child with its own descriptor. */
  method EncodeJsonList(t: TypeInfo, v: Value) returns (j: Json)
    requires t.ListInfo? && HasType(v, t)
    ensures j == ToJson(t, v)
    decreases v, 0
  {
    var elems: seq<Json> := [];
    var numChild := ListNumChilds(v);
    for i := 0 to numChild
      invariant |elems| == i
      invariant forall k :: 0 <= k < i ==> elems[k] == ToJson(v.items[k].info, v.items[k].val)
    {
      var child := GetChildAt(v, i);
      var e := EncodeJson(child.info, child.val);
      elems := elems + [e];
    }
    j := JArray(elems);
  }

  /** `to_json(const DictInfo &, ...)`: a cursor walk from `beginIter` to
      `isEndIter`, emplacing each key with its encoded value. */
  method EncodeJsonDict(t: TypeInfo, v: Value) returns (j: Json)
    requires t.DictInfo? && HasType(v, t)
    ensures j == ToJson(t, v)
    decreases v, 0
  {
    var members: seq<Member> := [];
    var iter := BeginIter(v);
    while !IsEndIter(v, iter)
      invariant iter.pos <= |v.entries|
      invariant EmplaceAll(members, DictMembers(v.entries[iter.pos..])) == ToJson(t, v).members
      decreases |v.entries| - iter.pos
    {
      var key := KeyAtIter(v, iter);
      var value := ValueAtIter(v, iter);
      var e := EncodeJson(value.info, value.val);
      assert v.entries[iter.pos..][1..] == v.entries[iter.pos + 1..];
      members := Emplace(members, key, e);
      iter := NextIter(v, iter);
    }
    assert v.entries[iter.pos..] == [];
    j := JObject(members);
  }

  /** `from_json(type_info, object, json)` as the C++ code runs it: scalars
      through `get<T>` and the descriptor's setter, containers through their
      own decoder. */
  method DecodeJson(t: TypeInfo, target: Value, j: Json) returns (r: Result<Value>)
    requires HasType(target, t)
    ensures r == FromJson(t, target, j)
    decreases j, 1, target, 1
  {
    match t
    case BoolInfo(_) =>
      var b := GetBool(j);
      if b.Fail? { return Fail(b.error); }
      r := Ok(BoolSet(target, b.value));
    case IntegerInfo(_, _) =>
      var i := GetInt64(j);
      if i.Fail? { return Fail(i.error); }
      r := Ok(IntV(StoreInt(t, i.value)));
    case FloatInfo(_, _) =>
      var d := GetDouble(j);
      if d.Fail? { return Fail(d.error); }
      r := Ok(FloatV(d.value));
    case StringInfo(_) =>
      var s := GetString(j);
      if s.Fail? { return Fail(s.error); }
      r := Ok(StrV(s.value));
    case ArrayInfo(_, _) => r := DecodeJsonArray(t, target, j);
    case ListInfo(_, _) => r := DecodeJsonList(t, target, j);
    case DictInfo(_, _) => r := DecodeJsonDict(t, target, j);
  }

  /** `from_json(const ArrayInfo &, ...)`: resize to `json.size()`, then an
      index loop decoding `json[idx]` into child idx. */
  method DecodeJsonArray(t: TypeInfo, target: Value, j: Json) returns (r: Result<Value>)
    requires t.ArrayInfo? && HasType(target, t)
    ensures r == FromJson(t, target, j)
    decreases j, 1, target, 0
  {
    var numChilds := Size(j);
    var resized := ResizeArray(t, target, numChilds);
    var elems := resized.elems;
    var idx := 0;
    while idx < numChilds
      invariant idx <= numChilds == |elems|
      invariant forall i :: 0 <= i < |elems| ==> HasType(elems[i], t.childInfo)
      invariant FromJsonElems(t.childInfo, j, elems, idx) == FromJsonElems(t.childInfo, j, resized.elems, 0)
    {
      var x := At(j, idx);
      if x.Fail? { return Fail(x.error); }
      var y := DecodeJson(t.childInfo, elems[idx], x.value);
      if y.Fail? { return Fail(y.error); }
      elems := elems[idx := y.value];
      idx := idx + 1;
    }
    r := Ok(ArrayV(elems));
  }

  /** `from_json(const ListInfo &, ...)`: resize to `json.size()`, then an
      index loop decoding `json[idx]` into `getChildAt(idx)`. */
  method DecodeJsonList(t: TypeInfo, target: Value, j: Json) returns (r: Result<Value>)
    requires t.ListInfo? && HasType(target, t)
    ensures r == FromJson(t, target, j)
    decreases j, 1, target, 0
  {
    var numChilds := Size(j);
    var resized := ResizeList(t, target, numChilds);
    var items := resized.items;
    var idx := 0;
    while idx < numChilds
      invariant idx <= numChilds == |items|
      invariant forall i :: 0 <= i < |items| ==> HasType(items[i].val, items[i].info)
      invariant FromJsonItems(j, items, idx) == FromJsonItems(j, resized.items, 0)
    {
      var child := items[idx];
      var x := At(j, idx);
      if x.Fail? { return Fail(x.error); }
      var y := DecodeJson(child.info, child.val, x.value);
      if y.Fail? { return Fail(y.error); }
      items := items[idx := Typed(child.info, y.value)];
      idx := idx + 1;
    }
    r := Ok(ListV(items));
  }

  /** `from_json(const DictInfo &, ...)`: a loop over `json.items()`, each
      value decoded into the slot `getValueAt` gives for its key. */
  method DecodeJsonDict(t: TypeInfo, target: Value, j: Json) returns (r: Result<Value>)
    requires t.DictInfo? && HasType(target, t)
    ensures r == FromJson(t, target, j)
    decreases j, 1, target, 0
  {
    var items := Items(j);
    var entries := target.entries;
    var idx := 0;
    while idx < |items|
      invariant idx <= |items|
      invariant WellTyped(entries) && DistinctKeys(entries)
      invariant j.JObject? || j.JArray? || entries == target.entries || idx == |items|
      invariant FromJsonMembers(j, target, entries, items, idx)
             == FromJsonMembers(j, target, target.entries, items, 0)
    {
      var next := DecodeJsonSlot(entries, items[idx].key, items[idx].value);
      if next.Fail? { return Fail(next.error); }
      entries := next.value;
      idx := idx + 1;
    }
    r := Ok(DictV(entries));
  }

  /** `getValueAt(object, key)` followed by `from_json` into the slot it
      gives. */
  method DecodeJsonSlot(entries: seq<Entry>, key: Bytes, value: Json) returns (r: Result<seq<Entry>>)
    requires WellTyped(entries) && DistinctKeys(entries)
    ensures r == FromJsonSlot(entries, key, value)
    decreases value, 1, entries, 0
  {
    var slot := SlotOf(entries, key);
    if slot.None? { return Fail(UnknownKey); }
    var s := slot.value;
    var child := entries[s].item;
    assert entries[s] in entries;
    var y := DecodeJson(child.info, child.val, value);
    if y.Fail? { return Fail(y.error); }
    r := Ok(entries[s := Entry(key, Typed(child.info, y.value))]);
  }
}
