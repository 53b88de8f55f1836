/**
 * What the JSON codec promises: the shape of the documents `to_json` writes,
 * the resize-then-fill behaviour of `from_json` on Arrays, the fact that a
 * Dict is never resized and only named slots change, and the round trip
 * `from_json(to_json(v))` back to v.
 */
module JsonCodecLaws {
  import opened Outcomes
  import opened Descriptor
  import opened JsonDoc
  import opened JsonCodec

  // ----- lookup in a document object -----

  /** Lookup finds the first member with a key. */
  lemma {:induction false} LookupAt(ms: seq<Member>, i: nat)
    requires i < |ms| && forall k :: 0 <= k < i ==> ms[k].key != ms[i].key
    ensures Lookup(ms, ms[i].key) == Some(ms[i].value)
    decreases i
  {
    if i > 0 {
      LookupAt(ms[1..], i - 1);
    }
  }

  /** In a sorted object every key occurs once, so Lookup finds each
      member. */
  lemma LookupSorted(ms: seq<Member>, i: nat)
    requires Sorted(ms) && i < |ms|
    ensures Lookup(ms, ms[i].key) == Some(ms[i].value)
    ensures forall k :: 0 <= k < |ms| && k != i ==> ms[k].key != ms[i].key
  {
    forall k | 0 <= k < |ms| && k != i
      ensures ms[k].key != ms[i].key
    {
      LessIrreflexive(ms[i].key);
    }
    LookupAt(ms, i);
  }

  /** A sequence of members with pairwise distinct keys has as many keys as
      members. */
  lemma {:induction false} DistinctKeyCount(ms: seq<Member>)
    requires forall i, j :: 0 <= i < j < |ms| ==> ms[i].key != ms[j].key
    ensures |Keys(ms)| == |ms|
    decreases |ms|
  {
    if ms != [] {
      DistinctKeyCount(ms[1..]);
      assert Keys(ms) == {ms[0].key} + Keys(ms[1..]) by {
        assert ms == [ms[0]] + ms[1..];
      }
      assert ms[0].key !in Keys(ms[1..]);
    }
  }

  /** The keys of a dict's entries. */
  function EntryKeys(es: seq<Entry>): set<Bytes> {
    set e | e in es :: e.key
  }

  // ----- to_json -----

  /** Emplacing members with distinct keys into an empty object gives a
      sorted object with the same keys, as many members, and each key's
      value. */
  lemma EmplaceDistinct(ms: seq<Member>)
    requires forall i, j :: 0 <= i < j < |ms| ==> ms[i].key != ms[j].key
    ensures Sorted(EmplaceAll([], ms))
    ensures Keys(EmplaceAll([], ms)) == Keys(ms)
    ensures |EmplaceAll([], ms)| == |ms|
    ensures forall i :: 0 <= i < |ms| ==> Lookup(EmplaceAll([], ms), ms[i].key) == Some(ms[i].value)
  {
    var obj := EmplaceAll([], ms);
    EmplaceAllLaws([], ms, []);
    forall i | 0 <= i < |ms|
      ensures Lookup(obj, ms[i].key) == Some(ms[i].value)
    {
      EmplaceAllLaws([], ms, ms[i].key);
      LookupAt(ms, i);
    }
    forall i, j | 0 <= i < j < |obj| ensures obj[i].key != obj[j].key {
      LessIrreflexive(obj[i].key);
    }
    DistinctKeyCount(obj);
    DistinctKeyCount(ms);
  }

  /** The members a dict's walk emplaces carry the dict's keys, each once. */
  lemma DictMembersKeys(v: Value)
    requires v.DictV? && WellTyped(v.entries) && DistinctKeys(v.entries)
    ensures Keys(DictMembers(v.entries)) == EntryKeys(v.entries)
    ensures forall i, j :: 0 <= i < j < |DictMembers(v.entries)| ==> DictMembers(v.entries)[i].key != DictMembers(v.entries)[j].key
  {
    var ms := DictMembers(v.entries);
    forall k | k in EntryKeys(v.entries) ensures k in Keys(ms) {
      var i :| 0 <= i < |v.entries| && v.entries[i].key == k;
      assert ms[i] in ms;
    }
  }

  /** `to_json` of a Dict is an object with one member per cursor step: its
      keys are exactly the dict's keys, each once, and each key maps to the
      encoding of its value. */
  lemma DictEncoding(t: TypeInfo, v: Value)
    requires t.DictInfo? && HasType(v, t)
    ensures ToJson(t, v).JObject?
    ensures Sorted(ToJson(t, v).members)
    ensures Keys(ToJson(t, v).members) == EntryKeys(v.entries)
    ensures |ToJson(t, v).members| == NumItems(v)
    ensures forall i :: 0 <= i < |v.entries| ==>
      Lookup(ToJson(t, v).members, v.entries[i].key) == Some(ToJson(v.entries[i].item.info, v.entries[i].item.val))
  {
    var ms := DictMembers(v.entries);
    assert ToJson(t, v) == JObject(EmplaceAll([], ms));
    DictMembersKeys(v);
    EmplaceDistinct(ms);
  }

  // ----- from_json on scalars -----

  /** `from_json` on a scalar sets it from `json.get<T>()`: a Bool takes only
      a JSON boolean, an integer only a JSON integer (one in the field's
      range is stored as it is, an unsigned one as the int64_t of its bits),
      a float only a JSON float, a string only a JSON string; anything else
      is a type error, and a number of the other kind a conversion the model
      does not carry out. */
  lemma ScalarDecoding(t: TypeInfo, target: Value, j: Json)
    requires HasType(target, t)
    ensures t.BoolInfo? ==> FromJson(t, target, j) == if j.JBool? then Ok(BoolV(j.b)) else Fail(JsonTypeError)
    ensures t.IntegerInfo? && FromJson(t, target, j).Ok? ==> j.JInt? || j.JUInt?
    ensures t.IntegerInfo? && j.JInt? && IntFits(t, j.i) ==> FromJson(t, target, j) == Ok(IntV(j.i))
    ensures t.IntegerInfo? && j.JUInt? && IntFits(t, AsInt64(j.u)) ==> FromJson(t, target, j) == Ok(IntV(AsInt64(j.u)))
    ensures t.IntegerInfo? && j.JFloat? ==> FromJson(t, target, j) == Fail(FloatConversion)
    ensures t.IntegerInfo? && !(j.JInt? || j.JUInt? || j.JFloat?) ==> FromJson(t, target, j) == Fail(JsonTypeError)
    ensures t.FloatInfo? ==>
      FromJson(t, target, j) ==
        if j.JFloat? then Ok(FloatV(j.d))
        else if j.JInt? || j.JUInt? then Fail(FloatConversion)
        else Fail(JsonTypeError)
    ensures t.StringInfo? ==> FromJson(t, target, j) == if j.JString? then Ok(StrV(j.s)) else Fail(JsonTypeError)
  {
  }

  // ----- from_json on Arrays and Lists: resize, then fill slot by slot -----

  /** The Array fill loop from idx on succeeds exactly when every remaining
      `json[i]` decodes into its slot. */
  lemma {:induction false} ElemsSucceed(child: TypeInfo, j: Json, elems: seq<Value>, idx: nat)
    requires idx <= |elems| == Size(j)
    requires forall i :: 0 <= i < |elems| ==> HasType(elems[i], child)
    ensures FromJsonElems(child, j, elems, idx).Ok? <==>
      (idx == |elems| || j.JArray?) &&
      forall i :: idx <= i < |elems| ==> FromJson(child, elems[i], j.elems[i]).Ok?
    decreases |elems| - idx
  {
    if idx < |elems| && j.JArray? {
      var y := FromJson(child, elems[idx], j.elems[idx]);
      if y.Ok? {
        ElemsSucceed(child, j, elems[idx := y.value], idx + 1);
      }
    }
  }

  /** When it succeeds, the Array fill loop from idx on leaves the slots
      before idx alone and puts into slot i what decoding `json[i]` into
      slot i gives. */
  lemma {:induction false} ElemsSlotwise(child: TypeInfo, j: Json, elems: seq<Value>, idx: nat)
    requires idx <= |elems| == Size(j)
    requires forall i :: 0 <= i < |elems| ==> HasType(elems[i], child)
    ensures FromJsonElems(child, j, elems, idx).Ok? ==>
      var r := FromJsonElems(child, j, elems, idx).value;
      (forall i :: 0 <= i < idx ==> r[i] == elems[i]) &&
      forall i :: idx <= i < |elems| ==> FromJson(child, elems[i], j.elems[i]) == Ok(r[i])
    decreases |elems| - idx
  {
    if idx < |elems| && j.JArray? {
      var y := FromJson(child, elems[idx], j.elems[idx]);
      if y.Ok? {
        ElemsSlotwise(child, j, elems[idx := y.value], idx + 1);
      }
    }
  }

  /** `from_json` on an Array: the target is first resized to `json.size()`
      (old children kept, new ones default objects); then the call succeeds
      exactly when each `json[i]` decodes into resized child i, and child i
      of the result is that decoding. */
  lemma ArrayDecoding(t: TypeInfo, target: Value, j: Json)
    requires t.ArrayInfo? && HasType(target, t)
    ensures var slots := ResizeArray(t, target, Size(j)).elems;
      (FromJson(t, target, j).Ok? <==>
        (Size(j) == 0 || j.JArray?) &&
        forall i :: 0 <= i < Size(j) ==> FromJson(t.childInfo, slots[i], j.elems[i]).Ok?) &&
      (FromJson(t, target, j).Ok? ==>
        var r := FromJson(t, target, j).value;
        NumChilds(r) == Size(j) &&
        forall i :: 0 <= i < Size(j) ==> FromJson(t.childInfo, slots[i], j.elems[i]) == Ok(r.elems[i]))
  {
    ElemsSucceed(t.childInfo, j, ResizeArray(t, target, Size(j)).elems, 0);
    ElemsSlotwise(t.childInfo, j, ResizeArray(t, target, Size(j)).elems, 0);
  }

  /** The List fill loop from idx on succeeds exactly when every remaining
      `json[i]` decodes into its slot. */
  lemma {:induction false} ItemsSucceed(j: Json, items: seq<Typed>, idx: nat)
    requires idx <= |items| == Size(j)
    requires forall i :: 0 <= i < |items| ==> HasType(items[i].val, items[i].info)
    ensures FromJsonItems(j, items, idx).Ok? <==>
      (idx == |items| || j.JArray?) &&
      forall i :: idx <= i < |items| ==> FromJson(items[i].info, items[i].val, j.elems[i]).Ok?
    decreases |items| - idx
  {
    if idx < |items| && j.JArray? {
      var y := FromJson(items[idx].info, items[idx].val, j.elems[idx]);
      if y.Ok? {
        ItemsSucceed(j, items[idx := Typed(items[idx].info, y.value)], idx + 1);
      }
    }
  }

  /** When it succeeds, the List fill loop from idx on decodes slot by slot,
      each slot keeping its descriptor. */
  lemma {:induction false} ItemsSlotwise(j: Json, items: seq<Typed>, idx: nat)
    requires idx <= |items| == Size(j)
    requires forall i :: 0 <= i < |items| ==> HasType(items[i].val, items[i].info)
    ensures FromJsonItems(j, items, idx).Ok? ==>
      var r := FromJsonItems(j, items, idx).value;
      (forall i :: 0 <= i < idx ==> r[i] == items[i]) &&
      forall i :: idx <= i < |items| ==>
        r[i].info == items[i].info && FromJson(items[i].info, items[i].val, j.elems[i]) == Ok(r[i].val)
    decreases |items| - idx
  {
    if idx < |items| && j.JArray? {
      var y := FromJson(items[idx].info, items[idx].val, j.elems[idx]);
      if y.Ok? {
        ItemsSlotwise(j, items[idx := Typed(items[idx].info, y.value)], idx + 1);
      }
    }
  }

  /** `from_json` on a List: resize to `json.size()` (appended children are
      default objects of the pad descriptor), then child i is decoded from
      `json[i]` with its own descriptor. */
  lemma ListDecoding(t: TypeInfo, target: Value, j: Json)
    requires t.ListInfo? && HasType(target, t)
    ensures var slots := ResizeList(t, target, Size(j)).items;
      (FromJson(t, target, j).Ok? <==>
        (Size(j) == 0 || j.JArray?) &&
        forall i :: 0 <= i < Size(j) ==> FromJson(slots[i].info, slots[i].val, j.elems[i]).Ok?) &&
      (FromJson(t, target, j).Ok? ==>
        var r := FromJson(t, target, j).value;
        ListNumChilds(r) == Size(j) &&
        forall i :: 0 <= i < Size(j) ==>
          r.items[i].info == slots[i].info && FromJson(slots[i].info, slots[i].val, j.elems[i]) == Ok(r.items[i].val))
  {
    ItemsSucceed(j, ResizeList(t, target, Size(j)).items, 0);
    ItemsSlotwise(j, ResizeList(t, target, Size(j)).items, 0);
  }

  // ----- from_json on Dicts: no resize, only named slots change -----

  lemma SameSlotsKeys(a: seq<Entry>, b: seq<Entry>)
    requires SameSlots(a, b)
    ensures EntryKeys(a) == EntryKeys(b)
  {
    forall k | k in EntryKeys(a) ensures k in EntryKeys(b) {
      var i :| 0 <= i < |a| && a[i].key == k;
      assert b[i] in b;
    }
    forall k | k in EntryKeys(b) ensures k in EntryKeys(a) {
      var i :| 0 <= i < |b| && b[i].key == k;
      assert a[i] in a;
    }
  }

  /** The Dict item loop fails once it reaches an item whose key the dict
      does not have. */
  lemma {:induction false} MembersUnknownKey(j: Json, target: Value, entries: seq<Entry>, items: seq<Member>, idx: nat, k: nat)
    requires target.DictV? && items == Items(j) && idx <= |items|
    requires WellTyped(entries) && DistinctKeys(entries)
    requires j.JObject? || j.JArray? || entries == target.entries || idx == |items|
    requires idx <= k < |items| && items[k].key !in EntryKeys(entries)
    ensures FromJsonMembers(j, target, entries, items, idx).Fail?
    decreases |items| - idx
  {
    var slot := SlotOf(entries, items[idx].key);
    if slot.Some? {
      var s := slot.value;
      assert entries[s] in entries;
      var y := FromJson(entries[s].item.info, entries[s].item.val, items[idx].value);
      if y.Ok? {
        var entries' := entries[s := Entry(entries[s].key, Typed(entries[s].item.info, y.value))];
        assert SameSlots(entries', entries);
        SameSlotsKeys(entries', entries);
        MembersUnknownKey(j, target, entries', items, idx + 1, k);
      }
    }
  }

  /** The Dict item loop changes no entry whose key no remaining item
      names. */
  lemma {:induction false} MembersUntouched(j: Json, target: Value, entries: seq<Entry>, items: seq<Member>, idx: nat)
    requires target.DictV? && items == Items(j) && idx <= |items|
    requires WellTyped(entries) && DistinctKeys(entries)
    requires j.JObject? || j.JArray? || entries == target.entries || idx == |items|
    ensures FromJsonMembers(j, target, entries, items, idx).Ok? ==>
      forall i :: 0 <= i < |entries| && entries[i].key !in Keys(items[idx..]) ==>
        FromJsonMembers(j, target, entries, items, idx).value[i] == entries[i]
    decreases |items| - idx
  {
    if idx < |items| {
      var r := FromJsonSlot(entries, items[idx].key, items[idx].value);
      if r.Ok? {
        MembersUntouched(j, target, r.value, items, idx + 1);
        KeysCons(items, idx);
      }
    }
  }

  /** The keys from idx on: the key at idx and the keys after it. */
  lemma KeysCons(items: seq<Member>, idx: nat)
    requires idx < |items|
    ensures Keys(items[idx..]) == {items[idx].key} + Keys(items[idx + 1..])
  {
    assert items[idx..] == [items[idx]] + items[idx + 1..];
  }

  /** `from_json` on a Dict never resizes it: it fails if `json.items()`
      names a key the dict lacks, and on success keeps every key and
      descriptor and changes only the values of the keys the document
      names. */
  lemma DictDecoding(t: TypeInfo, target: Value, j: Json)
    requires t.DictInfo? && HasType(target, t)
    ensures (exists m :: m in Items(j) && m.key !in EntryKeys(target.entries)) ==> FromJson(t, target, j).Fail?
    ensures FromJson(t, target, j).Ok? ==>
      var r := FromJson(t, target, j).value;
      SameSlots(r.entries, target.entries) &&
      forall i :: 0 <= i < |target.entries| && target.entries[i].key !in Keys(Items(j)) ==>
        r.entries[i] == target.entries[i]
  {
    var items := Items(j);
    if m :| m in items && m.key !in EntryKeys(target.entries) {
      var k :| 0 <= k < |items| && items[k] == m;
      MembersUnknownKey(j, target, target.entries, items, 0, k);
    }
    MembersUntouched(j, target, target.entries, items, 0);
    assert items[0..] == items;
  }

  // ----- round trip -----

  /** Decoding the document `to_json` wrote for v into a target v fits gives
      back v. */
  lemma {:induction false} JsonRoundTrip(t: TypeInfo, target: Value, v: Value)
    requires HasType(v, t) && HasType(target, t) && Fits(t, target, v)
    ensures FromJson(t, target, ToJson(t, v)) == Ok(v)
    decreases v, 1
  {
    var j := ToJson(t, v);
    match t
    case BoolInfo(_) =>
    case IntegerInfo(_, _) =>
    case FloatInfo(_, _) =>
    case StringInfo(_) =>
    case ArrayInfo(_, child) =>
      var slots := ResizeArray(t, target, Size(j)).elems;
      ElemsRoundTrip(child, j, slots, 0, v.elems);
      assert FromJsonElems(child, j, slots, 0) == Ok(v.elems);
    case ListInfo(_, _) =>
      var slots := ResizeList(t, target, Size(j)).items;
      ItemsRoundTrip(j, slots, 0, v.items);
      assert FromJsonItems(j, slots, 0) == Ok(v.items);
    case DictInfo(_, _) =>
      var ms := DictMembers(v.entries);
      var obj := EmplaceAll([], ms);
      assert j == JObject(obj);
      DictEncoding(t, v);
      assert obj[0..] == obj;
      MembersRoundTrip(j, target, target.entries, obj, 0, v.entries);
  }

  /** The Array fill loop over an encoded array, from idx on. */
  lemma {:induction false} ElemsRoundTrip(child: TypeInfo, j: Json, elems: seq<Value>, idx: nat, vs: seq<Value>)
    requires j.JArray? && |j.elems| == |vs| == |elems| && idx <= |vs|
    requires forall i :: 0 <= i < |vs| ==> HasType(vs[i], child) && j.elems[i] == ToJson(child, vs[i])
    requires forall i :: 0 <= i < |elems| ==> HasType(elems[i], child)
    requires forall i :: 0 <= i < idx ==> elems[i] == vs[i]
    requires forall i :: idx <= i < |vs| ==> Fits(child, elems[i], vs[i])
    ensures FromJsonElems(child, j, elems, idx) == Ok(vs)
    decreases vs, 0, |vs| - idx
  {
    if idx == |vs| {
      assert elems == vs;
    } else {
      JsonRoundTrip(child, elems[idx], vs[idx]);
      ElemsRoundTrip(child, j, elems[idx := vs[idx]], idx + 1, vs);
    }
  }

  /** The List fill loop over an encoded array, from idx on. */
  lemma {:induction false} ItemsRoundTrip(j: Json, items: seq<Typed>, idx: nat, vs: seq<Typed>)
    requires j.JArray? && |j.elems| == |vs| == |items| && idx <= |vs|
    requires forall i :: 0 <= i < |vs| ==> HasType(vs[i].val, vs[i].info) && j.elems[i] == ToJson(vs[i].info, vs[i].val)
    requires forall i :: 0 <= i < |items| ==> HasType(items[i].val, items[i].info)
    requires forall i :: 0 <= i < idx ==> items[i] == vs[i]
    requires forall i :: idx <= i < |vs| ==> items[i].info == vs[i].info && Fits(vs[i].info, items[i].val, vs[i].val)
    ensures FromJsonItems(j, items, idx) == Ok(vs)
    decreases ListV(vs), 0, |vs| - idx
  {
    if idx == |vs| {
      assert items == vs;
    } else {
      assert vs[idx] in vs;
      JsonRoundTrip(vs[idx].info, items[idx].val, vs[idx].val);
      ItemsRoundTrip(j, items[idx := vs[idx]], idx + 1, vs);
    }
  }

  /** In a sorted object, the keys from idx on are the key at idx and the
      keys after it, which do not include it. */
  lemma KeysStep(items: seq<Member>, idx: nat)
    requires Sorted(items) && idx < |items|
    ensures Keys(items[idx..]) == {items[idx].key} + Keys(items[idx + 1..])
    ensures items[idx].key !in Keys(items[idx + 1..])
    ensures items[idx].key in Keys(items)
  {
    KeysCons(items, idx);
    assert items[idx] in items;
    LookupSorted(items, idx);
  }

  /** The index of a key among a dict's entries. */
  lemma FindKey(vs: seq<Entry>, key: Bytes) returns (s: nat)
    requires key in EntryKeys(vs)
    ensures s < |vs| && vs[s].key == key
  {
    var e :| e in vs && e.key == key;
    s :| 0 <= s < |vs| && vs[s] == e;
  }

  /** The decoding state of a Dict half way through: an entry whose key is
      in ahead still fits its value in vs, every other entry already is vs's
      entry. */
  predicate Pending(ahead: set<Bytes>, entries: seq<Entry>, vs: seq<Entry>) {
    |entries| == |vs| &&
    forall i :: 0 <= i < |vs| ==>
      if vs[i].key in ahead then Fits(vs[i].item.info, entries[i].item.val, vs[i].item.val)
      else entries[i] == vs[i]
  }

  /** Decoding the entry for one key moves that key out of the pending
      set. */
  lemma PendingStep(ahead: set<Bytes>, entries: seq<Entry>, vs: seq<Entry>, s: nat)
    requires Pending(ahead, entries, vs) && DistinctKeys(vs) && s < |vs|
    ensures Pending(ahead - {vs[s].key}, entries[s := vs[s]], vs)
  {
  }

  /** The Dict item loop over an encoded object, from idx on. */
  lemma {:induction false} MembersRoundTrip(j: Json, target: Value, entries: seq<Entry>, items: seq<Member>, idx: nat,
                                            vs: seq<Entry>)
    requires target.DictV? && j == JObject(items) && Sorted(items) && idx <= |items|
    requires WellTyped(vs) && DistinctKeys(vs) && Keys(items) == EntryKeys(vs)
    requires forall i :: 0 <= i < |vs| ==> Lookup(items, vs[i].key) == Some(ToJson(vs[i].item.info, vs[i].item.val))
    requires WellTyped(entries) && DistinctKeys(entries) && SameSlots(entries, vs)
    requires Pending(Keys(items[idx..]), entries, vs)
    ensures FromJsonMembers(j, target, entries, items, idx) == Ok(vs)
    decreases vs, |items| - idx
  {
    if idx == |items| {
      assert Keys(items[idx..]) == {};
      assert entries == vs;
    } else {
      var key := items[idx].key;
      KeysStep(items, idx);
      var s := FindKey(vs, key);
      SlotOfDistinct(entries, s);
      LookupSorted(items, idx);
      assert vs[s] in vs;
      JsonRoundTrip(vs[s].item.info, entries[s].item.val, vs[s].item.val);
      var entries' := entries[s := vs[s]];
      assert entries[s := Entry(entries[s].key, Typed(entries[s].item.info, vs[s].item.val))] == entries';
      PendingStep(Keys(items[idx..]), entries, vs, s);
      assert Keys(items[idx..]) - {key} == Keys(items[idx + 1..]);
      MembersRoundTrip(j, target, entries', items, idx + 1, vs);
    }
  }

  /** Decoding a value's own document back into it changes nothing. */
  lemma JsonRoundTripInPlace(t: TypeInfo, v: Value)
    requires HasType(v, t)
    ensures FromJson(t, v, ToJson(t, v)) == Ok(v)
  {
    FitsSelf(t, v);
    JsonRoundTrip(t, v, v);
  }
}
