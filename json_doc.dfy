/**
 * The JSON document the JSON codec reads and writes, with the handful of
 * document operations the codec calls: `size()`, `operator[]` on a const
 * document, `items()`, `emplace` into an object and the typed `get<T>()`.
 *
 * The document's default object type is an ordered map: its members are kept
 * sorted by key, byte by byte, with no key twice, and `emplace` leaves an
 * existing member untouched.
 */
module JsonDoc {
  import opened Outcomes
  import opened Descriptor

  datatype Json =
    | JNull
    | JBool(b: bool)
    | JInt(i: int64)        // number_integer
    | JUInt(u: uint64)      // number_unsigned
    | JFloat(d: Double)     // number_float
    | JString(s: Bytes)
    | JArray(elems: seq<Json>)
    | JObject(members: seq<Member>)

  datatype Member = Member(key: Bytes, value: Json)

  // ----- key order -----

  /** `std::string`'s `operator<`: lexicographic by byte value, a proper
      prefix first. */
  predicate Less(a: Bytes, b: Bytes)
    decreases |a|
  {
    |b| > 0 && (|a| == 0 || a[0] < b[0] || (a[0] == b[0] && Less(a[1..], b[1..])))
  }

  lemma {:induction false} LessIrreflexive(a: Bytes)
    ensures !Less(a, a)
    decreases |a|
  {
    if |a| > 0 { LessIrreflexive(a[1..]); }
  }

  lemma {:induction false} LessTransitive(a: Bytes, b: Bytes, c: Bytes)
    requires Less(a, b) && Less(b, c)
    ensures Less(a, c)
    decreases |a|
  {
    if |a| > 0 && a[0] == b[0] && b[0] == c[0] {
      LessTransitive(a[1..], b[1..], c[1..]);
    }
  }

  lemma {:induction false} LessTotal(a: Bytes, b: Bytes)
    requires a != b
    ensures Less(a, b) || Less(b, a)
    decreases |a|
  {
    if |a| > 0 && |b| > 0 && a[0] == b[0] {
      assert a == [a[0]] + a[1..] && b == [b[0]] + b[1..];
      LessTotal(a[1..], b[1..]);
    }
  }

  /** The members' keys strictly increase. */
  predicate Sorted(ms: seq<Member>) {
    forall i, j :: 0 <= i < j < |ms| ==> Less(ms[i].key, ms[j].key)
  }

  function Keys(ms: seq<Member>): set<Bytes> {
    set m | m in ms :: m.key
  }

  /** The value of the first member with the key. */
  function Lookup(ms: seq<Member>, key: Bytes): (r: Option<Json>)
    ensures r.Some? <==> key in Keys(ms)
    decreases |ms|
  {
    if ms == [] then None
    else if ms[0].key == key then Some(ms[0].value)
    else
      assert Keys(ms) == {ms[0].key} + Keys(ms[1..]) by {
        assert ms == [ms[0]] + ms[1..];
      }
      Lookup(ms[1..], key)
  }

  // ----- emplace -----

  /** `object.emplace(key, value)`: insert the member at its place in key
      order unless the key is already there. */
  function Emplace(ms: seq<Member>, key: Bytes, value: Json): (r: seq<Member>)
    ensures Keys(r) == Keys(ms) + {key}
    decreases |ms|
  {
    if ms == [] then [Member(key, value)]
    else if ms[0].key == key then ms
    else if Less(key, ms[0].key) then
      KeysPrepend(Member(key, value), ms);
      [Member(key, value)] + ms
    else
      var rest := Emplace(ms[1..], key, value);
      assert ms == [ms[0]] + ms[1..];
      KeysPrepend(ms[0], ms[1..]);
      KeysPrepend(ms[0], rest);
      [ms[0]] + rest
  }

  /** The keys of a member in front of others. */
  lemma KeysPrepend(m: Member, ms: seq<Member>)
    ensures Keys([m] + ms) == {m.key} + Keys(ms)
  {
    assert forall x :: x in [m] + ms <==> x == m || x in ms;
  }

  lemma SortedTail(ms: seq<Member>)
    requires Sorted(ms) && ms != []
    ensures Sorted(ms[1..]) && forall k :: k in Keys(ms[1..]) ==> Less(ms[0].key, k)
  {
  }

  /** Emplacing into a sorted object keeps it sorted. */
  lemma {:induction false} EmplaceSorted(ms: seq<Member>, key: Bytes, value: Json)
    requires Sorted(ms)
    ensures Sorted(Emplace(ms, key, value))
    decreases |ms|
  {
    if ms == [] || ms[0].key == key {
    } else if Less(key, ms[0].key) {
      var r := [Member(key, value)] + ms;
      forall i, j | 0 <= i < j < |r| ensures Less(r[i].key, r[j].key) {
        if i == 0 && j > 1 { LessTransitive(key, ms[0].key, r[j].key); }
      }
    } else {
      SortedTail(ms);
      EmplaceSorted(ms[1..], key, value);
      LessTotal(key, ms[0].key);
      var t := Emplace(ms[1..], key, value);
      var r := [ms[0]] + t;
      forall i, j | 0 <= i < j < |r| ensures Less(r[i].key, r[j].key) {
        if i == 0 {
          assert r[j] == t[j - 1];
          assert r[j].key in Keys(t);
        }
      }
    }
  }

  /** Every key of a sorted object is above a key below its first one. */
  lemma BelowFirstIsAbsent(ms: seq<Member>, key: Bytes)
    requires Sorted(ms) && ms != [] && Less(key, ms[0].key)
    ensures key !in Keys(ms)
  {
    forall k | k in Keys(ms) ensures k != key {
      var i :| 0 <= i < |ms| && ms[i].key == k;
      if i > 0 { LessTransitive(key, ms[0].key, k); }
      LessIrreflexive(key);
    }
  }

  /** In a sorted object, emplace leaves a present key's value alone and gives
      a new key the emplaced value. */
  lemma {:induction false} EmplaceLookup(ms: seq<Member>, key: Bytes, value: Json, q: Bytes)
    requires Sorted(ms)
    ensures Lookup(Emplace(ms, key, value), q) ==
      if q == key && key !in Keys(ms) then Some(value) else Lookup(ms, q)
    decreases |ms|
  {
    if ms == [] || ms[0].key == key {
    } else if Less(key, ms[0].key) {
      if q == key { BelowFirstIsAbsent(ms, key); }
    } else {
      SortedTail(ms);
      EmplaceLookup(ms[1..], key, value, q);
      assert Keys(ms) == {ms[0].key} + Keys(ms[1..]) by {
        assert ms == [ms[0]] + ms[1..];
      }
    }
  }

  /** Emplacing members one after another, as a loop of `emplace` calls
      does. */
  function EmplaceAll(ms: seq<Member>, add: seq<Member>): (r: seq<Member>)
    ensures Keys(r) == Keys(ms) + Keys(add)
    decreases |add|
  {
    if add == [] then ms
    else
      assert Keys(add) == {add[0].key} + Keys(add[1..]) by {
        assert add == [add[0]] + add[1..];
      }
      EmplaceAll(Emplace(ms, add[0].key, add[0].value), add[1..])
  }

  /** After a run of emplaces the object is sorted, and each key has the value
      it had before or else the value of its FIRST occurrence in the run. */
  lemma {:induction false} EmplaceAllLaws(ms: seq<Member>, add: seq<Member>, q: Bytes)
    requires Sorted(ms)
    ensures Sorted(EmplaceAll(ms, add))
    ensures Lookup(EmplaceAll(ms, add), q) ==
      if Lookup(ms, q).Some? then Lookup(ms, q) else Lookup(add, q)
    decreases |add|
  {
    if add != [] {
      var ms' := Emplace(ms, add[0].key, add[0].value);
      EmplaceSorted(ms, add[0].key, add[0].value);
      EmplaceLookup(ms, add[0].key, add[0].value, q);
      EmplaceAllLaws(ms', add[1..], q);
    }
  }

  // ----- size, operator[], items() -----

  /** `json.size()`: 0 for null, the element or member count for arrays and
      objects, 1 for every other value. */
  function Size(j: Json): nat {
    match j
    case JNull => 0
    case JArray(es) => |es|
    case JObject(ms) => |ms|
    case _ => 1
  }

  /** `json[idx]` on a const document: the element of an array, a
      `type_error` on anything else. */
  function At(j: Json, idx: nat): (r: Result<Json>)
    requires idx < Size(j)
    ensures r.Ok? <==> j.JArray?
    ensures r.Ok? ==> r.value == j.elems[idx]
  {
    match j
    case JArray(es) => Ok(es[idx])
    case _ => Fail(JsonTypeError)
  }

  /** The decimal digits of n, in ASCII. */
  function Decimal(n: nat): (r: Bytes)
    ensures |r| > 0
  {
    if n < 10 then [48 + n] else Decimal(n / 10) + [48 + n % 10]
  }

  /** `json.items()`: the members of an object; the elements of an array
      under their decimal index; nothing for null; the value itself under
      the empty key for every other value. */
  function Items(j: Json): (r: seq<Member>)
    ensures j.JObject? ==> r == j.members
    ensures j.JArray? ==> |r| == |j.elems| && forall i :: 0 <= i < |r| ==> r[i] == Member(Decimal(i), j.elems[i])
    ensures j.JNull? ==> r == []
    ensures !(j.JObject? || j.JArray? || j.JNull?) ==> r == [Member([], j)]
  {
    match j
    case JNull => []
    case JObject(ms) => ms
    case JArray(es) => seq(|es|, i requires 0 <= i < |es| => Member(Decimal(i), es[i]))
    case _ => [Member([], j)]
  }

  /** A decimal key names one index only, so the items of an array have
      distinct keys. */
  lemma {:induction false} DecimalInjective(a: nat, b: nat)
    requires Decimal(a) == Decimal(b)
    ensures a == b
    decreases a
  {
    if a >= 10 && b >= 10 {
      var da := Decimal(a);
      assert da == Decimal(a / 10) + [48 + a % 10] == Decimal(b / 10) + [48 + b % 10];
      assert Decimal(a / 10) == da[..|da| - 1] == Decimal(b / 10);
      DecimalInjective(a / 10, b / 10);
    }
  }

  // ----- typed get -----

  /** `json.get<bool>()`. */
  function GetBool(j: Json): (r: Result<bool>)
    ensures r.Ok? <==> j.JBool?
    ensures r.Ok? ==> r.value == j.b
  {
    match j
    case JBool(b) => Ok(b)
    case _ => Fail(JsonTypeError)
  }

  /** `json.get<int64_t>()`: accepts every number. A signed integer is
      returned as it is and an unsigned one as the int64_t of the same bits;
      converting a double is floating-point work the model does not do. */
  function GetInt64(j: Json): (r: Result<int64>)
    ensures j.JInt? ==> r == Ok(j.i)
    ensures j.JUInt? ==> r == Ok(AsInt64(j.u))
    ensures r.Ok? <==> j.JInt? || j.JUInt?
  {
    match j
    case JInt(i) => Ok(i)
    case JUInt(u) => Ok(AsInt64(u))
    case JFloat(_) => Fail(FloatConversion)
    case _ => Fail(JsonTypeError)
  }

  /** `json.get<double>()`: accepts every number; converting an integer is
      floating-point work the model does not do. */
  function GetDouble(j: Json): (r: Result<Double>)
    ensures r.Ok? <==> j.JFloat?
    ensures r.Ok? ==> r.value == j.d
  {
    match j
    case JFloat(d) => Ok(d)
    case JInt(_) => Fail(FloatConversion)
    case JUInt(_) => Fail(FloatConversion)
    case _ => Fail(JsonTypeError)
  }

  /** `json.get<std::string_view>()`. */
  function GetString(j: Json): (r: Result<Bytes>)
    ensures r.Ok? <==> j.JString?
    ensures r.Ok? ==> r.value == j.s
  {
    match j
    case JString(s) => Ok(s)
    case _ => Fail(JsonTypeError)
  }
}
