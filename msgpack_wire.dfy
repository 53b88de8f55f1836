/**
 * The MessagePack side of the codec, at the level of the library calls the
 * codec makes. The packer is an object that records, in order, the
 * `msgpack_pack_*` calls made on it; the unpacker turns such a record back
 * into the `msgpack_object` tree the library hands to the decoder. The byte
 * format in between is the library's and is not part of this model; what the
 * model keeps is which object type and value each packer call comes back
 * as.
 */
module MsgPackWire {
  import opened Outcomes
  import opened Descriptor

  /** One call on a `msgpack_packer`. */
  datatype PackEvent =
    | PackInt(width: nat, i: int)     // msgpack_pack_int8/16/32/64
    | PackUInt(width: nat, u: nat)    // msgpack_pack_uint8/16/32
    | PackChar(c: int)                // msgpack_pack_char (a signed char)
    | PackDouble(d: Double)           // msgpack_pack_double
    | PackStr(s: Bytes)               // msgpack_pack_str_with_body
    | PackArray(n: nat)               // msgpack_pack_array header
    | PackMap(n: nat)                 // msgpack_pack_map header

  /** `msgpack_object`: its type tag with the union member that tag makes
      valid. */
  datatype MsgObject =
    | MNil
    | MBoolean(b: bool)
    | MPositiveInteger(u: uint64)
    | MNegativeInteger(i: int64)
    | MFloat32(f: Double)
    | MFloat64(d: Double)
    | MStr(s: Bytes)
    | MBin(s: Bytes)
    | MArray(elems: seq<MsgObject>)
    | MMap(pairs: seq<KeyVal>)

  datatype KeyVal = KeyVal(key: MsgObject, val: MsgObject)

  /** A `msgpack_packer` writing into a buffer: the record of the calls made
      on it so far. */
  class Packer {
    var log: seq<PackEvent>

    constructor ()
      ensures log == []
    {
      log := [];
    }

    /** One `msgpack_pack_*` call. */
    method Pack(e: PackEvent)
      modifies this
      ensures log == old(log) + [e]
    {
      log := log + [e];
    }
  }

  /** The integer object an integer packer call comes back as: the unpacker
      types every non-negative integer as positive, whatever the call that
      packed it, and every negative one as negative. */
  function IntObject(i: int): (m: MsgObject)
    requires -0x8000_0000_0000_0000 <= i < 0x1_0000_0000_0000_0000
    ensures i >= 0 ==> m == MPositiveInteger(i)
    ensures i < 0 ==> m == MNegativeInteger(i)
  {
    if i >= 0 then MPositiveInteger(i) else MNegativeInteger(i)
  }

  /** The width a packer call's integer argument has in C. */
  predicate InRange(e: PackEvent) {
    match e
    case PackInt(w, i) => -0x8000_0000_0000_0000 <= i < 0x8000_0000_0000_0000
    case PackUInt(w, u) => u < 0x1_0000_0000_0000_0000
    case PackChar(c) => -0x80 <= c < 0x80
    case _ => true
  }

  /** `msgpack_unpack` of what the packer wrote: the first object of the log
      and the calls after it, `None` when the log ends inside an object. */
  function Unpack(ev: seq<PackEvent>): (r: Option<(MsgObject, seq<PackEvent>)>)
    ensures r.Some? ==> |r.value.1| < |ev|
    decreases |ev|, 0
  {
    if ev == [] || !InRange(ev[0]) then None
    else
      match ev[0]
      case PackInt(_, i) => Some((IntObject(i), ev[1..]))
      case PackUInt(_, u) => Some((IntObject(u), ev[1..]))
      case PackChar(c) => Some((IntObject(c), ev[1..]))
      case PackDouble(d) => Some((MFloat64(d), ev[1..]))
      case PackStr(s) => Some((MStr(s), ev[1..]))
      case PackArray(n) =>
        (match UnpackMany(ev[1..], n)
         case None => None
         case Some((elems, rest)) => Some((MArray(elems), rest)))
      case PackMap(n) =>
        (match UnpackPairs(ev[1..], n)
         case None => None
         case Some((pairs, rest)) => Some((MMap(pairs), rest)))
  }

  /** n objects in a row: the elements after an array header. */
  function UnpackMany(ev: seq<PackEvent>, n: nat): (r: Option<(seq<MsgObject>, seq<PackEvent>)>)
    ensures r.Some? ==> |r.value.0| == n && |r.value.1| <= |ev|
    decreases |ev|, n
  {
    if n == 0 then Some(([], ev))
    else
      match Unpack(ev)
      case None => None
      case Some((first, rest)) =>
        match UnpackMany(rest, n - 1)
        case None => None
        case Some((others, rest')) => Some(([first] + others, rest'))
  }

  /** n key-value pairs in a row: the entries after a map header. */
  function UnpackPairs(ev: seq<PackEvent>, n: nat): (r: Option<(seq<KeyVal>, seq<PackEvent>)>)
    ensures r.Some? ==> |r.value.0| == n && |r.value.1| <= |ev|
    decreases |ev|, n
  {
    if n == 0 then Some(([], ev))
    else
      match Unpack(ev)
      case None => None
      case Some((key, rest)) =>
        match Unpack(rest)
        case None => None
        case Some((val, rest')) =>
          match UnpackPairs(rest', n - 1)
          case None => None
          case Some((others, rest'')) => Some(([KeyVal(key, val)] + others, rest''))
  }
}
