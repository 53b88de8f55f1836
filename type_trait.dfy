/**
 * `TypeTrait<T>` and `get_type_info`: the descriptor the C++ type system
 * selects for a static type. The types with a specialisation are a closed
 * set, written here as a datatype; the choice among the specialisations is a
 * match on it.
 *
 * The registry singletons for the standard string and container types
 * (`impl::getStdStrigTypeInfo` and the three like it) are defined outside the
 * modelled headers; the model takes them as a `Registry` of four descriptors
 * of the variants their C++ return types name.
 */
module TypeTrait {
  import opened Descriptor

  /** A C++ type that has a `TypeTrait` specialisation. `Integral` is every
      integral type other than bool (bool has its own, more specialised,
      trait), given by its signedness and `sizeof`. */
  datatype CppType =
    | CppBool
    | Integral(isSigned: bool, size: nat)
    | CppFloat
    | CppDouble
    | StdString
    | StdStringView
    | StdVector(elem: CppType)
    | StdArray(elem: CppType, n: nat)

  /** The sizes an integral type can have on the supported targets (16 is
      `__int128`). */
  predicate IntegralSize(n: nat) {
    n == 1 || n == 2 || n == 4 || n == 8 || n == 16
  }

  /** The descriptors `impl::getStdStrigTypeInfo`, `getStdStrigViewTypeInfo`,
      `getStdVectorTypeInfo` and `getStdArrayTypeInfo` return. */
  datatype Registry = Registry(stdString: TypeInfo, stdStringView: TypeInfo, stdVector: TypeInfo, stdArray: TypeInfo)

  /** The registry functions return a StringInfo, a StringInfo, an ArrayInfo
      and an ArrayInfo. */
  predicate ValidRegistry(reg: Registry) {
    reg.stdString.StringInfo? && reg.stdStringView.StringInfo? &&
    reg.stdVector.ArrayInfo? && reg.stdArray.ArrayInfo?
  }

  /** `get_type_info<T>()`, that is `TypeTrait<T>::type_info()`: bool gives
      the Bool descriptor; an integral type the integer descriptor of its
      signedness and of width `sizeof(T) * CHAR_BIT`; float and double the
      IEEE float descriptors of their widths; the string types and containers
      the registry's descriptors. */
  function GetTypeInfo(reg: Registry, ty: CppType): (r: TypeInfo)
    requires ValidRegistry(reg)
    requires ty.Integral? ==> IntegralSize(ty.size)
    ensures ty.CppBool? ==> r.Kind() == OkBool && r.cppByteSize == 1
    ensures ty.Integral? ==>
      r.Kind() == OkInt && r.IsSigned() == ty.isSigned &&
      r.IntBitWidth() == ty.size * CharBit && r.cppByteSize == ty.size
    ensures ty.CppFloat? ==>
      r.Kind() == OkFloat && r.FloatBitWidth() == 32 && r.FloatKind() == IEEE && r.cppByteSize == 4
    ensures ty.CppDouble? ==>
      r.Kind() == OkFloat && r.FloatBitWidth() == 64 && r.FloatKind() == IEEE && r.cppByteSize == 8
    ensures (ty.StdString? || ty.StdStringView?) ==> r.Kind() == OkString
    ensures (ty.StdVector? || ty.StdArray?) ==> r.Kind() == OkArray
  {
    match ty
    case CppBool => NewBoolInfo()
    case Integral(isSigned, size) => NewIntegerInfo(isSigned, size * CharBit)
    case CppFloat => NewFloatInfo(32, IEEE)
    case CppDouble => NewFloatInfo(64, IEEE)
    case StdString => reg.stdString
    case StdStringView => reg.stdStringView
    case StdVector(_) => reg.stdVector
    case StdArray(_, _) => reg.stdArray
  }

  /** `get_type_info(obj)`: the descriptor of the argument's static type,
      whatever the object holds. */
  function GetTypeInfoOf(reg: Registry, ty: CppType, obj: Value): TypeInfo
    requires ValidRegistry(reg)
    requires ty.Integral? ==> IntegralSize(ty.size)
  {
    GetTypeInfo(reg, ty)
  }

  /** `get_type_info(obj)` depends on the static type alone: any two objects
      of a type get `get_type_info<T>()`. This holds by the definition of
      `GetTypeInfoOf`, as it does by the C++ one-liner it models. */
  lemma InfoOfObjectIsStatic(reg: Registry, ty: CppType, a: Value, b: Value)
    requires ValidRegistry(reg)
    requires ty.Integral? ==> IntegralSize(ty.size)
    ensures GetTypeInfoOf(reg, ty, a) == GetTypeInfoOf(reg, ty, b) == GetTypeInfo(reg, ty)
  {
  }

  /** Every `std::vector<T>` has one descriptor, and every `std::array<T, N>`
      another, whatever T and N. One `childInfo` then serves every element
      type, which the code as written does not reconcile. */
  lemma ContainerInfoIgnoresElement(reg: Registry, a: CppType, b: CppType, n: nat, m: nat)
    requires ValidRegistry(reg)
    ensures GetTypeInfo(reg, StdVector(a)) == GetTypeInfo(reg, StdVector(b)) == reg.stdVector
    ensures GetTypeInfo(reg, StdArray(a, n)) == GetTypeInfo(reg, StdArray(b, m)) == reg.stdArray
  {
  }

  /** The descriptor of an integral type is one the codecs support exactly
      when the type is at most 64 bits wide; a 128-bit integer gets a
      descriptor of a width the codecs do not handle. */
  lemma IntegralInfoValid(reg: Registry, isSigned: bool, size: nat)
    requires ValidRegistry(reg) && IntegralSize(size)
    ensures ValidInfo(GetTypeInfo(reg, Integral(isSigned, size))) <==> size <= 8
  {
  }

  /** Two integral types share a descriptor exactly when they have the same
      signedness and size: `int` and `long` on a target where both are 4
      bytes get the same singleton. */
  lemma IntegralInfoInjective(reg: Registry, s1: bool, n1: nat, s2: bool, n2: nat)
    requires ValidRegistry(reg) && IntegralSize(n1) && IntegralSize(n2)
    ensures GetTypeInfo(reg, Integral(s1, n1)) == GetTypeInfo(reg, Integral(s2, n2)) <==> s1 == s2 && n1 == n2
  {
    var t1 := GetTypeInfo(reg, Integral(s1, n1));
    var t2 := GetTypeInfo(reg, Integral(s2, n2));
    if t1 == t2 {
      assert t1.IsSigned() == t2.IsSigned() && t1.IntBitWidth() == t2.IntBitWidth();
    }
  }
}
