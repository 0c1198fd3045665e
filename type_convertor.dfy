/**
 * The value converter registry of node_binding/type_convertor.h: for each
 * native type category a triple IsConvertible / ToNativeValue / ToJSValue,
 * selected by the type traits the C++ specialisations test.
 */
module TypeConvertor {
  import opened Results
  import Napi
  import Arithmetic

  /**
   * The native types the registry handles, described by the traits its
   * specialisations inspect. `Integral(signed, size)` is a non-bool integral
   * type of `size` bytes. The 8-byte ones stand for `int64_t` and
   * `uint64_t`; `long`, `unsigned long` and `long long` are not modelled.
   * An enumeration is known by its underlying integral type.
   */
  datatype CppType =
    | Bool
    | Integral(signed: bool, size: nat)
    | Enum(underlying: CppType)
    | StdString
    | CharPtr
    | JsObject
    | JsValue

  const Int64: CppType := Integral(true, 8)
  const Uint64: CppType := Integral(false, 8)

  predicate ValidSize(size: nat) {
    size == 1 || size == 2 || size == 4 || size == 8
  }

  /** The types that can occur: integer widths of 8 to 64 bits, enums over an integral type. */
  predicate WellFormed(t: CppType) {
    match t
    case Integral(_, size) => ValidSize(size)
    case Enum(u) => u.Integral? && ValidSize(u.size)
    case _ => true
  }

  // The traits `std::is_integral`, `std::is_signed` and `sizeof`.

  predicate IsIntegral(t: CppType) {
    t.Bool? || t.Integral?
  }

  predicate IsSigned(t: CppType) {
    t.Integral? && t.signed
  }

  function SizeOf(t: CppType): nat
    requires IsIntegral(t)
  {
    if t.Bool? then 1 else t.size
  }

  /** The number of distinct values of an integer type of `size` bytes. */
  function Modulus(size: nat): (m: int)
    requires ValidSize(size)
    ensures m > 1 && m % 2 == 0
  {
    if size == 1 then 0x100
    else if size == 2 then 0x1_0000
    else if size == 4 then Napi.TWO_32
    else Napi.TWO_64
  }

  predicate InRange(i: int, signed: bool, size: nat)
    requires ValidSize(size)
  {
    if signed then -Modulus(size) / 2 <= i < Modulus(size) / 2
    else 0 <= i < Modulus(size)
  }

  /** A conversion to a signed type of `size` bytes: two's-complement wrap-around. */
  function WrapSigned(n: int, size: nat): (r: int)
    requires ValidSize(size)
    ensures InRange(r, true, size)
    ensures (r - n) % Modulus(size) == 0
    ensures InRange(n, true, size) ==> r == n
  {
    Arithmetic.RemainderFacts(n, Modulus(size));
    var m := n % Modulus(size);
    if m >= Modulus(size) / 2 then m - Modulus(size) else m
  }

  /** A conversion to an unsigned type of `size` bytes: reduction modulo 2^(8 size). */
  function WrapUnsigned(n: int, size: nat): (r: int)
    requires ValidSize(size)
    ensures InRange(r, false, size)
    ensures (r - n) % Modulus(size) == 0
    ensures InRange(n, false, size) ==> r == n
  {
    Arithmetic.RemainderFacts(n, Modulus(size));
    n % Modulus(size)
  }

  /** The specialisations of `TypeConvertor<T>`. */
  datatype Convertor =
    | BoolConvertor
    | SignedConvertor
    | UnsignedConvertor
    | Int64Convertor
    | Uint64Convertor
    | StringConvertor
    | EnumConvertor
    | CharPtrConvertor
    | ObjectConvertor
    | ValueConvertor

  /**
   * Whether specialisation `c` applies to `T = t`: an explicit
   * specialisation to its own type, a partial one when its `enable_if`
   * condition holds.
   */
  function Selects(c: Convertor, t: CppType): (ok: bool)
    ensures ok ==> (IsIntegral(t) <==> c in {BoolConvertor, SignedConvertor, UnsignedConvertor, Int64Convertor, Uint64Convertor})
  {
    match c
    case BoolConvertor => t == Bool
    case SignedConvertor => IsIntegral(t) && IsSigned(t) && SizeOf(t) <= 4
    case UnsignedConvertor => IsIntegral(t) && t != Bool && !IsSigned(t) && SizeOf(t) <= 4
    case Int64Convertor => t == Int64
    case Uint64Convertor => t == Uint64
    case StringConvertor => t == StdString
    case EnumConvertor => t.Enum?
    case CharPtrConvertor => t == CharPtr
    case ObjectConvertor => t == JsObject
    case ValueConvertor => t == JsValue
  }

  /** The one specialisation that `TypeConvertor<T>` resolves to. */
  function Lookup(t: CppType): (c: Convertor)
    requires WellFormed(t)
    ensures Selects(c, t)
    ensures forall c' :: Selects(c', t) ==> c' == c
  {
    match t
    case Bool => BoolConvertor
    case Integral(signed, size) =>
      if size <= 4 then (if signed then SignedConvertor else UnsignedConvertor)
      else if signed then Int64Convertor
      else Uint64Convertor
    case Enum(_) => EnumConvertor
    case StdString => StringConvertor
    case CharPtr => CharPtrConvertor
    case JsObject => ObjectConvertor
    case JsValue => ValueConvertor
  }

  /**
   * A native value. An enumerator is held as its underlying integral value;
   * both string categories read into a `std::string`.
   */
  datatype NativeValue =
    | BoolVal(b: bool)
    | IntVal(i: int)
    | StrVal(s: string)
    | ObjectVal(id: nat)
    | JsVal(v: Napi.Value)

  /** Whether `x` is a value of the native type `t`. */
  predicate HasType(x: NativeValue, t: CppType) {
    match t
    case Bool => x.BoolVal?
    case Integral(signed, size) => x.IntVal? && ValidSize(size) && InRange(x.i, signed, size)
    case Enum(u) => x.IntVal? && u.Integral? && ValidSize(u.size) && InRange(x.i, u.signed, u.size)
    case StdString => x.StrVal?
    case CharPtr => x.StrVal?
    case JsObject => x.ObjectVal?
    case JsValue => x.JsVal?
  }

  /** Why a read failed: the runtime raised an extraction error, or the category cannot be read. */
  datatype ReadError = Thrown(status: Napi.Status) | EnumReadUnsupported

  function Raise<T>(r: Result<T, Napi.Status>): (e: Result<T, ReadError>)
    ensures e.Success? <==> r.Success?
    ensures e.Success? ==> e.value == r.value
  {
    match r
    case Success(x) => Success(x)
    case Failure(s) => Failure(Thrown(s))
  }

  /** `TypeConvertor<T>::IsConvertible`: does the value's kind match what the read expects? */
  function IsConvertible(t: CppType, v: Napi.Value): (ok: bool)
    requires WellFormed(t)
    ensures t == JsValue ==> ok
    ensures ok && t != JsValue ==> v.Boolean? || v.Number? || v.String? || v.Object?
  {
    match Lookup(t)
    case BoolConvertor => Napi.IsBoolean(v)
    case SignedConvertor => Napi.IsNumber(v)
    case UnsignedConvertor => Napi.IsNumber(v)
    case Int64Convertor => Napi.IsNumber(v)
    case Uint64Convertor => Napi.IsNumber(v)
    case StringConvertor => Napi.IsString(v)
    case EnumConvertor => Napi.IsNumber(v)
    case CharPtrConvertor => Napi.IsString(v)
    case ObjectConvertor => Napi.IsObject(v)
    case ValueConvertor => true
  }

  /**
   * `TypeConvertor<T>::ToNativeValue`. A read succeeds exactly when the
   * value is convertible, except that no enum can be read; what it yields
   * always lies in the range of `t`.
   */
  function ToNativeValue(t: CppType, v: Napi.Value): (r: Result<NativeValue, ReadError>)
    requires WellFormed(t)
    ensures r.Success? <==> !t.Enum? && IsConvertible(t, v)
    ensures r.Success? ==> HasType(r.value, t)
    ensures t.Enum? ==> r == Failure(EnumReadUnsupported)
  {
    match Lookup(t)
    case BoolConvertor =>
      var b :- Raise(Napi.BooleanValue(v));
      Success(BoolVal(b))
    case SignedConvertor =>
      var n :- Raise(Napi.Int32Value(v));
      Success(IntVal(WrapSigned(n, t.size)))
    case UnsignedConvertor =>
      var n :- Raise(Napi.Uint32Value(v));
      Success(IntVal(WrapUnsigned(n, t.size)))
    case Int64Convertor =>
      var n :- Raise(Napi.Int64Value(v));
      Success(IntVal(n))
    case Uint64Convertor =>
      var n :- Raise(Napi.Int64Value(v));
      Success(IntVal(WrapUnsigned(n, 8)))
    case StringConvertor =>
      var s :- Raise(Napi.Utf8Value(v));
      Success(StrVal(s))
    case EnumConvertor =>
      Failure(EnumReadUnsupported)
    case CharPtrConvertor =>
      var s :- Raise(Napi.Utf8Value(v));
      Success(StrVal(s))
    case ObjectConvertor =>
      var id :- Raise(Napi.ToObject(v));
      Success(ObjectVal(id))
    case ValueConvertor =>
      Success(JsVal(v))
  }

  /**
   * `TypeConvertor<T>::ToJSValue`. It is total on values of `t`, and what it
   * produces is always accepted by the same category's `IsConvertible`.
   */
  function ToJSValue(t: CppType, x: NativeValue): (r: Napi.Value)
    requires WellFormed(t) && HasType(x, t)
    ensures IsConvertible(t, r)
  {
    match Lookup(t)
    case BoolConvertor => Napi.Boolean(x.b)
    case SignedConvertor => Napi.NumberNew(x.i)
    case UnsignedConvertor => Napi.NumberNew(x.i)
    case Int64Convertor => Napi.NumberNew(x.i)
    case Uint64Convertor => Napi.NumberNew(x.i)
    case StringConvertor => Napi.String(x.s)
    case EnumConvertor => Napi.NumberNew(x.i)
    case CharPtrConvertor => Napi.String(x.s)
    case ObjectConvertor => Napi.Object(x.id)
    case ValueConvertor => x.v
  }

  /** How a value reaches the free `ToJSValue`: by value, through an lvalue or an rvalue reference. */
  datatype Forwarded = Prvalue(t: CppType) | LvalueRef(t: CppType) | ConstLvalueRef(t: CppType) | RvalueRef(t: CppType)

  /** `std::decay_t`: the reference and its qualifiers are dropped. */
  function Decay(f: Forwarded): CppType {
    f.t
  }

  /** The free `ToJSValue`: looks up the converter of the decayed type. */
  function ToJSValueForwarded(f: Forwarded, x: NativeValue): (r: Napi.Value)
    requires WellFormed(Decay(f)) && HasType(x, Decay(f))
    ensures IsConvertible(Decay(f), r)
  {
    ToJSValue(Decay(f), x)
  }

  // ---------------------------------------------------------------------
  // Properties of the registry.

  /**
   * Which runtime kind each type accepts, by its traits: booleans for bool,
   * numbers for every integral and enum type (narrow or 64-bit), strings
   * for both string types, objects for `Napi::Object`, anything for
   * `Napi::Value`.
   */
  lemma ConvertibleKinds(t: CppType, v: Napi.Value)
    requires WellFormed(t)
    ensures t == Bool ==> (IsConvertible(t, v) <==> Napi.IsBoolean(v))
    ensures t.Integral? || t.Enum? ==> (IsConvertible(t, v) <==> Napi.IsNumber(v))
    ensures t == StdString || t == CharPtr ==> (IsConvertible(t, v) <==> Napi.IsString(v))
    ensures t == JsObject ==> (IsConvertible(t, v) <==> Napi.IsObject(v))
    ensures t == JsValue ==> IsConvertible(t, v)
  {
  }

  /** No native type is claimed by two specialisations, well formed or not. */
  lemma SelectionUnambiguous(t: CppType, c1: Convertor, c2: Convertor)
    requires Selects(c1, t) && Selects(c2, t)
    ensures c1 == c2
  {
  }

  /** The bool, signed and unsigned categories split the integral types between them. */
  lemma IntegralCategoriesExclusive(t: CppType)
    requires IsIntegral(t) && WellFormed(t)
    ensures Lookup(t) in {BoolConvertor, SignedConvertor, UnsignedConvertor, Int64Convertor, Uint64Convertor}
    ensures Lookup(t) == BoolConvertor <==> t == Bool
    ensures Lookup(t) == SignedConvertor <==> IsSigned(t) && SizeOf(t) <= 4
    ensures Lookup(t) == UnsignedConvertor <==> t != Bool && !IsSigned(t) && SizeOf(t) <= 4
  {
  }

  lemma BoolConversion(b: bool, v: Napi.Value)
    ensures IsConvertible(Bool, v) <==> Napi.IsBoolean(v)
    ensures ToNativeValue(Bool, ToJSValue(Bool, BoolVal(b))) == Success(BoolVal(b))
  {
  }

  /** Congruence modulo 2^32 carries over to every narrower width. */
  lemma CongruentNarrower(a: int, b: int, size: nat)
    requires ValidSize(size) && size <= 4
    requires (a - b) % Napi.TWO_32 == 0
    ensures a % Modulus(size) == b % Modulus(size)
  {
    var k := (a - b) / Napi.TWO_32;
    assert a - b == k * Napi.TWO_32;
    var m := Modulus(size);
    var c := Napi.TWO_32 / m;
    assert Napi.TWO_32 == c * m;
    assert a == b + (k * c) * m;
    Arithmetic.ShiftMod(b, k * c, m);
  }

  /** Equal remainders make `WrapSigned` agree. */
  lemma WrapSignedByRemainder(a: int, b: int, size: nat)
    requires ValidSize(size) && a % Modulus(size) == b % Modulus(size)
    ensures WrapSigned(a, size) == WrapSigned(b, size)
  {
  }

  /**
   * Reading a number into a signed type of at most 32 bits (`Int32Value`,
   * then `static_cast<T>`) is the two's-complement wrap of the number to the
   * width of T.
   */
  lemma SignedReadWraps(size: nat, n: int)
    requires ValidSize(size) && size <= 4
    ensures ToNativeValue(Integral(true, size), Napi.Number(n)) == Success(IntVal(WrapSigned(n, size)))
  {
    CongruentNarrower(Napi.ToInt32(n), n, size);
    WrapSignedByRemainder(Napi.ToInt32(n), n, size);
  }

  /**
   * Reading a number into an unsigned type of at most 32 bits (`Uint32Value`,
   * narrowed to T) is the number modulo 2^(8 sizeof(T)).
   */
  lemma UnsignedReadWraps(size: nat, n: int)
    requires ValidSize(size) && size <= 4
    ensures ToNativeValue(Integral(false, size), Napi.Number(n)) == Success(IntVal(n % Modulus(size)))
  {
    CongruentNarrower(Napi.ToUint32(n), n, size);
  }

  /** Every value of an integer type of at most 32 bits survives a write and a read. */
  lemma NarrowRoundTrip(t: CppType, x: NativeValue)
    requires t.Integral? && ValidSize(t.size) && t.size <= 4 && HasType(x, t)
    ensures ToNativeValue(t, ToJSValue(t, x)) == Success(x)
  {
    assert ToJSValue(t, x) == Napi.Number(x.i);
    if t.signed {
      assert Napi.ToInt32(x.i) == x.i;
    } else {
      assert Napi.ToUint32(x.i) == x.i;
    }
  }

  /** `int64_t` values of magnitude at most 2^53 survive a write and a read. */
  lemma Int64RoundTrip(i: int)
    requires -Napi.TWO_53 <= i <= Napi.TWO_53
    ensures ToNativeValue(Int64, ToJSValue(Int64, IntVal(i))) == Success(IntVal(i))
  {
  }

  /** Beyond 2^53 the write goes through a double: 2^53 + 1 comes back as 2^53. */
  lemma Int64LosesPrecisionAbove2p53()
    ensures ToNativeValue(Int64, ToJSValue(Int64, IntVal(Napi.TWO_53 + 1))) == Success(IntVal(Napi.TWO_53))
  {
    assert Napi.Ulp(Napi.TWO_53 + 1) == 2 * Napi.Ulp(Napi.TWO_53 / 2);
  }

  /** `uint64_t` values up to 2^53 survive a write and a read. */
  lemma Uint64RoundTrip(i: int)
    requires 0 <= i <= Napi.TWO_53
    ensures ToNativeValue(Uint64, ToJSValue(Uint64, IntVal(i))) == Success(IntVal(i))
  {
  }

  /**
   * What the 64-bit reads return for every number: `int64_t` takes
   * `Int64Value` as it is; `uint64_t` takes it through `static_cast`, so a
   * negative result wraps modulo 2^64.
   */
  lemma WideReads(n: int)
    ensures ToNativeValue(Int64, Napi.Number(n)) == Success(IntVal(Napi.SaturateInt64(n)))
    ensures n < -Napi.TWO_63 ==> ToNativeValue(Uint64, Napi.Number(n)) == Success(IntVal(Napi.TWO_63))
    ensures -Napi.TWO_63 <= n < 0 ==> ToNativeValue(Uint64, Napi.Number(n)) == Success(IntVal(n + Napi.TWO_64))
    ensures 0 <= n < Napi.TWO_63 ==> ToNativeValue(Uint64, Napi.Number(n)) == Success(IntVal(n))
    ensures n >= Napi.TWO_63 ==> ToNativeValue(Uint64, Napi.Number(n)) == Success(IntVal(Napi.TWO_63 - 1))
  {
    Arithmetic.RemainderFacts(Napi.SaturateInt64(n), Napi.TWO_64);
  }

  /** Every `int64_t` that is a double survives a write and a read. */
  lemma Int64DoublesRoundTrip(i: int)
    requires HasType(IntVal(i), Int64) && Napi.IsDouble(i)
    ensures ToNativeValue(Int64, ToJSValue(Int64, IntVal(i))) == Success(IntVal(i))
  {
  }

  /**
   * INT64_MIN = -2^63 is a double and comes back; INT64_MAX = 2^63 - 1 is
   * written as 2^63, which the saturating read turns back into INT64_MAX.
   */
  lemma Int64Extremes()
    ensures ToNativeValue(Int64, ToJSValue(Int64, IntVal(-Napi.TWO_63))) == Success(IntVal(-Napi.TWO_63))
    ensures ToNativeValue(Int64, ToJSValue(Int64, IntVal(Napi.TWO_63 - 1))) == Success(IntVal(Napi.TWO_63 - 1))
  {
    Napi.UlpOfBinade(Napi.TWO_63, 11);
    assert Napi.Pow2(11) == 0x800;
    assert Napi.TWO_63 % 0x800 == 0;
    Int64DoublesRoundTrip(-Napi.TWO_63);
    Napi.UlpOfBinade(Napi.TWO_63 - 1, 10);
    assert Napi.Pow2(10) == 0x400;
    assert Napi.NearestDouble(Napi.TWO_63 - 1) == Napi.TWO_63;
  }

  /**
   * `uint64_t` is read through the signed 64-bit extraction, so no value
   * from 2^63 on can come back: each one reads back as 2^63 - 1.
   */
  lemma Uint64HighHalfSaturates(x: int)
    requires Napi.TWO_63 <= x < Napi.TWO_64
    ensures ToNativeValue(Uint64, ToJSValue(Uint64, IntVal(x))) == Success(IntVal(Napi.TWO_63 - 1))
  {
    Napi.UlpOfBinade(x, 11);
    assert Napi.Pow2(11) == 0x800;
    var r := Napi.NearestDouble(x);
    assert r % 0x800 == 0 && 2 * (if r >= x then r - x else x - r) <= 0x800;
    assert r >= Napi.TWO_63;
    WideReads(r);
  }

  /** Both string categories accept exactly strings and give every string back unchanged. */
  lemma StringRoundTrip(s: string, v: Napi.Value)
    ensures IsConvertible(StdString, v) <==> Napi.IsString(v)
    ensures IsConvertible(CharPtr, v) <==> Napi.IsString(v)
    ensures ToNativeValue(StdString, ToJSValue(StdString, StrVal(s))) == Success(StrVal(s))
    ensures ToNativeValue(CharPtr, ToJSValue(CharPtr, StrVal(s))) == Success(StrVal(s))
    ensures ToNativeValue(CharPtr, v) == ToNativeValue(StdString, v)
  {
  }

  /** `Napi::Object` accepts exactly objects and passes them through in both directions. */
  lemma ObjectPassthrough(id: nat, v: Napi.Value)
    ensures IsConvertible(JsObject, v) <==> Napi.IsObject(v)
    ensures ToJSValue(JsObject, ObjectVal(id)) == Napi.Object(id)
    ensures ToNativeValue(JsObject, Napi.Object(id)) == Success(ObjectVal(id))
  {
  }

  /** `Napi::Value` accepts anything and is the identity in both directions. */
  lemma ValuePassthrough(v: Napi.Value)
    ensures IsConvertible(JsValue, v)
    ensures ToNativeValue(JsValue, v) == Success(JsVal(v))
    ensures ToJSValue(JsValue, JsVal(v)) == v
  {
  }

  /**
   * Enumerations are write-only: writing emits the underlying integral
   * value, reading is never supported, and the check asks for a number.
   */
  lemma EnumWriteOnly(u: CppType, x: NativeValue, v: Napi.Value)
    requires WellFormed(Enum(u)) && HasType(x, Enum(u))
    ensures HasType(x, u) && ToJSValue(Enum(u), x) == ToJSValue(u, x)
    ensures ToNativeValue(Enum(u), v) == Failure(EnumReadUnsupported)
    ensures IsConvertible(Enum(u), v) <==> Napi.IsNumber(v)
  {
  }

  /** `T`, `T&`, `const T&` and `T&&` are written identically. */
  lemma ForwardingIrrelevant(t: CppType, x: NativeValue)
    requires WellFormed(t) && HasType(x, t)
    ensures ToJSValueForwarded(Prvalue(t), x) == ToJSValue(t, x)
    ensures ToJSValueForwarded(LvalueRef(t), x) == ToJSValue(t, x)
    ensures ToJSValueForwarded(ConstLvalueRef(t), x) == ToJSValue(t, x)
    ensures ToJSValueForwarded(RvalueRef(t), x) == ToJSValue(t, x)
  {
  }

  /**
   * Every readable category gives back what it wrote, for all values whose
   * write is exact (64-bit integers within 2^53 of zero).
   */
  lemma RoundTrip(t: CppType, x: NativeValue)
    requires WellFormed(t) && HasType(x, t) && !t.Enum?
    requires t.Integral? ==> -Napi.TWO_53 <= x.i <= Napi.TWO_53
    ensures ToNativeValue(t, ToJSValue(t, x)) == Success(x)
  {
    match t
    case Bool =>
      BoolConversion(x.b, Napi.Undefined);
    case Integral(signed, size) =>
      if size <= 4 {
        NarrowRoundTrip(t, x);
      } else if signed {
        Int64RoundTrip(x.i);
      } else {
        Uint64RoundTrip(x.i);
      }
    case StdString =>
      StringRoundTrip(x.s, Napi.Undefined);
    case CharPtr =>
      StringRoundTrip(x.s, Napi.Undefined);
    case JsObject =>
      ObjectPassthrough(x.id, Napi.Undefined);
    case JsValue =>
      ValuePassthrough(x.v);
  }
}
