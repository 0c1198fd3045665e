/**
 * The host runtime's value interface (N-API, through node-addon-api), as far
 * as the converters use it. N-API itself is not part of this model; what the
 * converters rely on is stated here as explicit assumptions:
 *
 *  - a runtime number is modelled by its integer value (fractions, NaN,
 *    infinities and -0 are not modelled);
 *  - `Int32Value` and `Uint32Value` behave like the ToInt32 and ToUint32
 *    abstract operations of ECMA-262 (section 7.1, Type Conversion): the
 *    number is reduced modulo 2^32 into the signed or unsigned 32-bit range;
 *  - `Int64Value` saturates at the ends of the signed 64-bit range;
 *  - `Number::New` of an integer yields the nearest double, ties to even;
 *  - extracting a primitive from a value of another kind fails with the
 *    matching "expected" status, which node-addon-api raises as an exception.
 */
module Napi {
  import opened Results
  import Arithmetic

  /** A runtime value, kept opaque except for the kinds the converters test. */
  datatype Value =
    | Undefined
    | Null
    | Boolean(b: bool)
    | Number(n: int)
    | String(s: string)
    | Object(id: nat)
    | Other

  /** The status an extraction reports for a value of the wrong kind. */
  datatype Status = BooleanExpected | NumberExpected | StringExpected | ObjectExpected

  const TWO_31: int := 0x8000_0000
  const TWO_32: int := 0x1_0000_0000
  const TWO_53: int := 0x20_0000_0000_0000
  const TWO_63: int := 0x8000_0000_0000_0000
  const TWO_64: int := 0x1_0000_0000_0000_0000

  predicate IsBoolean(v: Value) { v.Boolean? }
  predicate IsNumber(v: Value) { v.Number? }
  predicate IsString(v: Value) { v.String? }
  predicate IsObject(v: Value) { v.Object? }

  /** ECMA-262 ToInt32 on an integer: the unique signed 32-bit value congruent to `n`. */
  function ToInt32(n: int): (r: int)
    ensures -TWO_31 <= r < TWO_31
    ensures (r - n) % TWO_32 == 0
    ensures -TWO_31 <= n < TWO_31 ==> r == n
  {
    Arithmetic.RemainderFacts(n, TWO_32);
    var m := n % TWO_32;
    if m >= TWO_31 then m - TWO_32 else m
  }

  /** ECMA-262 ToUint32 on an integer: the unique unsigned 32-bit value congruent to `n`. */
  function ToUint32(n: int): (r: int)
    ensures 0 <= r < TWO_32
    ensures (r - n) % TWO_32 == 0
    ensures 0 <= n < TWO_32 ==> r == n
  {
    Arithmetic.RemainderFacts(n, TWO_32);
    n % TWO_32
  }

  /** The assumed 64-bit extraction of an integer-valued number: saturating. */
  function SaturateInt64(n: int): (r: int)
    ensures -TWO_63 <= r < TWO_63
    ensures -TWO_63 <= n < TWO_63 ==> r == n
    ensures n >= TWO_63 ==> r == TWO_63 - 1
    ensures n < -TWO_63 ==> r == -TWO_63
  {
    if n >= TWO_63 then TWO_63 - 1 else if n < -TWO_63 then -TWO_63 else n
  }

  predicate IsPowerOfTwo(u: nat)
    decreases u
  {
    u == 1 || (u >= 2 && u % 2 == 0 && IsPowerOfTwo(u / 2))
  }

  /**
   * The step between integer-valued doubles at magnitude `m`: 1 below 2^53,
   * and from 2^53 on the power of two `u` whose binade [u 2^52, u 2^53)
   * holds `m`.
   */
  function Ulp(m: nat): (u: nat)
    ensures u >= 1 && IsPowerOfTwo(u)
    ensures u == 1 <==> m < TWO_53
    ensures m >= TWO_53 ==> u % 2 == 0 && u * (TWO_53 / 2) <= m < u * TWO_53
  {
    if m < TWO_53 then 1 else 2 * Ulp(m / 2)
  }

  function Pow2(k: nat): (p: nat)
    ensures p >= 1
  {
    if k == 0 then 1 else 2 * Pow2(k - 1)
  }

  /** In the binade [2^(52+k), 2^(53+k)) the step between integer-valued doubles is 2^k. */
  lemma {:induction false} UlpOfBinade(m: nat, k: nat)
    requires Pow2(k) * (TWO_53 / 2) <= m < Pow2(k) * TWO_53
    ensures Ulp(m) == Pow2(k)
    decreases k
  {
    if k > 0 {
      var p := Pow2(k - 1);
      assert Pow2(k) == 2 * p;
      assert m >= TWO_53;
      assert p * (TWO_53 / 2) <= m / 2 < p * TWO_53;
      UlpOfBinade(m / 2, k - 1);
    }
  }

  /** An integer is a double when it lies on the grid of steps at its magnitude. */
  predicate IsDouble(n: int) {
    var m := if n >= 0 then n else -n;
    m % Ulp(m) == 0
  }

  /** Rounds `m` to a nearest multiple of `u`, ties to the even multiple. */
  function RoundHalfEven(m: nat, u: nat): (r: nat)
    requires u >= 1
    ensures r % u == 0
    ensures 2 * (if r >= m then r - m else m - r) <= u
    ensures m % u == 0 ==> r == m
    ensures 2 * (if r >= m then r - m else m - r) == u ==> (r / u) % 2 == 0
  {
    var q, rem := m / u, m % u;
    Arithmetic.MultipleFacts(q, u);
    Arithmetic.MultipleFacts(q + 1, u);
    assert m == q * u + rem;
    assert (q + 1) * u == q * u + u;
    if 2 * rem < u || (2 * rem == u && q % 2 == 0) then
      assert m - q * u == rem;
      q * u
    else
      assert (q + 1) * u - m == u - rem;
      (q + 1) * u
  }

  /** The double nearest to the integer `n`, as an integer (overflow to infinity is not modelled). */
  function NearestDouble(n: int): (r: int)
    ensures n >= 0 ==> r >= 0 && r % Ulp(n) == 0 && 2 * (if r >= n then r - n else n - r) <= Ulp(n)
    ensures n < 0 ==> r <= 0 && (-r) % Ulp(-n) == 0 && 2 * (if r >= n then r - n else n - r) <= Ulp(-n)
    ensures -TWO_53 <= n <= TWO_53 ==> r == n
    ensures IsDouble(n) ==> r == n
  {
    if n >= 0 then RoundHalfEven(n, Ulp(n)) else -(RoundHalfEven(-n, Ulp(-n)) as int)
  }

  /** `Napi::Boolean::Value` after `As<Napi::Boolean>()`. */
  function BooleanValue(v: Value): (r: Result<bool, Status>)
    ensures r.Success? <==> IsBoolean(v)
  {
    if v.Boolean? then Success(v.b) else Failure(BooleanExpected)
  }

  /** `Napi::Number::Int32Value`. */
  function Int32Value(v: Value): (r: Result<int, Status>)
    ensures r.Success? <==> IsNumber(v)
  {
    if v.Number? then Success(ToInt32(v.n)) else Failure(NumberExpected)
  }

  /** `Napi::Number::Uint32Value`. */
  function Uint32Value(v: Value): (r: Result<int, Status>)
    ensures r.Success? <==> IsNumber(v)
  {
    if v.Number? then Success(ToUint32(v.n)) else Failure(NumberExpected)
  }

  /** `Napi::Number::Int64Value`. */
  function Int64Value(v: Value): (r: Result<int, Status>)
    ensures r.Success? <==> IsNumber(v)
  {
    if v.Number? then Success(SaturateInt64(v.n)) else Failure(NumberExpected)
  }

  /** `Napi::String::Utf8Value`; strings are plain character sequences here. */
  function Utf8Value(v: Value): (r: Result<string, Status>)
    ensures r.Success? <==> IsString(v)
  {
    if v.String? then Success(v.s) else Failure(StringExpected)
  }

  /** `Napi::Value::ToObject`; coercion of primitives to wrapper objects is not modelled. */
  function ToObject(v: Value): (r: Result<nat, Status>)
    ensures r.Success? <==> IsObject(v)
  {
    if v.Object? then Success(v.id) else Failure(ObjectExpected)
  }

  /** `Napi::Number::New` of an integer. */
  function NumberNew(n: int): (r: Value)
    ensures IsNumber(r)
    ensures -TWO_53 <= n <= TWO_53 ==> r == Number(n)
  {
    Number(NearestDouble(n))
  }
}
