# node-binding: typed calls and type conversion

node-binding lets a C++ add-on for Node.js expose ordinary C++ functions and
methods to JavaScript. This project models two parts of it in Dafny:

- **The converter registry** (`node_binding/type_convertor.h`). For each
  supported C++ type, one `TypeConvertor<T>` specialisation says three things:
  whether a runtime value can be read as `T` (`IsConvertible`), how it is read
  (`ToNativeValue`), and how a `T` is handed back to the runtime
  (`ToJSValue`).
  - The type universe is `TypeConvertor.CppType`: bool, the integral types by
    signedness and size, enums, `std::string`, `const char*`, `Napi::Object`
    and `Napi::Value`.
  - `TypeConvertor.Lookup` picks the specialisation whose `enable_if`
    condition holds for a type.
- **The typed dispatcher** (`node_binding/typed_call.h`). `TypedCall` checks
  the caller's argument count against the bound function's parameter count
  minus the number of bound defaults. It then reads each caller argument with
  the converter for its declared parameter type and appends the defaults.
  Finally it calls the free function or method, and converts the result back
  unless the function returns `void`.
  - The result is `TypedCalls.Dispatch`: the calls made to the bound function
    (none or one) and the value or error handed to the runtime.
  - The hand-unrolled `internal::Invoke<N>` overloads (N = 0..9) are
    `Invoke0`..`Invoke9`. They are proved equal to one generic rule, `Invoke`.

The host runtime's value interface (N-API via node-addon-api) is not part of
this model. Module `Napi` states what the converters assume of it:

- `Int32Value` and `Uint32Value` behave like ToInt32 and ToUint32 of ECMA-262
  (section 7.1, Type Conversion).
- `Int64Value` saturates at the ends of the signed 64-bit range.
- `Number::New` of an integer gives the nearest double, with ties to even.
- Extracting from a value of the wrong kind fails with a status, and
  node-addon-api raises that status as a JavaScript exception. An exception
  is modelled as a `Failure` result.

`macros.h` (the `ARG` and `JS_CHECK_NUM_ARGS` macros) and `template_util.h`
are not part of this model. Their behaviour is taken from how
`typed_call.h` uses them:

- `ARG(i)` reads caller argument `i` with the converter of parameter `i`.
- `JS_CHECK_NUM_ARGS` throws when the count differs.

Module `TypedCallScenarios` runs concrete bindings through the model:

- the `add(int, int)` binding that `test/test.js` exercises;
- a binding with a trailing default;
- a const getter and a void setter.

The enum converter's read (type_convertor.h:210-212) forwards to the
underlying type's converter without passing the value along. A template
binding that reads an enum argument therefore cannot be instantiated. The
model treats such a read as always failing (`EnumReadUnsupported`), while
enum results are written normally.

## Model

| member | source | states |
|---|---|---|
| Napi.ToInt32 | node_binding/type_convertor.h:39-41 | the 32-bit read is in the signed 32-bit range, congruent to the number mod 2^32, and the identity on that range |
| Napi.ToUint32 | node_binding/type_convertor.h:58-60 | the unsigned 32-bit read is in [0, 2^32), congruent mod 2^32, and the identity on that range |
| Napi.SaturateInt64 | node_binding/type_convertor.h:74-80 | the 64-bit read is the identity on the int64 range and clamps to its ends outside it |
| Napi.Ulp | node_binding/type_convertor.h:90-96 | the step between integer-valued doubles is 1 exactly below 2^53; from 2^53 on it is the power of two `u` with `u·2^52 <= m < u·2^53` |
| Napi.UlpOfBinade | node_binding/type_convertor.h:90-96 | in the binade [2^(52+k), 2^(53+k)) the step between integer-valued doubles is exactly 2^k |
| Napi.RoundHalfEven | node_binding/type_convertor.h:90-96 | the result is a multiple of the step, within half a step of the input, the input itself when it is already a multiple, and an even multiple on a tie |
| Napi.NearestDouble | node_binding/type_convertor.h:90-96 | writing an integer keeps its sign, lands on a multiple of the step at its magnitude within half a step of it, and is exact for magnitudes up to 2^53 and for every integer that is a double |
| Napi.BooleanValue | node_binding/type_convertor.h:21-23 | reading a bool succeeds exactly on boolean values |
| Napi.Int32Value | node_binding/type_convertor.h:39-41 | a 32-bit integer read succeeds exactly on numbers |
| Napi.Uint32Value | node_binding/type_convertor.h:58-60 | an unsigned 32-bit read succeeds exactly on numbers |
| Napi.Int64Value | node_binding/type_convertor.h:74-80 | a 64-bit read succeeds exactly on numbers |
| Napi.Utf8Value | node_binding/type_convertor.h:194-196 | a string read succeeds exactly on strings |
| Napi.ToObject | node_binding/type_convertor.h:243-245 | an object read succeeds exactly on objects |
| Napi.NumberNew | node_binding/type_convertor.h:47-49 | writing a number yields a number, equal to the integer when its magnitude is at most 2^53 |
| TypeConvertor.WrapSigned | node_binding/type_convertor.h:39-41 | `static_cast` to a signed type of the given size lands in its range, is congruent mod 2^(8·size), and keeps values already in range |
| TypeConvertor.WrapUnsigned | node_binding/type_convertor.h:58-60 | `static_cast` to an unsigned type lands in [0, 2^(8·size)), is congruent, and keeps values already in range |
| TypeConvertor.Selects | node_binding/type_convertor.h:15-258 | a specialisation for an integral type (bool, narrow signed, narrow unsigned, `int64_t`, `uint64_t`) applies only to integral types, and every other one only to non-integral types |
| TypeConvertor.Lookup | node_binding/type_convertor.h:15-258 | every well-formed type has exactly one specialisation whose `enable_if` condition holds |
| TypeConvertor.SelectionUnambiguous | node_binding/type_convertor.h:34-125 | no two specialisations' conditions hold for the same type |
| TypeConvertor.IntegralCategoriesExclusive | node_binding/type_convertor.h:34-125 | an integral type goes to bool, narrow signed, narrow unsigned, int64 or uint64 exactly by its signedness and size |
| TypeConvertor.IsConvertible | node_binding/type_convertor.h:274-277 | `Napi::Value` accepts every value; every other type accepts only booleans, numbers, strings or objects, never undefined, null or other kinds |
| TypeConvertor.ConvertibleKinds | node_binding/type_convertor.h:25-262 | bool accepts exactly booleans; every integral and enum type, narrow or 64-bit, exactly numbers; both string types exactly strings; `Napi::Object` exactly objects; `Napi::Value` everything |
| TypeConvertor.ToNativeValue | node_binding/type_convertor.h:269-272 | a read succeeds exactly when the type is not an enum and the value is convertible; a successful read has the declared type; reading an enum always fails |
| TypeConvertor.ToJSValue | node_binding/type_convertor.h:29-266 | every specialisation's `ToJSValue` hands a native value of its type back as a runtime value that the same type accepts as convertible |
| TypeConvertor.ToJSValueForwarded | node_binding/type_convertor.h:279-282 | the free `ToJSValue` produces a value that the decayed type accepts as convertible |
| TypeConvertor.BoolConversion | node_binding/type_convertor.h:18-32 | bool accepts exactly booleans, and a bool survives the trip out and back |
| TypeConvertor.CongruentNarrower | node_binding/type_convertor.h:39-41 | values congruent mod 2^32 stay congruent mod every smaller size |
| TypeConvertor.WrapSignedByRemainder | node_binding/type_convertor.h:39-41 | the signed cast depends only on the remainder mod 2^(8·size) |
| TypeConvertor.SignedReadWraps | node_binding/type_convertor.h:34-50 | reading a number as a signed type of at most 32 bits is the two's-complement wrap of the number |
| TypeConvertor.UnsignedReadWraps | node_binding/type_convertor.h:52-69 | reading a number as an unsigned type of at most 32 bits is the number mod 2^(8·size) |
| TypeConvertor.WideReads | node_binding/type_convertor.h:71-125 | for every number, the `int64_t` read is `Int64Value` itself, and the `uint64_t` read is `Int64Value` cast modulo 2^64: `n + 2^64` on [-2^63, 0), `n` on [0, 2^63), 2^63-1 from 2^63 on and 2^63 below -2^63 |
| TypeConvertor.NarrowRoundTrip | node_binding/type_convertor.h:34-69 | every value of an integral type of at most 32 bits survives the trip out and back |
| TypeConvertor.Int64RoundTrip | node_binding/type_convertor.h:71-97 | an int64 of magnitude at most 2^53 survives the trip out and back |
| TypeConvertor.Int64DoublesRoundTrip | node_binding/type_convertor.h:71-97 | every int64 that is a double survives the trip out and back |
| TypeConvertor.Int64Extremes | node_binding/type_convertor.h:71-97 | INT64_MIN and INT64_MAX both survive the trip out and back; INT64_MAX is written as 2^63 and saturates back |
| TypeConvertor.Int64LosesPrecisionAbove2p53 | node_binding/type_convertor.h:71-97 | the int64 2^53+1 reads back as 2^53 |
| TypeConvertor.Uint64RoundTrip | node_binding/type_convertor.h:99-125 | a uint64 up to 2^53 survives the trip out and back |
| TypeConvertor.Uint64HighHalfSaturates | node_binding/type_convertor.h:99-125 | every uint64 from 2^63 on reads back as 2^63-1, because the read goes through the saturating signed 64-bit extraction |
| TypeConvertor.StringRoundTrip | node_binding/type_convertor.h:191-238 | `std::string` and `const char*` accept exactly strings, read alike, and a string survives the trip out and back |
| TypeConvertor.ObjectPassthrough | node_binding/type_convertor.h:240-255 | `Napi::Object` accepts exactly objects and passes the same object both ways |
| TypeConvertor.ValuePassthrough | node_binding/type_convertor.h:257-267 | `Napi::Value` accepts everything and is the identity both ways |
| TypeConvertor.EnumWriteOnly | node_binding/type_convertor.h:207-222 | an enum is written as its underlying integer and accepts exactly numbers, but its read always fails |
| TypeConvertor.ForwardingIrrelevant | node_binding/type_convertor.h:279-282 | `ToJSValue` decays its argument, so a prvalue or any reference to a `T` converts as a `T` |
| TypeConvertor.RoundTrip | node_binding/type_convertor.h:15-267 | every non-enum value within the exactly representable range survives the trip out and back |
| TypedCalls.ReadArgs | node_binding/typed_call.h:25-101 | reading the caller arguments succeeds exactly when every position is readable; it yields each read value in place, and on failure reports the first unreadable position |
| TypedCalls.CallerArity | node_binding/typed_call.h:455 | the caller's arguments and the defaults together fill the parameter list exactly, and a bindable callable expects at most nine caller arguments |
| TypedCalls.ReceiverFor | node_binding/typed_call.h:103-448 | a free function gets no receiver; a method gets the instance `c`: mutable for a plain method, read-only for `const` and `const&`, moved for `&&` |
| TypedCalls.Arg | node_binding/typed_call.h:25-101 | `ARG(i)` succeeds exactly when caller argument `i` is readable by parameter type `i`, yields that read, and otherwise reports position `i` and the cause |
| TypedCalls.Invoke | node_binding/typed_call.h:18-448 | an invocation is made exactly when every caller argument is readable; it gets the receiver the method's qualifier calls for, the read arguments, then the defaults; otherwise the first unreadable position is reported |
| TypedCalls.Invoke0 | node_binding/typed_call.h:18-23 | with no caller arguments, the callee gets the defaults only |
| TypedCalls.Invoke1 | node_binding/typed_call.h:25-31 | `Invoke<1>` meets the same specification as `Invoke` |
| TypedCalls.Invoke2 | node_binding/typed_call.h:33-39 | `Invoke<2>` meets the same specification as `Invoke` |
| TypedCalls.Invoke3 | node_binding/typed_call.h:41-47 | `Invoke<3>` meets the same specification as `Invoke` |
| TypedCalls.Invoke4 | node_binding/typed_call.h:49-56 | `Invoke<4>` meets the same specification as `Invoke` |
| TypedCalls.Invoke5 | node_binding/typed_call.h:58-65 | `Invoke<5>` meets the same specification as `Invoke` |
| TypedCalls.Invoke6 | node_binding/typed_call.h:67-74 | `Invoke<6>` meets the same specification as `Invoke` |
| TypedCalls.Invoke7 | node_binding/typed_call.h:76-83 | `Invoke<7>` meets the same specification as `Invoke` |
| TypedCalls.Invoke8 | node_binding/typed_call.h:85-92 | `Invoke<8>` meets the same specification as `Invoke` |
| TypedCalls.Invoke9 | node_binding/typed_call.h:94-101 | `Invoke<9>` meets the same specification as `Invoke` |
| TypedCalls.InvokeUnrolled | node_binding/typed_call.h:458-459 | choosing `Invoke<num_args>` by the caller's argument count meets the specification of `Invoke` |
| TypedCalls.TypedCall | node_binding/typed_call.h:452-555 | on a count mismatch nothing is read and nothing is called; at the right count the call happens exactly when every argument is readable, and otherwise the error is the first unreadable position with its cause; a successful call is made once, with the delivered arguments, and a non-void result is handed back converted |
| TypedCalls.InvocationDetermined | node_binding/typed_call.h:18-448 | the specification of `Invoke` has exactly one solution |
| TypedCalls.UnrolledInvokeAgrees | node_binding/typed_call.h:18-448 | every unrolled overload agrees with the generic rule on every input |
| TypedCalls.ArgumentsWellTyped | node_binding/typed_call.h:452-555 | after a successful dispatch, every argument the callee got has its parameter's declared type |
| TypedCalls.ArityMismatchReadsNothing | node_binding/typed_call.h:455-456 | on a count mismatch the outcome depends only on the count, not on the values or the callee |
| TypedCalls.ZeroArityPassesDefaultsOnly | node_binding/typed_call.h:18-23 | when every parameter is bound by a default, an empty call invokes the callee with the defaults |
| TypedCalls.TargetOnlyChoosesReceiver | node_binding/typed_call.h:103-448 | free functions and the four method qualifiers read arguments alike; a const or const& method gets a read-only receiver, an && method a moved one |
| TypedCallScenarios.AddScenario | test/test.js:13-23 | `add(1, 2)` returns 3; `add(1)` and `add(1, 2, 3)` fail the count check and call nothing |
| TypedCallScenarios.AddRejectsString | node_binding/type_convertor.h:39-41 | a string passed as `int` fails at position 0 with "number expected" and `add` is not called |
| TypedCallScenarios.GreetScenario | node_binding/typed_call.h:452-459 | a bound default completes the call, and the caller cannot override it |
| TypedCallScenarios.AccessorScenario | node_binding/typed_call.h:470-510 | a const getter runs on a read-only receiver and returns its value; a void setter runs on the mutable receiver and hands nothing back |

## Left out

- `float`/`double` (type_convertor.h:159-189) are not modelled, because runtime numbers are integer-valued here.
- `long`/`unsigned long` (type_convertor.h:127-157) are not modelled. On LP64 Linux `int64_t` is `long`, so C++ selects the explicit `TypeConvertor<long>`, which reads through `Int64Value` as the model's `int64_t` does; `long long` matches no specialisation there. On macOS `int64_t` is `long long`, which the model's `int64_t` then covers. On LLP64 platforms a 4-byte `long` reads through `Int64Value` and then truncates, which differs from the 32-bit `ToInt32` path for magnitudes of 2^63 and more.
- Fractional, NaN, infinite and negative-zero numbers are not modelled. Doubles at or above 2^1024, where `Number::New` would give infinity, are not modelled either.
- The `NAPI_EXPERIMENTAL` BigInt branches of the int64/uint64 converters (type_convertor.h:71-125) are not modelled; only the Number branches are.
- `ToObject`'s wrapping of primitives into objects is not modelled: a non-object fails to convert to `Napi::Object`. In the source a `Napi::Object` parameter accepts every value except undefined and null, while its `IsConvertible` accepts objects only. So TypeConvertor.ToNativeValue's "a read succeeds exactly when the value is convertible" holds at `Napi::Object` for the model, not for the source.
- UTF-8 transcoding is not modelled: strings are character sequences on both sides.
- Enums whose underlying type is `bool` are excluded: an enum's underlying type is an integer type other than bool.
- The bound callee is a pure function from its invocation to its result; its side effects on the instance are not modelled.
- C++ leaves the evaluation order of the `ARG(i)` reads unspecified. The model reads left to right and reports the first failing position.
- The model assumes a build with C++ exceptions enabled, where a failed extraction throws and ends the dispatch. Under `NAPI_DISABLE_CPP_EXCEPTIONS` a failed extraction only schedules a JavaScript exception and yields a default value (0, false, ""), so the later reads still run and the callee is still called once. TypedCalls.TypedCall's "a failed dispatch calls nothing" and TypedCallScenarios.AddRejectsString's "`add` is not called" hold only in the exceptions build.
- A `const char*` parameter is read into a `std::string` (type_convertor.h:227-229). The model assumes `ARG(i)` hands that string on to the callee. `macros.h` is not part of this model, so whether such a binding compiles at all is not settled here.
- The exceptions thrown on a count mismatch or an unreadable argument are modelled as `CallError` values, not as their message text.
- The bindings behind the `1_default_argument`, `2_constructor` and `3_instance_accessor` groups in test/test.js are not part of this model. Its scenarios cover the `0_function` group and bindings of the same shape as the others.
- TypeConvertor.Int64RoundTrip: is stated for magnitudes up to 2^53, where every int64 is a double. Beyond that bound, Int64DoublesRoundTrip covers every int64 that is a double and Int64Extremes covers INT64_MAX; other int64 values are rounded to a neighbouring double, as Int64LosesPrecisionAbove2p53 shows for 2^53+1.
- TypeConvertor.Uint64RoundTrip: is stated for values up to 2^53 only. Uint64HighHalfSaturates shows that no value from 2^63 on comes back; values between 2^53 and 2^63 behave like the int64 ones.
- TypeConvertor.RoundTrip: excludes enums (their read always fails) and integers beyond 2^53.
