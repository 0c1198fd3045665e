/**
 * Concrete bindings run through the dispatcher model: the `add(int, int)`
 * binding exercised by test/test.js, a binding with a trailing default, and
 * a const getter and a void setter on an instance.
 */
module TypedCallScenarios {
  import opened Results
  import Napi
  import opened TypeConvertor
  import opened TypedCalls

  const Int: CppType := Integral(true, 4)

  /** `int add(int a, int b)`, bound with no defaults; `int` overflow, undefined in C++, is modelled as wrapping at 32 bits. */
  const AddBinding: Callable := Callable(FreeFunction, [Int, Int], Some(Int))

  function Add(call: Invocation): (r: NativeValue)
    ensures HasType(r, Int)
  {
    if |call.args| == 2 && call.args[0].IntVal? && call.args[1].IntVal? then
      IntVal(WrapSigned(call.args[0].i + call.args[1].i, 4))
    else
      IntVal(0)
  }

  /** `add(1, 2)` returns 3; `add(1)` and `add(1, 2, 3)` fail the arity check without calling `add`. */
  lemma AddScenario()
    ensures Returns(Add, AddBinding.ret)
    ensures TypedCall(AddBinding, [Napi.Number(1), Napi.Number(2)], [], Add)
            == Dispatch([Invocation(Unbound, [IntVal(1), IntVal(2)])], Success(Some(Napi.Number(3))))
    ensures TypedCall(AddBinding, [Napi.Number(1)], [], Add)
            == Dispatch([], Failure(ArityMismatch(2, 1)))
    ensures TypedCall(AddBinding, [Napi.Number(1), Napi.Number(2), Napi.Number(3)], [], Add)
            == Dispatch([], Failure(ArityMismatch(2, 3)))
  {
    var info := [Napi.Number(1), Napi.Number(2)];
    var d := TypedCall(AddBinding, info, [], Add);
    assert ToNativeValue(Int, info[0]) == Success(IntVal(1));
    assert ToNativeValue(Int, info[1]) == Success(IntVal(2));
    assert AllReadable(AddBinding.params, info, 2);
    var args := d.invocations[0].args;
    assert args == [IntVal(1), IntVal(2)];
    assert Add(d.invocations[0]) == IntVal(3);
  }

  /** A string where an `int` is declared: the read fails at position 0 and `add` is not called. */
  lemma AddRejectsString()
    ensures TypedCall(AddBinding, [Napi.String("1"), Napi.Number(2)], [], Add)
            == Dispatch([], Failure(ConversionFailed(0, Thrown(Napi.NumberExpected))))
  {
  }

  /** `std::string greet(std::string name, std::string suffix)`, bound with the default `"!"`. */
  const Str: CppType := StdString
  const GreetBinding: Callable := Callable(FreeFunction, [Str, Str], Some(Str))

  function Greet(call: Invocation): (r: NativeValue)
    ensures HasType(r, Str)
  {
    if |call.args| == 2 && call.args[0].StrVal? && call.args[1].StrVal? then
      StrVal(call.args[0].s + call.args[1].s)
    else
      StrVal("")
  }

  /**
   * `greet("Ada")` calls `greet("Ada", "!")` and returns `"Ada!"`; the caller
   * cannot override the default, so `greet("Ada", "?")` fails the arity check.
   */
  lemma GreetScenario()
    ensures Returns(Greet, GreetBinding.ret)
    ensures TypedCall(GreetBinding, [Napi.String("Ada")], [StrVal("!")], Greet)
            == Dispatch([Invocation(Unbound, [StrVal("Ada"), StrVal("!")])], Success(Some(Napi.String("Ada!"))))
    ensures TypedCall(GreetBinding, [Napi.String("Ada"), Napi.String("?")], [StrVal("!")], Greet)
            == Dispatch([], Failure(ArityMismatch(1, 2)))
  {
    var info := [Napi.String("Ada")];
    var d := TypedCall(GreetBinding, info, [StrVal("!")], Greet);
    assert ToNativeValue(Str, info[0]) == Success(StrVal("Ada"));
    assert AllReadable(GreetBinding.params, info, 1);
    var args := d.invocations[0].args;
    assert args[1..] == [StrVal("!")];
    assert args == [StrVal("Ada"), StrVal("!")];
    assert Greet(d.invocations[0]) == StrVal("Ada!");
  }

  /** `int Point::x() const` and `void Point::set_x(int)` on the instance numbered 7. */
  const GetX: Callable := Callable(Method(Const, 7), [], Some(Int))
  const SetX: Callable := Callable(Method(NonConst, 7), [Int], None)

  /**
   * The getter runs on a read-only receiver and returns its value; the
   * setter runs on the mutable receiver and the runtime gets no value.
   */
  lemma AccessorScenario(x: int)
    requires -Napi.TWO_31 <= x < Napi.TWO_31
    ensures Returns((call: Invocation) => IntVal(x), GetX.ret)
    ensures TypedCall(GetX, [], [], (call: Invocation) => IntVal(x))
            == Dispatch([Invocation(ReadOnly(7), [])], Success(Some(Napi.Number(x))))
    ensures TypedCall(SetX, [Napi.Number(x)], [], (call: Invocation) => IntVal(0))
            == Dispatch([Invocation(Mutable(7), [IntVal(x)])], Success(None))
  {
    var info := [Napi.Number(x)];
    var d := TypedCall(SetX, info, [], (call: Invocation) => IntVal(0));
    SignedReadWraps(4, x);
    assert ToNativeValue(Int, info[0]) == Success(IntVal(x));
    assert AllReadable(SetX.params, info, 1);
    var args := d.invocations[0].args;
    assert args == [IntVal(x)];
  }
}
