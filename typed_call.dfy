/**
 * The typed dispatcher of node_binding/typed_call.h. `TypedCall` checks the
 * caller's argument count against the declared parameter count minus the
 * number of bound defaults, converts each caller argument by the parameter
 * type at its position, calls the native function or method once with those
 * values followed by the defaults, and converts a non-void result back.
 *
 * The source spells this out as one `Invoke<N>` overload per arity 0..9 and
 * per callable shape (free function; method, const method, const& method,
 * && method), plus one `TypedCall` per shape and void/non-void result. Here
 * the shape is a tag (`Target`), the result type an `Option`, and the arity
 * a number: `Invoke` is the single generic rule, `InvokeUnrolled` the
 * overloads as written, and `UnrolledInvokeAgrees` shows they coincide.
 */
module TypedCalls {
  import opened Results
  import Napi
  import opened TypeConvertor

  /** `Invoke<N>` is defined for N = 0 .. 9 only. */
  const MAX_CALLER_ARGS: nat := 9

  /** The qualification of a member-function pointer: none, `const`, `const&` or `&&`. */
  datatype Qualifier = NonConst | Const | ConstLvalueQualified | RvalueQualified

  /** What is bound: a free function, or a method and the instance `c` it is called on. */
  datatype Target = FreeFunction | Method(qualifier: Qualifier, instance: nat)

  /** A native callable's shape: its target, parameter types and result type (`None` for void). */
  datatype Callable = Callable(target: Target, params: seq<CppType>, ret: Option<CppType>)

  /** How the instance reaches the method: not at all, as `*c`, as a const `*c`, or as `std::move(*c)`. */
  datatype Receiver = Unbound | Mutable(instance: nat) | ReadOnly(instance: nat) | Moved(instance: nat)

  /** One call of the native callable: the receiver and the full argument list. */
  datatype Invocation = Invocation(receiver: Receiver, args: seq<NativeValue>)

  /** How a dispatch fails: the arity check, or the read of one argument. */
  datatype CallError =
    | ArityMismatch(expected: nat, actual: nat)
    | ConversionFailed(position: nat, cause: ReadError)

  /**
   * What one dispatch did: the calls made to the native callable, and what
   * the runtime gets back (`Some` value, `None` for a void callable, or an
   * error raised as an exception).
   */
  datatype Dispatch = Dispatch(invocations: seq<Invocation>, result: Result<Option<Napi.Value>, CallError>)

  /**
   * The compile-time conditions on a binding: at most as many defaults as
   * parameters, at most nine caller-supplied arguments, and defaults that
   * have the types of the trailing parameters.
   */
  predicate Bindable(f: Callable, defaults: seq<NativeValue>) {
    && |defaults| <= |f.params|
    && |f.params| - |defaults| <= MAX_CALLER_ARGS
    && (forall i | 0 <= i < |f.params| :: WellFormed(f.params[i]))
    && (f.ret.Some? ==> WellFormed(f.ret.value))
    && forall j | 0 <= j < |defaults| :: HasType(defaults[j], f.params[|f.params| - |defaults| + j])
  }

  /** `sizeof...(Args) - sizeof...(DefaultArgs)`: the number of arguments the caller must pass. */
  function CallerArity(f: Callable, defaults: seq<NativeValue>): (n: nat)
    requires |defaults| <= |f.params|
    ensures n + |defaults| == |f.params|
    ensures Bindable(f, defaults) ==> n <= MAX_CALLER_ARGS
  {
    |f.params| - |defaults|
  }

  /** The native callable never returns a value outside its declared result type. */
  ghost predicate Returns(callee: Invocation -> NativeValue, ret: Option<CppType>) {
    ret.Some? ==> forall call :: HasType(callee(call), ret.value)
  }

  /** The receiver each callable shape uses. */
  function ReceiverFor(t: Target): (r: Receiver)
    ensures t.FreeFunction? <==> r.Unbound?
    ensures t.Method? ==> r.instance == t.instance
    ensures t.Method? ==> (r.Mutable? <==> t.qualifier == NonConst)
    ensures t.Method? ==> (r.ReadOnly? <==> t.qualifier in {Const, ConstLvalueQualified})
    ensures t.Method? ==> (r.Moved? <==> t.qualifier == RvalueQualified)
  {
    match t
    case FreeFunction => Unbound
    case Method(NonConst, c) => Mutable(c)
    case Method(Const, c) => ReadOnly(c)
    case Method(ConstLvalueQualified, c) => ReadOnly(c)
    case Method(RvalueQualified, c) => Moved(c)
  }

  /** `ARG(i)`: caller argument `i` read by the `i`-th parameter type. */
  function Arg(params: seq<CppType>, info: seq<Napi.Value>, i: nat): (r: Result<NativeValue, CallError>)
    requires i < |info| <= |params| && WellFormed(params[i])
    ensures r.Success? <==> ToNativeValue(params[i], info[i]).Success?
    ensures r.Success? ==> r.value == ToNativeValue(params[i], info[i]).value
    ensures r.Failure? ==> r.error == ConversionFailed(i, ToNativeValue(params[i], info[i]).error)
  {
    match ToNativeValue(params[i], info[i])
    case Success(x) => Success(x)
    case Failure(e) => Failure(ConversionFailed(i, e))
  }

  /** Every caller argument at a position below `n` can be read by its parameter type. */
  predicate AllReadable(params: seq<CppType>, info: seq<Napi.Value>, n: nat)
    requires n <= |info| <= |params| && forall i | 0 <= i < |params| :: WellFormed(params[i])
  {
    forall i | 0 <= i < n :: ToNativeValue(params[i], info[i]).Success?
  }

  /**
   * `e` reports the first unreadable argument at a position from `from` on:
   * every argument before it was read, and it failed for the reason given.
   */
  predicate FirstFailure(e: CallError, params: seq<CppType>, info: seq<Napi.Value>, from: nat)
    requires |info| <= |params| && forall i | 0 <= i < |params| :: WellFormed(params[i])
  {
    && e.ConversionFailed?
    && from <= e.position < |info|
    && ToNativeValue(params[e.position], info[e.position]) == Failure(e.cause)
    && forall i | from <= i < e.position :: ToNativeValue(params[i], info[i]).Success?
  }

  /**
   * `call` is the call the binding must make: the receiver of the target,
   * the caller's arguments each read by the parameter type at its position,
   * then the defaults unchanged and in order.
   */
  predicate Delivers(call: Invocation, f: Callable, info: seq<Napi.Value>, defaults: seq<NativeValue>)
    requires |info| + |defaults| == |f.params| && forall i | 0 <= i < |f.params| :: WellFormed(f.params[i])
  {
    && call.receiver == ReceiverFor(f.target)
    && |call.args| == |f.params|
    && call.args[|info|..] == defaults
    && forall i | 0 <= i < |info| :: ToNativeValue(f.params[i], info[i]) == Success(call.args[i])
  }

  /**
   * Reads the caller arguments at positions `from` .. `n - 1`, left to right,
   * stopping at the first that cannot be read.
   */
  function ReadArgs(params: seq<CppType>, info: seq<Napi.Value>, from: nat, n: nat): (r: Result<seq<NativeValue>, CallError>)
    requires from <= n <= |info| <= |params| && forall i | 0 <= i < |params| :: WellFormed(params[i])
    decreases n - from
    ensures r.Success? <==> forall i | from <= i < n :: ToNativeValue(params[i], info[i]).Success?
    ensures r.Success? ==> |r.value| == n - from
    ensures r.Success? ==> forall i | from <= i < n :: ToNativeValue(params[i], info[i]) == Success(r.value[i - from])
    ensures r.Failure? ==> FirstFailure(r.error, params, info, from) && r.error.position < n
  {
    if from == n then Success([])
    else
      var a :- Arg(params, info, from);
      var rest :- ReadArgs(params, info, from + 1, n);
      Success([a] + rest)
  }

  /**
   * `internal::Invoke<N>` as one generic rule: read the N caller arguments,
   * append the defaults, and form the single call. It runs only after the
   * arity check, so the caller passed exactly N arguments.
   */
  function Invoke(f: Callable, info: seq<Napi.Value>, defaults: seq<NativeValue>): (r: Result<Invocation, CallError>)
    requires Bindable(f, defaults) && |info| == CallerArity(f, defaults)
    ensures r.Success? <==> AllReadable(f.params, info, |info|)
    ensures r.Success? ==> Delivers(r.value, f, info, defaults)
    ensures r.Failure? ==> FirstFailure(r.error, f.params, info, 0)
  {
    var args :- ReadArgs(f.params, info, 0, |info|);
    assert (args + defaults)[|info|..] == defaults;
    Success(Invocation(ReceiverFor(f.target), args + defaults))
  }

  // The `internal::Invoke<N>` overloads as the source writes them, one per N,
  // each calling the callable with `ARG(0), ..., ARG(N-1)` followed by the
  // forwarded defaults; the receiver expression is that of the callable's
  // shape (`f`, `(*c).*f` or `(std::move(*c).*f)`).

  function Invoke0(f: Callable, info: seq<Napi.Value>, defaults: seq<NativeValue>): (r: Result<Invocation, CallError>)
    requires Bindable(f, defaults) && |info| == CallerArity(f, defaults) && |info| == 0
    ensures r.Success? <==> AllReadable(f.params, info, |info|)
    ensures r.Success? ==> Delivers(r.value, f, info, defaults)
    ensures r.Failure? ==> FirstFailure(r.error, f.params, info, 0)
  {
    Success(Invocation(ReceiverFor(f.target), defaults))
  }

  function Invoke1(f: Callable, info: seq<Napi.Value>, defaults: seq<NativeValue>): (r: Result<Invocation, CallError>)
    requires Bindable(f, defaults) && |info| == CallerArity(f, defaults) && |info| == 1
    ensures r.Success? <==> AllReadable(f.params, info, |info|)
    ensures r.Success? ==> Delivers(r.value, f, info, defaults)
    ensures r.Failure? ==> FirstFailure(r.error, f.params, info, 0)
  {
    var p := f.params;
    var a0 :- Arg(p, info, 0);
    assert ([a0] + defaults)[1..] == defaults;
    Success(Invocation(ReceiverFor(f.target), [a0] + defaults))
  }

  function Invoke2(f: Callable, info: seq<Napi.Value>, defaults: seq<NativeValue>): (r: Result<Invocation, CallError>)
    requires Bindable(f, defaults) && |info| == CallerArity(f, defaults) && |info| == 2
    ensures r.Success? <==> AllReadable(f.params, info, |info|)
    ensures r.Success? ==> Delivers(r.value, f, info, defaults)
    ensures r.Failure? ==> FirstFailure(r.error, f.params, info, 0)
  {
    var p := f.params;
    var a0 :- Arg(p, info, 0);
    var a1 :- Arg(p, info, 1);
    assert ([a0, a1] + defaults)[2..] == defaults;
    Success(Invocation(ReceiverFor(f.target), [a0, a1] + defaults))
  }

  function Invoke3(f: Callable, info: seq<Napi.Value>, defaults: seq<NativeValue>): (r: Result<Invocation, CallError>)
    requires Bindable(f, defaults) && |info| == CallerArity(f, defaults) && |info| == 3
    ensures r.Success? <==> AllReadable(f.params, info, |info|)
    ensures r.Success? ==> Delivers(r.value, f, info, defaults)
    ensures r.Failure? ==> FirstFailure(r.error, f.params, info, 0)
  {
    var p := f.params;
    var a0 :- Arg(p, info, 0);
    var a1 :- Arg(p, info, 1);
    var a2 :- Arg(p, info, 2);
    assert ([a0, a1, a2] + defaults)[3..] == defaults;
    Success(Invocation(ReceiverFor(f.target), [a0, a1, a2] + defaults))
  }

  function Invoke4(f: Callable, info: seq<Napi.Value>, defaults: seq<NativeValue>): (r: Result<Invocation, CallError>)
    requires Bindable(f, defaults) && |info| == CallerArity(f, defaults) && |info| == 4
    ensures r.Success? <==> AllReadable(f.params, info, |info|)
    ensures r.Success? ==> Delivers(r.value, f, info, defaults)
    ensures r.Failure? ==> FirstFailure(r.error, f.params, info, 0)
  {
    var p := f.params;
    var a0 :- Arg(p, info, 0);
    var a1 :- Arg(p, info, 1);
    var a2 :- Arg(p, info, 2);
    var a3 :- Arg(p, info, 3);
    assert ([a0, a1, a2, a3] + defaults)[4..] == defaults;
    Success(Invocation(ReceiverFor(f.target), [a0, a1, a2, a3] + defaults))
  }

  function Invoke5(f: Callable, info: seq<Napi.Value>, defaults: seq<NativeValue>): (r: Result<Invocation, CallError>)
    requires Bindable(f, defaults) && |info| == CallerArity(f, defaults) && |info| == 5
    ensures r.Success? <==> AllReadable(f.params, info, |info|)
    ensures r.Success? ==> Delivers(r.value, f, info, defaults)
    ensures r.Failure? ==> FirstFailure(r.error, f.params, info, 0)
  {
    var p := f.params;
    var a0 :- Arg(p, info, 0);
    var a1 :- Arg(p, info, 1);
    var a2 :- Arg(p, info, 2);
    var a3 :- Arg(p, info, 3);
    var a4 :- Arg(p, info, 4);
    assert ([a0, a1, a2, a3, a4] + defaults)[5..] == defaults;
    Success(Invocation(ReceiverFor(f.target), [a0, a1, a2, a3, a4] + defaults))
  }

  function Invoke6(f: Callable, info: seq<Napi.Value>, defaults: seq<NativeValue>): (r: Result<Invocation, CallError>)
    requires Bindable(f, defaults) && |info| == CallerArity(f, defaults) && |info| == 6
    ensures r.Success? <==> AllReadable(f.params, info, |info|)
    ensures r.Success? ==> Delivers(r.value, f, info, defaults)
    ensures r.Failure? ==> FirstFailure(r.error, f.params, info, 0)
  {
    var p := f.params;
    var a0 :- Arg(p, info, 0);
    var a1 :- Arg(p, info, 1);
    var a2 :- Arg(p, info, 2);
    var a3 :- Arg(p, info, 3);
    var a4 :- Arg(p, info, 4);
    var a5 :- Arg(p, info, 5);
    assert ([a0, a1, a2, a3, a4, a5] + defaults)[6..] == defaults;
    Success(Invocation(ReceiverFor(f.target), [a0, a1, a2, a3, a4, a5] + defaults))
  }

  function Invoke7(f: Callable, info: seq<Napi.Value>, defaults: seq<NativeValue>): (r: Result<Invocation, CallError>)
    requires Bindable(f, defaults) && |info| == CallerArity(f, defaults) && |info| == 7
    ensures r.Success? <==> AllReadable(f.params, info, |info|)
    ensures r.Success? ==> Delivers(r.value, f, info, defaults)
    ensures r.Failure? ==> FirstFailure(r.error, f.params, info, 0)
  {
    var p := f.params;
    var a0 :- Arg(p, info, 0);
    var a1 :- Arg(p, info, 1);
    var a2 :- Arg(p, info, 2);
    var a3 :- Arg(p, info, 3);
    var a4 :- Arg(p, info, 4);
    var a5 :- Arg(p, info, 5);
    var a6 :- Arg(p, info, 6);
    assert ([a0, a1, a2, a3, a4, a5, a6] + defaults)[7..] == defaults;
    Success(Invocation(ReceiverFor(f.target), [a0, a1, a2, a3, a4, a5, a6] + defaults))
  }

  function Invoke8(f: Callable, info: seq<Napi.Value>, defaults: seq<NativeValue>): (r: Result<Invocation, CallError>)
    requires Bindable(f, defaults) && |info| == CallerArity(f, defaults) && |info| == 8
    ensures r.Success? <==> AllReadable(f.params, info, |info|)
    ensures r.Success? ==> Delivers(r.value, f, info, defaults)
    ensures r.Failure? ==> FirstFailure(r.error, f.params, info, 0)
  {
    var p := f.params;
    var a0 :- Arg(p, info, 0);
    var a1 :- Arg(p, info, 1);
    var a2 :- Arg(p, info, 2);
    var a3 :- Arg(p, info, 3);
    var a4 :- Arg(p, info, 4);
    var a5 :- Arg(p, info, 5);
    var a6 :- Arg(p, info, 6);
    var a7 :- Arg(p, info, 7);
    assert ([a0, a1, a2, a3, a4, a5, a6, a7] + defaults)[8..] == defaults;
    Success(Invocation(ReceiverFor(f.target), [a0, a1, a2, a3, a4, a5, a6, a7] + defaults))
  }

  function Invoke9(f: Callable, info: seq<Napi.Value>, defaults: seq<NativeValue>): (r: Result<Invocation, CallError>)
    requires Bindable(f, defaults) && |info| == CallerArity(f, defaults) && |info| == 9
    ensures r.Success? <==> AllReadable(f.params, info, |info|)
    ensures r.Success? ==> Delivers(r.value, f, info, defaults)
    ensures r.Failure? ==> FirstFailure(r.error, f.params, info, 0)
  {
    var p := f.params;
    var a0 :- Arg(p, info, 0);
    var a1 :- Arg(p, info, 1);
    var a2 :- Arg(p, info, 2);
    var a3 :- Arg(p, info, 3);
    var a4 :- Arg(p, info, 4);
    var a5 :- Arg(p, info, 5);
    var a6 :- Arg(p, info, 6);
    var a7 :- Arg(p, info, 7);
    var a8 :- Arg(p, info, 8);
    assert ([a0, a1, a2, a3, a4, a5, a6, a7, a8] + defaults)[9..] == defaults;
    Success(Invocation(ReceiverFor(f.target), [a0, a1, a2, a3, a4, a5, a6, a7, a8] + defaults))
  }

  /** The overload `enable_if` selects for N = |info|. */
  function InvokeUnrolled(f: Callable, info: seq<Napi.Value>, defaults: seq<NativeValue>): (r: Result<Invocation, CallError>)
    requires Bindable(f, defaults) && |info| == CallerArity(f, defaults)
    ensures r.Success? <==> AllReadable(f.params, info, |info|)
    ensures r.Success? ==> Delivers(r.value, f, info, defaults)
    ensures r.Failure? ==> FirstFailure(r.error, f.params, info, 0)
  {
    match |info|
    case 0 => Invoke0(f, info, defaults)
    case 1 => Invoke1(f, info, defaults)
    case 2 => Invoke2(f, info, defaults)
    case 3 => Invoke3(f, info, defaults)
    case 4 => Invoke4(f, info, defaults)
    case 5 => Invoke5(f, info, defaults)
    case 6 => Invoke6(f, info, defaults)
    case 7 => Invoke7(f, info, defaults)
    case 8 => Invoke8(f, info, defaults)
    case 9 => Invoke9(f, info, defaults)
  }

  /**
   * `TypedCall`, all ten overloads: the arity check comes first and, on a
   * mismatch, nothing is read and nothing is called; otherwise the callable
   * is called exactly once, with the call `Delivers` describes, and a
   * non-void result is written back with the converter of the result type.
   */
  function TypedCall(f: Callable, info: seq<Napi.Value>, defaults: seq<NativeValue>,
                     callee: Invocation -> NativeValue): (d: Dispatch)
    requires Bindable(f, defaults) && Returns(callee, f.ret)
    ensures |info| != CallerArity(f, defaults) ==>
              d == Dispatch([], Failure(ArityMismatch(CallerArity(f, defaults), |info|)))
    ensures |info| == CallerArity(f, defaults) ==>
              (d.result.Success? <==> AllReadable(f.params, info, |info|))
    ensures |info| == CallerArity(f, defaults) && d.result.Failure? ==>
              FirstFailure(d.result.error, f.params, info, 0)
    ensures d.result.Failure? ==> d.invocations == []
    ensures d.result.Success? ==>
              && |d.invocations| == 1
              && Delivers(d.invocations[0], f, info, defaults)
              && (f.ret.None? ==> d.result.value == None)
              && (f.ret.Some? ==> d.result.value == Some(ToJSValue(f.ret.value, callee(d.invocations[0]))))
  {
    var n := CallerArity(f, defaults);
    if |info| != n then
      Dispatch([], Failure(ArityMismatch(n, |info|)))
    else
      match Invoke(f, info, defaults)
      case Failure(e) => Dispatch([], Failure(e))
      case Success(call) =>
        var result := callee(call);
        Dispatch([call], Success(if f.ret.None? then None else Some(ToJSValue(f.ret.value, result))))
  }

  // ---------------------------------------------------------------------
  // Properties of the dispatcher.

  /** The specification `Invoke` meets has exactly one solution. */
  lemma InvocationDetermined(f: Callable, info: seq<Napi.Value>, defaults: seq<NativeValue>,
                             r1: Result<Invocation, CallError>, r2: Result<Invocation, CallError>)
    requires Bindable(f, defaults) && |info| == CallerArity(f, defaults)
    requires r1.Success? <==> AllReadable(f.params, info, |info|)
    requires r1.Success? ==> Delivers(r1.value, f, info, defaults)
    requires r1.Failure? ==> FirstFailure(r1.error, f.params, info, 0)
    requires r2.Success? <==> AllReadable(f.params, info, |info|)
    requires r2.Success? ==> Delivers(r2.value, f, info, defaults)
    requires r2.Failure? ==> FirstFailure(r2.error, f.params, info, 0)
    ensures r1 == r2
  {
    if r1.Success? {
      var a1, a2 := r1.value.args, r2.value.args;
      forall i | 0 <= i < |a1| ensures a1[i] == a2[i] {
        if i >= |info| {
          assert a1[i] == a1[|info|..][i - |info|];
          assert a2[i] == a2[|info|..][i - |info|];
        }
      }
      assert a1 == a2;
    } else {
      var p1, p2 := r1.error.position, r2.error.position;
      assert p1 == p2;
    }
  }

  /** Every hand-unrolled overload agrees with the generic rule. */
  lemma UnrolledInvokeAgrees(f: Callable, info: seq<Napi.Value>, defaults: seq<NativeValue>)
    requires Bindable(f, defaults) && |info| == CallerArity(f, defaults)
    ensures InvokeUnrolled(f, info, defaults) == Invoke(f, info, defaults)
  {
    InvocationDetermined(f, info, defaults, InvokeUnrolled(f, info, defaults), Invoke(f, info, defaults));
  }

  /** Every argument of a successful call has the type of its parameter. */
  lemma ArgumentsWellTyped(f: Callable, info: seq<Napi.Value>, defaults: seq<NativeValue>,
                           callee: Invocation -> NativeValue)
    requires Bindable(f, defaults) && Returns(callee, f.ret)
    requires TypedCall(f, info, defaults, callee).result.Success?
    ensures forall i | 0 <= i < |f.params| ::
              HasType(TypedCall(f, info, defaults, callee).invocations[0].args[i], f.params[i])
  {
    var call := TypedCall(f, info, defaults, callee).invocations[0];
    var n := |info|;
    forall i | 0 <= i < |f.params| ensures HasType(call.args[i], f.params[i]) {
      if i >= n {
        assert call.args[i] == call.args[n..][i - n];
      }
    }
  }

  /**
   * On an arity mismatch the outcome depends only on the number of
   * arguments: no argument is read and the callable is never called.
   */
  lemma ArityMismatchReadsNothing(f: Callable, info: seq<Napi.Value>, info': seq<Napi.Value>,
                                  defaults: seq<NativeValue>,
                                  callee: Invocation -> NativeValue, callee': Invocation -> NativeValue)
    requires Bindable(f, defaults) && Returns(callee, f.ret) && Returns(callee', f.ret)
    requires |info| == |info'| != CallerArity(f, defaults)
    ensures TypedCall(f, info, defaults, callee) == TypedCall(f, info', defaults, callee')
    ensures TypedCall(f, info, defaults, callee).invocations == []
  {
  }

  /** With no caller arguments expected, nothing is read and the callable gets the defaults alone. */
  lemma ZeroArityPassesDefaultsOnly(f: Callable, defaults: seq<NativeValue>, callee: Invocation -> NativeValue)
    requires Bindable(f, defaults) && Returns(callee, f.ret) && CallerArity(f, defaults) == 0
    ensures TypedCall(f, [], defaults, callee).invocations == [Invocation(ReceiverFor(f.target), defaults)]
  {
    var d := TypedCall(f, [], defaults, callee);
    assert d.invocations[0].args == d.invocations[0].args[0..];
  }

  /**
   * The member-function shapes follow the free-function rule: for the same
   * parameters, defaults and caller arguments, every target reads the same
   * arguments and passes the same list; only the receiver differs, and it
   * is the instance `c`, const for the const shapes and moved for `&&`.
   */
  lemma TargetOnlyChoosesReceiver(t1: Target, t2: Target, params: seq<CppType>, ret: Option<CppType>,
                                  info: seq<Napi.Value>, defaults: seq<NativeValue>)
    requires Bindable(Callable(t1, params, ret), defaults) && |info| + |defaults| == |params|
    ensures Invoke(Callable(t1, params, ret), info, defaults).Success?
            == Invoke(Callable(t2, params, ret), info, defaults).Success?
    ensures Invoke(Callable(t1, params, ret), info, defaults).Failure? ==>
              Invoke(Callable(t1, params, ret), info, defaults).error
              == Invoke(Callable(t2, params, ret), info, defaults).error
    ensures Invoke(Callable(t1, params, ret), info, defaults).Success? ==>
              Invoke(Callable(t1, params, ret), info, defaults).value.args
              == Invoke(Callable(t2, params, ret), info, defaults).value.args
    ensures t1.Method? ==> ReceiverFor(t1).instance == t1.instance
    ensures t1.Method? && t1.qualifier in {Const, ConstLvalueQualified} ==> ReceiverFor(t1).ReadOnly?
    ensures t1.Method? && t1.qualifier == RvalueQualified ==> ReceiverFor(t1).Moved?
  {
  }
}
