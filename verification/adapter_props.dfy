/** Properties of the function adapter and the overload dispatcher: the
    native function sees exactly the decoded arguments and is reached only
    when they all decode; argument errors carry the command's signature;
    the first overload that succeeds completes the command and later ones
    are never tried; when all fail, the report lists every error in order,
    one per line. */
module AdapterProps {
  import opened Optional
  import opened Strings
  import opened Errors
  import opened Host
  import opened Types
  import opened Convert
  import opened ConvertProps
  import opened Adapter

  // ---------------------------------------------------------------------
  // Argument decoding

  /** Every argument decodes with the type of its parameter. */
  predicate ArgsDecode(params: seq<NType>, args: seq<Obj>)
  {
    |args| == |params| && forall i :: 0 <= i < |args| ==> Decode(params[i], args[i]).Success?
  }

  /** The decoded arguments, position by position. */
  function DecodedArgs(params: seq<NType>, args: seq<Obj>): (vs: seq<Val>)
    requires ArgsDecode(params, args)
    ensures |vs| == |args|
  {
    seq(|args|, i requires 0 <= i < |args| => Decode(params[i], args[i]).value)
  }

  /** The tuple decode of the arguments succeeds exactly when every
      argument decodes with its parameter's type, and then yields the
      decoded arguments in order. */
  lemma TupleArgs(params: seq<NType>, args: seq<Obj>)
    ensures DecodeFixed(TupleT(params), args).Success? <==> ArgsDecode(params, args)
    ensures ArgsDecode(params, args) ==> DecodeFixed(TupleT(params), args) == Success(DecodedArgs(params, args))
  {
    var t := TupleT(params);
    if |args| == |params| {
      assert DecodeFixed(t, args) == DecodeElems(t, args, 0);
      ElemsPointwise(t, args);
      assert forall i :: 0 <= i < |args| ==> ElemType(t, i) == params[i];
      if ArgsDecode(params, args) {
        var vs := DecodeElems(t, args, 0).value;
        assert vs == DecodedArgs(params, args);
      }
    }
  }

  /** The values the native function receives are of its parameter
      types. */
  lemma ArgsTyped(params: seq<NType>, args: seq<Obj>)
    requires ArgsDecode(params, args)
    ensures Typed(NSeq(DecodedArgs(params, args)), TupleT(params))
  {
    var vs := DecodedArgs(params, args);
    forall i | 0 <= i < |params|
      ensures Typed(vs[i], params[i])
    {
      DecodeTyped(params[i], args[i]);
    }
  }

  /** A function returning a value is called with the decoded arguments,
      and its result's encoding becomes the command result. */
  lemma ReturningGetsDecodedArgs(params: seq<NType>, f: seq<Val> -> Val, command: Obj, args: seq<Obj>)
    requires ArgsDecode(params, args)
    ensures Invoke(Adapter(params, Returning(f)), command, args)
         == Success(Some(Encode(f(DecodedArgs(params, args)))))
  {
    TupleArgs(params, args);
  }

  /** A void function is called with the decoded arguments and leaves the
      result empty. */
  lemma ProcedureLeavesNoResult(params: seq<NType>, command: Obj, args: seq<Obj>)
    requires ArgsDecode(params, args)
    ensures Invoke(Adapter(params, Procedure), command, args) == Success(None)
  {
    TupleArgs(params, args);
  }

  /** A function returning a Result<T> that holds an error fails with that
      error's text, nothing added. */
  lemma ExpectingForwardsError(params: seq<NType>, g: seq<Val> -> Result<Val>, command: Obj, args: seq<Obj>)
    requires ArgsDecode(params, args)
    requires g(DecodedArgs(params, args)).Failure?
    ensures Invoke(Adapter(params, Expecting(g)), command, args).Failure?
    ensures Render(Invoke(Adapter(params, Expecting(g)), command, args).error)
         == Render(g(DecodedArgs(params, args)).error)
  {
    TupleArgs(params, args);
  }

  /** The native function is reached only when every argument decodes:
      otherwise the outcome does not depend on the function at all. */
  lemma NativeOnlyAfterDecode(params: seq<NType>, n1: Native, n2: Native, command: Obj, args: seq<Obj>)
    requires !ArgsDecode(params, args)
    ensures Invoke(Adapter(params, n1), command, args) == Invoke(Adapter(params, n2), command, args)
    ensures Invoke(Adapter(params, n1), command, args).Failure?
  {
    TupleArgs(params, args);
  }

  /** An argument error is the command word, the parameter type names when
      there are any, ": ", and the tuple decode's error. */
  lemma ArgumentError(a: Adapter, command: Obj, args: seq<Obj>)
    requires !ArgsDecode(a.params, args)
    ensures Invoke(a, command, args).Failure? && DecodeFixed(TupleT(a.params), args).Failure?
    ensures |a.params| == 0 ==>
              Render(Invoke(a, command, args).error)
              == TextOf(command) + ": " + Render(DecodeFixed(TupleT(a.params), args).error)
    ensures |a.params| != 0 ==>
              Render(Invoke(a, command, args).error)
              == TextOf(command) + " " + Names(a.params) + ": " + Render(DecodeFixed(TupleT(a.params), args).error)
  {
    TupleArgs(a.params, args);
  }

  /** Calling `f` declared as taking one int with no arguments fails with
      "f <int>: wrong # args (expected 1 but got 0)". */
  lemma ArityMessageExample(n: Native)
    ensures Invoke(Adapter([IntT(Int)], n), StrObj("f"), []).Failure?
    ensures Render(Invoke(Adapter([IntT(Int)], n), StrObj("f"), []).error)
         == "f" + " " + "<int>" + ": " + ("wrong # args (expected " + "1" + " but got " + "0" + ")")
  {
    OneParameterArity(IntT(Int), n, StrObj("f"));
    assert NatToString(1) == "1";
    assert NatToString(0) == "0";
  }

  /** The name list of a single parameter is that parameter's name. */
  lemma SingleName(t: NType)
    ensures Names([t]) == Name(t)
  {
    assert seq(1, j requires 0 <= j < 1 => Name([t][j])) == [Name(t)];
  }

  // ---------------------------------------------------------------------
  // Dispatch

  /** The overload at position `i` fails on these arguments. */
  ghost predicate Fails(adapters: seq<Adapter>, command: Obj, args: seq<Obj>, i: nat)
    requires i < |adapters|
  {
    Invoke(adapters[i], command, args).Failure?
  }

  /** The first overload that succeeds completes the command with its
      result; the errors of the overloads before it are dropped. */
  lemma {:induction false} AttemptFirstSuccess(adapters: seq<Adapter>, command: Obj, args: seq<Obj>,
                                               i: nat, errors: seq<Error>, k: nat)
    requires i <= k < |adapters| && |errors| == i
    requires forall j :: i <= j < k ==> Fails(adapters, command, args, j)
    requires Invoke(adapters[k], command, args).Success?
    ensures Attempt(adapters, command, args, i, errors)
         == Completion(TclOk, Invoke(adapters[k], command, args).value)
    decreases k - i
  {
    if i < k {
      assert Fails(adapters, command, args, i);
      AttemptFirstSuccess(adapters, command, args, i + 1, errors + [Invoke(adapters[i], command, args).error], k);
    }
  }

  lemma FirstSuccessWins(adapters: seq<Adapter>, command: Obj, args: seq<Obj>, k: nat)
    requires k < |adapters|
    requires forall j :: 0 <= j < k ==> Fails(adapters, command, args, j)
    requires Invoke(adapters[k], command, args).Success?
    ensures Dispatch(adapters, command, args) == Completion(TclOk, Invoke(adapters[k], command, args).value)
  {
    AttemptFirstSuccess(adapters, command, args, 0, [], k);
  }

  /** Overloads after the first success are never tried: appending more
      overloads changes nothing. */
  lemma LaterNeverTried(adapters: seq<Adapter>, more: seq<Adapter>, command: Obj, args: seq<Obj>, k: nat)
    requires k < |adapters|
    requires forall j :: 0 <= j < k ==> Fails(adapters, command, args, j)
    requires Invoke(adapters[k], command, args).Success?
    ensures Dispatch(adapters + more, command, args) == Dispatch(adapters, command, args)
  {
    var all := adapters + more;
    forall j | 0 <= j < k
      ensures Fails(all, command, args, j)
    {
      assert all[j] == adapters[j];
      assert Fails(adapters, command, args, j);
    }
    assert all[k] == adapters[k];
    FirstSuccessWins(adapters, command, args, k);
    FirstSuccessWins(all, command, args, k);
  }

  /** Every overload fails on these arguments. */
  ghost predicate AllFail(adapters: seq<Adapter>, command: Obj, args: seq<Obj>)
  {
    forall j :: 0 <= j < |adapters| ==> Fails(adapters, command, args, j)
  }

  /** The errors of the overloads, in registration order. */
  ghost function FailureErrors(adapters: seq<Adapter>, command: Obj, args: seq<Obj>): (es: seq<Error>)
    requires AllFail(adapters, command, args)
    ensures |es| == |adapters|
  {
    seq(|adapters|, j requires 0 <= j < |adapters| =>
        assert Fails(adapters, command, args, j); Invoke(adapters[j], command, args).error)
  }

  lemma {:induction false} AttemptAllFail(adapters: seq<Adapter>, command: Obj, args: seq<Obj>,
                                          i: nat, errors: seq<Error>)
    requires AllFail(adapters, command, args)
    requires i <= |adapters| && errors == FailureErrors(adapters, command, args)[..i]
    ensures Attempt(adapters, command, args, i, errors)
         == Completion(TclError, Some(StrObj(Report(FailureErrors(adapters, command, args)))))
    decreases |adapters| - i
  {
    var all := FailureErrors(adapters, command, args);
    if i == |adapters| {
      assert errors == all;
    } else {
      assert Fails(adapters, command, args, i);
      var e := Invoke(adapters[i], command, args).error;
      assert all[i] == e;
      assert errors + [e] == all[..i + 1];
      assert Attempt(adapters, command, args, i, errors) == Attempt(adapters, command, args, i + 1, errors + [e]);
      AttemptAllFail(adapters, command, args, i + 1, errors + [e]);
    }
  }

  /** When every overload fails, the command fails and its result is the
      overloads' error texts in registration order, joined by line
      breaks. */
  lemma AllFailJoined(adapters: seq<Adapter>, command: Obj, args: seq<Obj>)
    requires |adapters| != 0 && AllFail(adapters, command, args)
    ensures Dispatch(adapters, command, args)
         == Completion(TclError, Some(StrObj(Join("\n", Renders(FailureErrors(adapters, command, args))))))
  {
    assert FailureErrors(adapters, command, args)[..0] == [];
    AttemptAllFail(adapters, command, args, 0, []);
  }

  /** A single failing overload reports exactly its own error text. */
  lemma SingleFailure(a: Adapter, command: Obj, args: seq<Obj>)
    requires Invoke(a, command, args).Failure?
    ensures Dispatch([a], command, args)
         == Completion(TclError, Some(StrObj(Render(Invoke(a, command, args).error))))
  {
    assert Fails([a], command, args, 0);
    AllFailJoined([a], command, args);
    assert Renders(FailureErrors([a], command, args)) == [Render(Invoke(a, command, args).error)];
  }

  /** The command completes successfully exactly when it has no overloads
      or some overload succeeds. */
  lemma {:induction false} AttemptStatus(adapters: seq<Adapter>, command: Obj, args: seq<Obj>, i: nat, errors: seq<Error>)
    requires i <= |adapters| && |errors| == i
    ensures Attempt(adapters, command, args, i, errors).status == TclOk
        <==> exists k :: i <= k < |adapters| && Invoke(adapters[k], command, args).Success?
    decreases |adapters| - i
  {
    if i < |adapters| {
      var r := Invoke(adapters[i], command, args);
      if r.Failure? {
        AttemptStatus(adapters, command, args, i + 1, errors + [r.error]);
      }
    }
  }

  lemma DispatchStatus(adapters: seq<Adapter>, command: Obj, args: seq<Obj>)
    ensures Dispatch(adapters, command, args).status == TclOk
        <==> |adapters| == 0 || exists k :: 0 <= k < |adapters| && Invoke(adapters[k], command, args).Success?
  {
    if |adapters| != 0 {
      AttemptStatus(adapters, command, args, 0, []);
    }
  }

  /** Called with no arguments, both overloads f(int) and f(string) fail
      on the arity, and the report holds both messages, one per line. */
  lemma BothFailExample(f: seq<Val> -> Val)
    ensures Dispatch([Adapter([IntT(Int)], Returning(f)), Adapter([TextT(StdString)], Returning(f))],
                     StrObj("f"), [])
         == Completion(TclError, Some(StrObj(
              ("f" + " " + "<int>" + ": " + ("wrong # args (expected " + "1" + " but got " + "0" + ")"))
              + "\n"
              + ("f" + " " + "<string>" + ": " + ("wrong # args (expected " + "1" + " but got " + "0" + ")")))))
  {
    var a0 := Adapter([IntT(Int)], Returning(f));
    var a1 := Adapter([TextT(StdString)], Returning(f));
    var adapters := [a0, a1];
    OneParameterArity(IntT(Int), a0.native, StrObj("f"));
    OneParameterArity(TextT(StdString), a1.native, StrObj("f"));
    assert Fails(adapters, StrObj("f"), [], 0);
    assert Fails(adapters, StrObj("f"), [], 1);
    AllFailJoined(adapters, StrObj("f"), []);
    var texts := Renders(FailureErrors(adapters, StrObj("f"), []));
    assert texts[1..] == [texts[1]];
    assert NatToString(1) == "1";
    assert NatToString(0) == "0";
  }

  /** A one-parameter command called with no arguments names its
      parameter type in the arity error. */
  lemma OneParameterArity(t: NType, n: Native, command: Obj)
    ensures Invoke(Adapter([t], n), command, []).Failure?
    ensures Render(Invoke(Adapter([t], n), command, []).error)
         == TextOf(command) + " " + Name(t) + ": "
            + ("wrong # args (expected " + NatToString(1) + " but got " + NatToString(0) + ")")
  {
    SingleName(t);
    FixedArity(TupleT([t]), []);
    TupleArgs([t], []);
  }

  /** Two overloads, f(int) and f(string): the text "x" is not an int, so
      the second overload is called with it. */
  lemma TwoOverloadsExample(f: seq<Val> -> Val)
    ensures Dispatch([Adapter([IntT(Int)], Returning(f)), Adapter([TextT(StdString)], Returning(f))],
                     StrObj("f"), [StrObj("x")])
         == Completion(TclOk, Some(Encode(f([NText("x")]))))
  {
    var a0 := Adapter([IntT(Int)], Returning(f));
    var a1 := Adapter([TextT(StdString)], Returning(f));
    var args := [StrObj("x")];
    NotAnInt();
    assert a0.params[0] == IntT(Int) && args[0] == StrObj("x");
    assert Decode(a0.params[0], args[0]).Failure?;
    NativeOnlyAfterDecode(a0.params, a0.native, Procedure, StrObj("f"), args);
    assert ArgsDecode(a1.params, args);
    assert DecodedArgs(a1.params, args) == [NText("x")];
    ReturningGetsDecodedArgs(a1.params, f, StrObj("f"), args);
    FirstSuccessWins([a0, a1], StrObj("f"), args, 1);
  }

  // ---------------------------------------------------------------------
  // Registration

  /** A registered command runs the overloads given, and every other
      command is left as it was. */
  lemma RegisterRuns(commands: Commands, name: string, adapters: seq<Adapter>, other: string, command: Obj, args: seq<Obj>)
    requires other in commands && other != name
    ensures Dispatch(Register(commands, name, adapters)[name], command, args) == Dispatch(adapters, command, args)
    ensures Dispatch(Register(commands, name, adapters)[other], command, args)
         == Dispatch(commands[other], command, args)
  {
  }
}
