/** The function adapter and the overload dispatcher: a native function is
    wrapped into a command that decodes its arguments as a tuple of the
    parameter types, calls the function and encodes what it returns; a
    command holds one adapter per overload and tries them in turn. */
module Adapter {
  import opened Optional
  import opened Strings
  import opened Errors
  import opened Host
  import opened Types
  import opened Convert

  /** The native function behind an adapter, by its return type: void, a
      plain value, or a Result<T> that may carry an error of its own. */
  datatype Native =
    | Procedure
    | Returning(f: seq<Val> -> Val)
    | Expecting(g: seq<Val> -> Result<Val>)

  /** FunctionHelper<R, As...>::make: the parameter types As... and the
      function. */
  datatype Adapter = Adapter(params: seq<NType>, native: Native)

  /** The completion codes a command returns to the interpreter. */
  datatype Status = TclOk | TclError

  /** What a command leaves behind: its completion code and the
      interpreter's result object (`None` for an empty result). */
  datatype Completion = Completion(status: Status, result: Option<Obj>)

  /** What precedes an argument error: the command word, the parameter
      type names when there are parameters, and ": ". */
  function Signature(command: Obj, params: seq<NType>): (r: string)
    ensures |params| == 0 ==> r == TextOf(command) + ": "
    ensures |params| != 0 ==> r == TextOf(command) + " " + Names(params) + ": "
  {
    TextOf(command) + (if |params| != 0 then " " + Names(params) else "") + ": "
  }

  /** Res<R>::to: the returned value's encoding; a Result<T> holding an
      error is forwarded unchanged. */
  ghost function Respond(native: Native, vs: seq<Val>): (r: Result<Option<Obj>>)
    requires !native.Procedure?
    ensures native.Returning? ==> r == Success(Some(Encode(native.f(vs))))
    ensures native.Expecting? && native.g(vs).Failure? ==>
              r.Failure? && Render(r.error) == Render(native.g(vs).error)
    ensures native.Expecting? && native.g(vs).Success? ==>
              r == Success(Some(Encode(native.g(vs).value)))
  {
    match native
    case Returning(f) => Success(Some(Encode(f(vs))))
    case Expecting(g) =>
      match g(vs)
      case Failure(e) => Failure(Forward(Forward(e)))
      case Success(v) => Success(Some(Encode(v)))
  }

  /** The command built by make: the arguments after the command word are
      decoded as a tuple of the parameter types; a failure is reported
      after the signature; otherwise the function is called with the
      decoded values and its result, if any, becomes the interpreter's
      result. The interpreter result is reset first, so a void function
      leaves it empty. */
  ghost function Invoke(a: Adapter, command: Obj, args: seq<Obj>): (r: Result<Option<Obj>>)
    ensures DecodeFixed(TupleT(a.params), args).Failure? ==>
              r.Failure?
              && Render(r.error)
                 == Signature(command, a.params) + Render(DecodeFixed(TupleT(a.params), args).error)
    ensures DecodeFixed(TupleT(a.params), args).Success? && a.native.Procedure? ==> r == Success(None)
  {
    match DecodeFixed(TupleT(a.params), args)
    case Failure(e) => Failure(Generic(Insert(Signature(command, a.params), e)))
    case Success(vs) => if a.native.Procedure? then Success(None) else Respond(a.native, vs)
  }

  /** call_function: the overloads are tried in registration order and
      the first success completes the command; when every overload fails,
      the command fails with their errors, one per line. A command with no
      overloads completes successfully whatever its arguments. */
  ghost function Dispatch(adapters: seq<Adapter>, command: Obj, args: seq<Obj>): (c: Completion)
    ensures |adapters| == 0 ==> c == Completion(TclOk, None)
  {
    if |adapters| == 0 then Completion(TclOk, None) else Attempt(adapters, command, args, 0, [])
  }

  /** The loop over the overloads from position `i` on, with the errors of
      the overloads before it. */
  ghost function Attempt(adapters: seq<Adapter>, command: Obj, args: seq<Obj>, i: nat, errors: seq<Error>): (c: Completion)
    requires i <= |adapters| && |errors| == i
    decreases |adapters| - i
  {
    if i == |adapters| then Completion(TclError, Some(NewString(Report(errors))))
    else
      match Invoke(adapters[i], command, args)
      case Success(res) => Completion(TclOk, res)
      case Failure(e) => Attempt(adapters, command, args, i + 1, errors + [e])
  }

  /** The renderings of a sequence of errors. */
  function Renders(errors: seq<Error>): (r: seq<string>)
    ensures |r| == |errors|
    ensures forall i :: 0 <= i < |errors| ==> r[i] == Render(errors[i])
  {
    seq(|errors|, i requires 0 <= i < |errors| => Render(errors[i]))
  }

  /** The failure report: every error, a line break between consecutive
      ones. */
  function Report(errors: seq<Error>): string
  {
    Join("\n", Renders(errors))
  }

  /** The report as call_function writes it: into a string stream, a line
      break before every error but the first. */
  method WriteReport(errors: seq<Error>) returns (s: string)
    ensures s == Report(errors)
  {
    s := "";
    var i := 0;
    while i < |errors|
      invariant 0 <= i <= |errors|
      invariant s == Join("\n", Renders(errors[..i]))
    {
      assert Renders(errors[..i + 1]) == Renders(errors[..i]) + [Render(errors[i])];
      if i != 0 {
        JoinSnoc("\n", Renders(errors[..i]), Render(errors[i]));
        s := s + "\n";
      } else {
        assert Renders(errors[..1]) == [Render(errors[0])];
      }
      s := Insert(s, errors[i]);
      i := i + 1;
    }
    assert errors[..i] == errors;
  }

  /** The interpreter's command table. */
  type Commands = map<string, seq<Adapter>>

  /** add_function: creates (or replaces) the command `name` with one
      overload per function, in the order given. */
  function Register(commands: Commands, name: string, adapters: seq<Adapter>): (r: Commands)
    ensures name in r && r[name] == adapters
    ensures forall n :: n in commands && n != name ==> n in r && r[n] == commands[n]
    ensures r.Keys == commands.Keys + {name}
  {
    commands[name := adapters]
  }
}
