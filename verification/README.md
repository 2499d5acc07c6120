# xtcl marshaling and dispatch, modelled in Dafny

xtcl binds native C++ functions to Tcl commands. This project models its
core in Dafny and proves what that core promises:

- **Errors** (`errors.dfy`, module `Errors`). The error model of
  `include/xtcl_error.h`. An error is a deferred message: empty, a text, or
  an inner error tagged with the position it came from. `Render` is the text
  it writes on a stream.
- **Host objects** (`host.dfy`, module `Host`). The Tcl object is modelled as
  an immutable value: an integer, a string, a list or a dictionary. The
  interpreter's "read as wide integer / boolean / list / dictionary"
  inspections become partial functions on it.
- **Types and values** (`types.dfy`, module `Types`).
  - `NType` describes each native type that has a converter: the eleven
    integral types, `bool`, the three text types, vector, array, set,
    unordered set, map, unordered map and tuple.
  - `Name` gives each type's display name.
  - `Val` is a native value, and `Typed` relates a value to its type.
- **Converters** (`convert.dfy`, module `Convert`). The `from` converters of
  `include/xtcl_type.h` become one recursive `Decode`. It has:
  - the range check on integral types narrower than 64 bits;
  - fail-fast, index-tagged element errors for vectors, sets and tuples;
  - the exact-arity check of tuples, which arrays go through;
  - the single running index that map keys and values share.

  The `to` converters become `Encode`. The vector and set decoders are also
  written as the loops they are in the source (`DecodeVector`, `DecodeSet`)
  and proved equal to `Decode`.
- **Adapter and dispatcher** (`adapter.dfy`, module `Adapter`). These model
  `include/xtcl.h`:
  - `Invoke` is the command built by `FunctionHelper::make`. It decodes the
    arguments as a tuple of the parameter types and reports a failure after
    the signature. Otherwise it calls the native function and encodes what
    it returns.
  - `Dispatch` is `call_function`, which tries the overloads in order.
  - `Register` is `add_function`.
- **Properties** (`convert_props.dfy` and `adapter_props.dfy`). These prove:
  - decoded values are of the declared type;
  - decoding an encoding gives the value back, for every type;
  - the exact error messages;
  - fail-fast ordering;
  - the map's last-key-wins rule;
  - first-success dispatch, and the newline-joined report when every
    overload fails.

The model fixes these choices:

- **Platform.** An LP64 platform on which plain `char` is signed, so `long`
  is 64 bits.
- **Build switches.** The defaults of `include/xtcl_def.h`: overflow
  checking on, Tcl-supplied error texts off.

## Model

| member | source | states |
|---|---|---|
| Errors.Default | include/xtcl_error.h:24-41 | a default-constructed error writes nothing |
| Errors.Emit | include/xtcl_error.h:35-53 | running an error's producer only appends to the stream; what it already held stays in front |
| Errors.EmitAppends | include/xtcl_error.h:35-53 | writing an error appends exactly its rendering, whatever the stream already holds |
| Errors.Index | include/xtcl_error.h:43-53 | an indexed error renders as "[i] " followed by the inner error's rendering, so nested indices appear outermost first |
| Errors.Forward | include/xtcl_error.h:55-58 | forwarding leaves the rendering unchanged |
| Errors.Generic | include/xtcl_error.h:60-64 | a generic error renders exactly what its producer writes, nothing added |
| Errors.Text | include/xtcl_error.h:66-79 | a text error renders exactly its string |
| Errors.Insert | include/xtcl_error.h:83-87 | `os << error` appends the error's rendering to the stream |
| Host.AsWide | include/xtcl_type.h:213-222 | a wide-integer reading lies in the signed 64-bit range; an integer object reads as itself exactly when it is in that range |
| Host.AsBoolean | include/xtcl_type.h:505-514 | a boolean reading is 0 or 1, and an integer reads as 1 exactly when it is nonzero |
| Host.AsList | include/xtcl_type.h:290-300 | a list object reads as its own elements |
| Host.AsDict | include/xtcl_type.h:345-358 | a dictionary object reads as its own entries, in enumeration order; any other object reads as a dictionary exactly when it reads as a list with an even number of elements |
| Host.ListAsDict | include/xtcl_type.h:345-358 | a list read as a dictionary has one entry per key text, no two alike; each entry holds the key of that text's first occurrence and the value of its last, and entries keep the order of first occurrence; a list whose keys all differ reads as its pairs unchanged |
| Host.NewWide | include/xtcl_type.h:253-256 | a new wide-integer object reads back as the integer it was made from |
| Host.NewBoolean | include/xtcl_type.h:519-522 | a new boolean object reads back as 1 or 0, both as a boolean and as an integer |
| Host.NewString | include/xtcl.h:223 | a new string object's text is the string it was made from |
| Types.Name | include/xtcl_type.h:423-435 | every type name is enclosed in angle brackets |
| Types.CompositeNamesReadBack | include/xtcl_type.h:528-721 | the element names can be read back from a composite name: vectors, arrays or sets of one order with equal names have elements of equal names, and arrays of equal names have equal sizes; a map name determines its mapped type's name once the key name is known, and its key name once the mapped type's name is known |
| Types.TupleNameShape | include/xtcl_type.h:750-760 | a tuple name is "<tuple", then a space and the element's name for each element in order, then ">" |
| Convert.Narrow | include/xtcl_type.h:250 | the conversion N(value) lands in the kind's range, differs from the value by a multiple of 2 to the kind's width, and leaves in-range values unchanged |
| Convert.ToWide | include/xtcl_type.h:253-256 | the conversion Tcl_WideInt(value) lands in the signed 64-bit range, differs from the value by a multiple of 2^64, and leaves in-range values unchanged |
| Convert.DecodeInt | include/xtcl_type.h:211-251 | an integral decode succeeds exactly when the object reads as a wide integer and, for kinds narrower than 64 bits, that integer is in range; the value is of the kind and in its range, equals the integer read when that is in range, and otherwise differs from it by a multiple of 2 to the kind's width |
| Convert.DecodeBool | include/xtcl_type.h:503-517 | a bool decode succeeds exactly when the host reads a boolean, and is true exactly when that reading is nonzero |
| Convert.DecodeFixed | include/xtcl_type.h:159-173 | a fixed-size decode succeeds only when the element count equals the arity |
| Convert.DecodeElems | include/xtcl_type.h:106-125 | a successful positional decode yields one value per remaining element |
| Convert.DecodeVector | include/xtcl_type.h:541-572 | the vector decode loop computes exactly the recursive decode, errors included |
| Convert.DecodeSet | include/xtcl_type.h:288-318 | the set decode loop, inserting member by member, computes exactly the recursive decode, errors included |
| ConvertProps.DecodeTyped | include/xtcl_type.h:224-250 | every successful decode yields a value of the declared type: integers in range, fixed sizes kept, every element, member, key and mapped value of its type |
| ConvertProps.ElemsTyped | include/xtcl_type.h:106-125 | each value of a successful positional decode has the type declared for its position |
| ConvertProps.ListTyped | include/xtcl_type.h:555-571 | a vector, set, tuple or array decode yields a value of its type |
| ConvertProps.EntriesTyped | include/xtcl_type.h:360-380 | a map built from well-typed entries is well typed |
| ConvertProps.TypeErrorText | include/xtcl_type.h:181-205 | a type error renders as `expected <Name> but got "<text>"` |
| ConvertProps.TypeMismatch | include/xtcl_type.h:215-221 | an object the host cannot read in the required shape fails with the type error naming the type (for an array, the tuple it is read through) and the object's text |
| ConvertProps.IntRoundTrip | include/xtcl_type.h:250-256 | every in-range integer of every kind decodes back from its encoding |
| ConvertProps.UnsignedWideEncodesNegative | include/xtcl_type.h:253-256 | an unsigned long or unsigned long long value of 2^63 or more is handed to the host as the negative wide integer 2^64 below it |
| ConvertProps.UnsignedWideSkipsUnderflow | include/xtcl_type.h:224-250 | with no range check on 64-bit kinds, any negative wide integer w read as unsigned long or unsigned long long succeeds as w + 2^64 instead of failing |
| ConvertProps.IntOverflow | include/xtcl_type.h:227-236 | a number above a narrow kind's maximum fails with "overflow (highest <N> value is max but got v)" |
| ConvertProps.IntUnderflow | include/xtcl_type.h:237-246 | a number below a narrow kind's minimum fails with "underflow (lowest <N> value is lowest but got v)" |
| ConvertProps.UnsignedCharOverflowExample | include/xtcl_type.h:224-236 | the text "300" read as unsigned char fails with the overflow message naming 255 and 300 |
| ConvertProps.UnsignedCharUnderflowExample | include/xtcl_type.h:237-246 | the text "-1" read as unsigned char fails with the underflow message naming 0 and -1 |
| ConvertProps.BoolRoundTrip | include/xtcl_type.h:503-522 | a bool encodes as 1 or 0 and decodes back; any bool decode is true exactly when the host reading is nonzero |
| ConvertProps.ElemsSucceed | include/xtcl_type.h:106-125 | a positional decode succeeds exactly when every element decodes |
| ConvertProps.ElemsValues | include/xtcl_type.h:106-125 | a successful positional decode holds each element's value at that element's position |
| ConvertProps.ElemsFromValues | include/xtcl_type.h:106-125 | conversely, elements that each decode to the value at their position decode together to exactly those values |
| ConvertProps.ElemsPointwise | include/xtcl_type.h:106-125 | a positional decode succeeds exactly when every element decodes with its declared type, and keeps each value at its position |
| ConvertProps.ElemsFirstFailure | include/xtcl_type.h:109-121 | a positional decode stops at the first failing position f with that element's error tagged [f], whatever follows |
| ConvertProps.ElemsSameTypes | include/xtcl_type.h:617-627 | two sequential types that declare the same type at every position decode alike |
| ConvertProps.VectorDecodeOrder | include/xtcl_type.h:555-571 | a vector decode succeeds exactly when every element does, and yields one value per element in input order |
| ConvertProps.VectorDecodeFailFast | include/xtcl_type.h:558-569 | a vector decode fails at the first bad element f with its error tagged [f] |
| ConvertProps.SetDecodeFailFast | include/xtcl_type.h:304-315 | a set decode fails at the first bad element f with its error tagged [f] |
| ConvertProps.SetDecodeMembers | include/xtcl_type.h:302-317 | a set decode succeeds exactly when every element does, and holds exactly the decoded elements, duplicates collapsed |
| ConvertProps.TupleDecodeArity | include/xtcl_type.h:159-170 | a tuple decode of a list of the wrong length fails with "wrong # args (expected S but got n)" |
| ConvertProps.FixedArity | include/xtcl_type.h:161-170 | the arity check's message for any fixed-size type |
| ConvertProps.TupleDecodeFailFast | include/xtcl_type.h:109-124 | a tuple decode of the right length fails at the first bad position f with its error tagged [f] |
| ConvertProps.TupleDecodeOrder | include/xtcl_type.h:109-124 | a tuple decode of the right length succeeds exactly when every position does, and keeps each value at its position |
| ConvertProps.ArrayDecodeIsTupleDecode | include/xtcl_type.h:617-627 | an array decodes exactly as the tuple of n copies of its element type, error messages included |
| ConvertProps.NestedIndexExample | include/xtcl_type.h:109-116 | the list {a x} read as a (string, int) tuple fails with "[1] expected <int> but got \"x\"" |
| ConvertProps.MapFirstFailure | include/xtcl_type.h:360-373 | the first failing entry f decides a map decode's error: a key failure is tagged [2f], a value failure [2f+1] |
| ConvertProps.MapSuccessDecodesAll | include/xtcl_type.h:360-380 | a map decode succeeds exactly when every key and value decodes |
| ConvertProps.MapKeysFrom | include/xtcl_type.h:360-380 | every key of a decoded map was already accumulated or is the decoded key of some entry |
| ConvertProps.MapLastWins | include/xtcl_type.h:375 | each decoded key maps to the value of its last occurrence: a repeated key overwrites |
| ConvertProps.MapKeepsAbsent | include/xtcl_type.h:360-378 | a key no later entry decodes to keeps the value it already had |
| ConvertProps.RepeatedKeyExample | include/xtcl_type.h:345-380 | the list {a x a 1} read as map<string, int> succeeds with a -> 1: the repeated key's earlier value "x" is never decoded |
| ConvertProps.RepeatedKeyFailureExample | include/xtcl_type.h:345-373 | the list {a 1 a x} read as map<string, int> fails at [1], the value of the single entry left for "a" |
| ConvertProps.MapIndexExample | include/xtcl_type.h:349-373 | the dictionary {a 1 b x} read as map<string, int> fails at the value under "b", tagged [3] |
| ConvertProps.RoundTrip | include/xtcl_type.h:541-590 | every value of every type decodes back from its encoding |
| ConvertProps.SeqRoundTrip | include/xtcl_type.h:555-590 | a vector, array or tuple decodes back from its list encoding |
| ConvertProps.SetRoundTrip | include/xtcl_type.h:302-336 | a set decodes back from the list of its members' encodings, in any enumeration order |
| ConvertProps.ElemsRoundTrip | include/xtcl_type.h:106-150 | encoded elements decode back positionally to the elements |
| ConvertProps.MapRoundTrip | include/xtcl_type.h:342-405 | a map decodes back from the dictionary of its entries' encodings, in any enumeration order |
| ConvertProps.EntriesRoundTrip | include/xtcl_type.h:360-404 | decoding encoded entries collects every key's entry |
| ConvertProps.DecodeIdempotent | include/xtcl_type.h:541-590 | re-encoding a decoded value and decoding again gives the same value |
| Adapter.Signature | include/xtcl.h:143-145 | the error prefix is the command word, then a space and the parameter type names when there are parameters, then ": " |
| Adapter.Respond | include/xtcl.h:52-63 | a returned value becomes the result's encoding; a Result<T> holding an error fails with that error's text unchanged |
| Adapter.Invoke | include/xtcl.h:130-168 | an argument decode failure renders as the signature followed by the decode error; a void function with decoded arguments succeeds with no result |
| Adapter.Dispatch | include/xtcl.h:227-230 | a command with no overloads completes with TCL_OK and no result |
| Adapter.WriteReport | include/xtcl.h:213-221 | the stream loop writing a line break before every error but the first computes the errors joined by line breaks |
| Adapter.Register | include/xtcl.h:233-244 | registering binds the name to the overloads given, replacing any earlier command, and leaves every other command unchanged |
| AdapterProps.TupleArgs | include/xtcl.h:134-136 | the argument decode succeeds exactly when every argument decodes with its parameter's type, and yields the decoded arguments in order |
| AdapterProps.ArgsTyped | include/xtcl.h:149-157 | the values handed to the native function are of its parameter types |
| AdapterProps.ReturningGetsDecodedArgs | include/xtcl.h:155-167 | a value-returning function is called with the decoded arguments, and its value's encoding becomes the result |
| AdapterProps.ProcedureLeavesNoResult | include/xtcl.h:149-154 | a void function with decoded arguments succeeds and leaves the result empty |
| AdapterProps.ExpectingForwardsError | include/xtcl.h:53-63 | a function returning a Result<T> that holds an error fails with exactly that error's text |
| AdapterProps.NativeOnlyAfterDecode | include/xtcl.h:134-157 | when some argument fails to decode, the outcome fails and does not depend on the native function at all |
| AdapterProps.ArgumentError | include/xtcl.h:136-147 | an argument error renders as the command word, the parameter type names when there are any, ": ", and the decode error |
| AdapterProps.ArityMessageExample | include/xtcl.h:136-147 | calling f declared with one int parameter and no arguments fails with "f <int>: wrong # args (expected 1 but got 0)" |
| AdapterProps.OneParameterArity | include/xtcl.h:136-147 | any one-parameter command called with no arguments names its parameter type in the arity error |
| AdapterProps.AttemptFirstSuccess | include/xtcl.h:200-206 | from any point of the loop, the first overload that succeeds completes the command with its result |
| AdapterProps.FirstSuccessWins | include/xtcl.h:200-206 | the first overload to succeed completes the command with TCL_OK and its result; earlier errors are dropped |
| AdapterProps.LaterNeverTried | include/xtcl.h:200-211 | overloads after the first success are never tried: appending more changes nothing |
| AdapterProps.AttemptAllFail | include/xtcl.h:200-225 | when every remaining overload fails, the loop ends in TCL_ERROR with all the errors reported in order |
| AdapterProps.AllFailJoined | include/xtcl.h:213-225 | when every overload fails, the command fails with the errors' renderings in registration order joined by line breaks |
| AdapterProps.SingleFailure | include/xtcl.h:213-225 | a single failing overload reports exactly its own error text |
| AdapterProps.AttemptStatus | include/xtcl.h:194-230 | from any point of the loop, the command completes with TCL_OK exactly when some remaining overload succeeds |
| AdapterProps.DispatchStatus | include/xtcl.h:194-230 | a command completes with TCL_OK exactly when it has no overloads or some overload succeeds |
| AdapterProps.BothFailExample | include/xtcl.h:213-225 | with no arguments, f(int) and f(string) both fail on the arity, and the report holds both messages on two lines |
| AdapterProps.TwoOverloadsExample | include/xtcl.h:200-206 | with f(int) and f(string), the text "x" is not an int, so the second overload is called with it |
| AdapterProps.RegisterRuns | include/xtcl.h:233-244 | a registered command runs the overloads given, and every other command behaves as before |

## Left out

- Floating-point types (`FloatingType`, `include/xtcl_type.h:259-283`): floating-point narrowing is not modelled.
- `include/xtcl_shell.h` (interpreter creation, evaluation) and `command_complete`: host lifecycle and I/O wrappers with no logic of their own.
- Tcl reference counting and the `Obj` guard of `type_error`: host objects here are immutable values.
- Tcl's own parsing of numbers, booleans, lists and dictionaries is simplified (a repeated key in a list read as a dictionary is modelled: `Host.ListAsDict`):
  - text holding an integer outside the signed 64-bit range does not read as a wide integer, as in Tcl 8.7 and 9; Tcl 8.6 instead accepts magnitudes up to 2^64-1 and wraps them;
  - text splits into list words at white space;
  - text that uses list quoting characters does not read as a list;
  - the textual form of a list or dictionary ignores quoting of elements that contain spaces.
- Iteration order of sets and map keys (and of unordered containers) is an arbitrary but fixed enumeration (`Convert.Enumerate`). Set and map results are stated order-independently.
- Encoding is total and ghost. No built-in encoder fails in the source, so the error branches of the `to` converters (`include/xtcl_type.h:136-140`, `327-331`, `390-400`, `581-585`) are unreachable and not modelled.
  - Because the encoding of a set or a map picks an enumeration, `Encode` is a ghost function. So are `Adapter.Invoke` and `Adapter.Dispatch`, which encode results.
- Tcl-supplied error texts (the `XTCL_ERROR_TCL` build switch): the model fixes the default, under which every read failure gives the type error.
- Argument and result forwarding for `T *`, `char const *` and reference parameters (`Arg<...>`, `Res<T *>`): C++ value-category details. The function receives the decoded values.
- Side effects of native functions: a native function is a pure function of its arguments here.
- Objects are strings of characters; embedded NUL characters and encodings are not modelled.
- Adapter.Dispatch: its contract states only the no-overload case. Every other case is stated by the lemmas of `AdapterProps` (`FirstSuccessWins`, `AllFailJoined`, `DispatchStatus`).
- ConvertProps.TypeMismatch: states that an unreadable object gives the type error, but not the converse, that a type error comes only from an unreadable object.
- Types.CompositeNamesReadBack: for maps, reads back the key's name only given the mapped type's name, and the mapped type's name only given the key's; reading both back at once depends on the bracket structure of every name and is not proved. Tuple names are stated by `Types.TupleNameShape` instead.
- ConvertProps.MapIndexExample: states the error value; its rendering "[3] expected <int> but got \"x\"" follows from `Errors.Index` and `ConvertProps.TypeErrorText` and is not restated.

## Notes on the code

- **Encoder errors.** Only the tuple encoder tags an element's encode failure with its index (`include/xtcl_type.h:139`). The vector, set and map encoders forward it unchanged (`include/xtcl_type.h:330`, `393`, `399`, `584`). No built-in encoder fails, so the difference cannot be observed.
- **64-bit unsigned kinds.** Encoding always succeeds, but the host's wide integers do not cover `unsigned long` and `unsigned long long`:
  - values of 2^63 or more are handed to the host as negative wide integers (`ConvertProps.UnsignedWideEncodesNegative`);
  - negative host integers read as these types wrap around by 2^64 instead of underflowing (`ConvertProps.UnsignedWideSkipsUnderflow`).

  Decoding and encoding still invert each other (`ConvertProps.IntRoundTrip`).
- **Array type errors.** An array is read through the tuple path, so its type error names the tuple (`<tuple T T ...>`), not `<array T x S>` (`ConvertProps.TypeMismatch`).
- **Commands with no overloads.** A command registered with no functions completes with TCL_OK for any arguments (`include/xtcl.h:227-230`).
