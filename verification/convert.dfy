/** The converters: decoding a host object into a native value of a given
    type (Type<T>::from) and encoding a native value into a host object
    (Type<T>::to), with the error messages of every failure path. */
module Convert {
  import opened Optional
  import opened Strings
  import opened Errors
  import opened Host
  import opened Types

  /** type_error<N>(obj): the object cannot be read as the declared type. */
  function TypeError(name: string, o: Obj): Error
  {
    Generic("expected " + name + " but got \"" + TextOf(o) + "\"")
  }

  /** The conversion N(value) of a wide integer to the target kind: modulo
      2 to the kind's width, into the kind's range. */
  function Narrow(k: IntKind, w: int): (r: int)
    ensures InRange(k, r)
    ensures InRange(k, w) ==> r == w
    ensures (r - w) % Span(Bits(k)) == 0
  {
    (w - Lowest(k)) % Span(Bits(k)) + Lowest(k)
  }

  /** The conversion Tcl_WideInt(value): modulo 2^64 into the wide range. */
  function ToWide(n: int): (r: int)
    ensures InWideRange(r)
    ensures InWideRange(n) ==> r == n
    ensures (r - n) % 0x1_0000_0000_0000_0000 == 0
  {
    (n - WideMin) % 0x1_0000_0000_0000_0000 + WideMin
  }

  /** IntegralType<N>::from. The range check is made only for kinds
      narrower than the 64-bit wide integer; a 64-bit kind takes the wide
      value through the conversion N(value). */
  function DecodeInt(k: IntKind, o: Obj): (r: Result<Val>)
    ensures r.Success? ==> r.value.NInt? && r.value.kind == k && InRange(k, r.value.n)
    ensures r.Success? <==>
              AsWide(o).Some? && (Bits(k) < 64 ==> InRange(k, AsWide(o).value))
    ensures r.Success? && InRange(k, AsWide(o).value) ==> r.value.n == AsWide(o).value
    ensures r.Success? ==> (r.value.n - AsWide(o).value) % Span(Bits(k)) == 0
  {
    match AsWide(o)
    case None => Failure(TypeError(KindName(k), o))
    case Some(w) =>
      if Bits(k) < 64 && w > Highest(k) then
        Failure(Generic("overflow (highest " + KindName(k) + " value is "
                        + IntToString(Highest(k)) + " but got " + IntToString(w) + ")"))
      else if Bits(k) < 64 && w < Lowest(k) then
        Failure(Generic("underflow (lowest " + KindName(k) + " value is "
                        + IntToString(Lowest(k)) + " but got " + IntToString(w) + ")"))
      else
        Success(NInt(k, Narrow(k, w)))
  }

  /** Type<bool>::from: true exactly when the host's boolean reading is
      nonzero. */
  function DecodeBool(o: Obj): (r: Result<Val>)
    ensures r.Success? <==> AsBoolean(o).Some?
    ensures r.Success? ==> r.value == NBool(AsBoolean(o).value != 0)
  {
    var b := AsBoolean(o);
    if b.None? then Failure(TypeError("<bool>", o)) else Success(NBool(b.value != 0))
  }

  /** The arity of a fixed-size sequential type (a tuple or an array). */
  function Arity(t: NType): nat
    requires t.TupleT? || t.ArrT?
  {
    if t.TupleT? then |t.elems| else t.size
  }

  /** The set of values in a sequence. */
  function Members(vs: seq<Val>): (r: set<Val>)
    ensures forall x :: x in r <==> x in vs
  {
    set x | x in vs
  }

  /** Type<T>::from for every native type. */
  function Decode(t: NType, o: Obj): (r: Result<Val>)
    decreases t, 2, 0
  {
    match t
    case IntT(k) => DecodeInt(k, o)
    case BoolT => DecodeBool(o)
    case TextT(_) => Success(NText(TextOf(o)))
    case MapT(_, _, _) => DecodeMap(t, o)
    case _ => DecodeList(t, o)
  }

  /** Map::from: the host object read as a dictionary, entry by entry. */
  function DecodeMap(t: NType, o: Obj): (r: Result<Val>)
    requires t.MapT?
    decreases t, 1, 0
  {
    match AsDict(o)
    case None => Failure(TypeError(Name(t), o))
    case Some(ps) => DecodeEntries(t, ps, 0, map[])
  }

  /** Vectors, sets, tuples and arrays: the host object read as a list,
      then element by element. An array is read through the tuple of n
      copies of its element type, whose name its type error uses. */
  function DecodeList(t: NType, o: Obj): (r: Result<Val>)
    requires IsSequential(t)
    decreases t, 1, 0
  {
    match AsList(o)
    case None =>
      if t.ArrT? then Failure(Forward(TypeError(Name(TupleT(Repeat(t.elem, t.size))), o)))
      else Failure(TypeError(Name(t), o))
    case Some(objs) =>
      var r := if t.VecT? || t.SetT? then DecodeElems(t, objs, 0) else DecodeFixed(t, objs);
      match r
      case Failure(e) => Failure(if t.ArrT? then Forward(e) else e)
      case Success(vs) => Success(if t.SetT? then NSet(Members(vs)) else NSeq(vs))
  }

  /** Tuple::from: the element count must equal the arity exactly; then
      the elements are decoded in order. */
  function DecodeFixed(t: NType, objs: seq<Obj>): (r: Result<seq<Val>>)
    requires t.TupleT? || t.ArrT?
    ensures r.Success? ==> |objs| == Arity(t)
    decreases t, 0, |objs| + 1
  {
    if |objs| != Arity(t) then
      Failure(Generic("wrong # args (expected " + NatToString(Arity(t))
                      + " but got " + NatToString(|objs|) + ")"))
    else
      DecodeElems(t, objs, 0)
  }

  /** Decodes `objs[j..]` position by position with the declared element
      types, stopping at the first failure, which is tagged with its
      position; a failure further on is forwarded unchanged. */
  function DecodeElems(t: NType, objs: seq<Obj>, j: nat): (r: Result<seq<Val>>)
    requires IsSequential(t) && j <= |objs|
    requires t.TupleT? ==> |objs| == |t.elems|
    ensures r.Success? ==> |r.value| == |objs| - j
    decreases t, 0, |objs| - j
  {
    if j == |objs| then Success([])
    else
      match DecodeAt(t, objs, j)
      case Failure(e) => Failure(Index(e, j))
      case Success(v) =>
        match DecodeElems(t, objs, j + 1)
        case Failure(e) => Failure(Forward(e))
        case Success(vs) => Success([v] + vs)
  }

  /** Decodes position `j` of a list with the type declared for it. */
  function DecodeAt(t: NType, objs: seq<Obj>, j: nat): (r: Result<Val>)
    requires IsSequential(t) && j < |objs|
    requires t.TupleT? ==> |objs| == |t.elems|
    decreases t, 0, 0
  {
    Decode(if t.TupleT? then t.elems[j] else t.elem, objs[j])
  }

  /** Map::from from entry `j` on, with `acc` the map built so far: the key
      of entry j is tagged [2j] when it fails, its value [2j+1]; a decoded
      key already present is overwritten. */
  function DecodeEntries(t: NType, ps: seq<(Obj, Obj)>, j: nat, acc: map<Val, Val>): (r: Result<Val>)
    requires t.MapT? && j <= |ps|
    decreases t, 0, |ps| - j
  {
    if j == |ps| then Success(NMap(acc))
    else
      match Decode(t.key, ps[j].0)
      case Failure(e) => Failure(Index(e, 2 * j))
      case Success(k) =>
        match Decode(t.mapped, ps[j].1)
        case Failure(e) => Failure(Index(e, 2 * j + 1))
        case Success(v) => DecodeEntries(t, ps, j + 1, acc[k := v])
  }

  /** The result of `r` with `vs` in front of its values. */
  function Prepend(vs: seq<Val>, r: Result<seq<Val>>): Result<seq<Val>>
  {
    match r
    case Failure(e) => Failure(e)
    case Success(ws) => Success(vs + ws)
  }

  lemma PrependNothing(r: Result<seq<Val>>)
    ensures Prepend([], r) == r
  {
    if r.Success? {
      assert [] + r.value == r.value;
    }
  }

  /** One successful element moves from the remaining decode to the
      values already collected. */
  lemma PrependStep(t: NType, objs: seq<Obj>, i: nat, vs: seq<Val>, v: Val)
    requires IsSequential(t) && i < |objs|
    requires t.TupleT? ==> |objs| == |t.elems|
    requires DecodeAt(t, objs, i) == Success(v)
    ensures Prepend(vs, DecodeElems(t, objs, i)) == Prepend(vs + [v], DecodeElems(t, objs, i + 1))
  {
    var rest := DecodeElems(t, objs, i + 1);
    if rest.Success? {
      assert vs + ([v] + rest.value) == (vs + [v]) + rest.value;
    }
  }

  /** A vector or set decode reads a list and decodes its elements from
      position 0. */
  lemma UnfoldListDecode(t: NType, o: Obj)
    requires t.VecT? || t.SetT?
    ensures AsList(o).None? ==> Decode(t, o) == Failure(TypeError(Name(t), o))
    ensures AsList(o).Some? ==>
              Decode(t, o) == match DecodeElems(t, AsList(o).value, 0)
                              case Failure(e) => Failure(e)
                              case Success(vs) => Success(if t.SetT? then NSet(Members(vs)) else NSeq(vs))
  {
  }

  /** A tuple decode of a list of the tuple's length decodes its elements
      from position 0. */
  lemma UnfoldTupleDecode(ts: seq<NType>, o: Obj)
    requires AsList(o).Some? && |AsList(o).value| == |ts|
    ensures Decode(TupleT(ts), o) == match DecodeElems(TupleT(ts), AsList(o).value, 0)
                                     case Failure(e) => Failure(e)
                                     case Success(vs) => Success(NSeq(vs))
  {
    assert DecodeFixed(TupleT(ts), AsList(o).value) == DecodeElems(TupleT(ts), AsList(o).value, 0);
  }

  /** A map decode of a dictionary decodes its entries from position 0,
      starting from an empty map. */
  lemma UnfoldDictDecode(t: NType, ps: seq<(Obj, Obj)>)
    requires t.MapT?
    ensures Decode(t, DictObj(ps)) == DecodeEntries(t, ps, 0, map[])
  {
  }

  lemma MembersSnoc(vs: seq<Val>, v: Val)
    ensures Members(vs + [v]) == Members(vs) + {v}
  {
  }

  /** The first failing element ends the decode with its error tagged. */
  lemma PrependStop(t: NType, objs: seq<Obj>, i: nat, vs: seq<Val>)
    requires IsSequential(t) && i < |objs|
    requires t.TupleT? ==> |objs| == |t.elems|
    requires DecodeAt(t, objs, i).Failure?
    requires DecodeElems(t, objs, 0) == Prepend(vs, DecodeElems(t, objs, i))
    ensures DecodeElems(t, objs, 0) == Failure(Index(DecodeAt(t, objs, i).error, i))
  {
  }

  /** Once every element is decoded, the values collected are the decode. */
  lemma PrependDone(t: NType, objs: seq<Obj>, vs: seq<Val>)
    requires IsSequential(t)
    requires t.TupleT? ==> |objs| == |t.elems|
    requires DecodeElems(t, objs, 0) == Prepend(vs, DecodeElems(t, objs, |objs|))
    ensures DecodeElems(t, objs, 0) == Success(vs)
  {
    assert vs + [] == vs;
  }

  /** Type<std::vector<T>>::from as the loop it is written as. */
  method DecodeVector(e: NType, o: Obj) returns (r: Result<Val>)
    ensures r == Decode(VecT(e), o)
  {
    var t := VecT(e);
    UnfoldListDecode(t, o);
    var parsed := AsList(o);
    if parsed.None? {
      return Failure(TypeError(Name(t), o));
    }
    var objs := parsed.value;
    var vec: seq<Val> := [];
    var i := 0;
    PrependNothing(DecodeElems(t, objs, 0));
    while i < |objs|
      invariant 0 <= i <= |objs|
      invariant DecodeElems(t, objs, 0) == Prepend(vec, DecodeElems(t, objs, i))
    {
      var x := Decode(e, objs[i]);
      assert x == DecodeAt(t, objs, i);
      if x.Failure? {
        PrependStop(t, objs, i, vec);
        return Failure(Index(x.error, i));
      }
      PrependStep(t, objs, i, vec, x.value);
      vec := vec + [x.value];
      i := i + 1;
    }
    PrependDone(t, objs, vec);
    return Success(NSeq(vec));
  }

  /** Set<S, T>::from as the loop it is written as: members are inserted one
      by one, so duplicates collapse. */
  method DecodeSet(order: Order, e: NType, o: Obj) returns (r: Result<Val>)
    ensures r == Decode(SetT(order, e), o)
  {
    var t := SetT(order, e);
    UnfoldListDecode(t, o);
    var parsed := AsList(o);
    if parsed.None? {
      return Failure(TypeError(Name(t), o));
    }
    var objs := parsed.value;
    ghost var seen: seq<Val> := [];
    var members: set<Val> := {};
    var i := 0;
    PrependNothing(DecodeElems(t, objs, 0));
    while i < |objs|
      invariant 0 <= i <= |objs|
      invariant members == Members(seen)
      invariant DecodeElems(t, objs, 0) == Prepend(seen, DecodeElems(t, objs, i))
    {
      var x := Decode(e, objs[i]);
      assert x == DecodeAt(t, objs, i);
      if x.Failure? {
        PrependStop(t, objs, i, seen);
        return Failure(Index(x.error, i));
      }
      PrependStep(t, objs, i, seen, x.value);
      MembersSnoc(seen, x.value);
      seen := seen + [x.value];
      members := members + {x.value};
      i := i + 1;
    }
    PrependDone(t, objs, seen);
    return Success(NSet(members));
  }

  /** An arbitrary but fixed enumeration of a set: the iteration order of
      a native set or of a native map's keys. */
  ghost function Enumerate<T(!new)>(s: set<T>): (r: seq<T>)
    ensures forall x :: x in r <==> x in s
    ensures |r| == |s|
  {
    if s == {} then []
    else
      var x :| x in s;
      [x] + Enumerate(s - {x})
  }

  /** Type<T>::to for every native value. No built-in encoder fails, so
      encoding is total. Integers pass through Tcl_WideInt(value); a bool
      becomes 1 or 0; sequences, sets (in enumeration order) and maps (in
      key enumeration order) become lists and dictionaries. */
  ghost function Encode(v: Val): (r: Obj)
    decreases v, 2
  {
    match v
    case NInt(_, n) => NewWide(ToWide(n))
    case NBool(b) => NewBoolean(b)
    case NText(s) => NewString(s)
    case NSeq(es) => ListObj(EncodeAll(es))
    case NSet(_) => ListObj(EncodeMembers(v))
    case NMap(_) => DictObj(EncodeEntries(v))
  }

  /** The encodings of a sequence of values, position by position. */
  ghost function EncodeAll(vs: seq<Val>): (r: seq<Obj>)
    ensures |r| == |vs|
    decreases vs, 0
  {
    seq(|vs|, i requires 0 <= i < |vs| => Encode(vs[i]))
  }

  /** The encodings of a set's members, in enumeration order. */
  ghost function EncodeMembers(v: Val): (r: seq<Obj>)
    requires v.NSet?
    ensures |r| == |v.members|
    decreases v, 1
  {
    var xs := Enumerate(v.members);
    seq(|xs|, i requires 0 <= i < |xs| => assert xs[i] in v.members; Encode(xs[i]))
  }

  /** The encodings of a map's entries, in key enumeration order. */
  ghost function EncodeEntries(v: Val): (r: seq<(Obj, Obj)>)
    requires v.NMap?
    ensures |r| == |v.entries|
    decreases v, 1
  {
    var ks := Enumerate(v.entries.Keys);
    seq(|ks|, i requires 0 <= i < |ks| =>
        assert ks[i] in v.entries; (Encode(ks[i]), Encode(v.entries[ks[i]])))
  }
}
