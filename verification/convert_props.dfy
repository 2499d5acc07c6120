/** Properties of the converters: decoded values are of the declared type,
    round trips, fail-fast position tagging, the shared key/value index of
    maps, arrays read as tuples, and the exact messages of the failure
    cases the converters report. */
module ConvertProps {
  import opened Optional
  import opened Strings
  import opened Errors
  import opened Host
  import opened Types
  import opened Convert

  // ---------------------------------------------------------------------
  // Decoded values are of the declared type

  /** A successful decode yields a value of the declared type: integers in
      their kind's range, arrays and tuples of the declared length, and
      every element, member, key and mapped value of its declared type. */
  lemma {:induction false} DecodeTyped(t: NType, o: Obj)
    ensures Decode(t, o).Success? ==> Typed(Decode(t, o).value, t)
    decreases t, 3, 0
  {
    match t
    case IntT(k) =>
    case BoolT =>
    case TextT(_) =>
    case MapT(_, _, _) =>
      if AsDict(o).Some? {
        EntriesTyped(t, AsDict(o).value, 0, map[]);
      }
    case _ => ListTyped(t, o);
  }

  /** The decoded elements are each of the type declared for their
      position. */
  lemma ElemsTyped(t: NType, objs: seq<Obj>)
    requires IsSequential(t)
    requires t.TupleT? ==> |objs| == |t.elems|
    ensures DecodeElems(t, objs, 0).Success? ==>
              forall i :: 0 <= i < |objs| ==> Typed(DecodeElems(t, objs, 0).value[i], ElemType(t, i))
    decreases t, 1, 0
  {
    var r := DecodeElems(t, objs, 0);
    if r.Success? {
      ElemsValues(t, objs, 0);
      forall i | 0 <= i < |objs|
        ensures Typed(r.value[i], ElemType(t, i))
      {
        var e := if t.TupleT? then t.elems[i] else t.elem;
        DecodeTyped(e, objs[i]);
        assert DecodeAt(t, objs, 0 + i) == Success(r.value[i]);
        assert Decode(e, objs[i]) == Success(r.value[i]);
        assert ElemType(t, i) == e;
      }
    }
  }

  /** One step of the element decode: the decode from `j` succeeds exactly
      when position `j` and the decode from `j + 1` do, and is then the
      first value followed by the rest. */
  lemma ElemsSplit(t: NType, objs: seq<Obj>, j: nat)
    requires IsSequential(t) && j < |objs|
    requires t.TupleT? ==> |objs| == |t.elems|
    ensures DecodeElems(t, objs, j).Success?
        <==> DecodeAt(t, objs, j).Success? && DecodeElems(t, objs, j + 1).Success?
    ensures DecodeElems(t, objs, j).Success? ==>
              DecodeElems(t, objs, j).value == [DecodeAt(t, objs, j).value] + DecodeElems(t, objs, j + 1).value
  {
  }

  /** A vector, set, tuple or array decodes to a value of its type. */
  lemma ListTyped(t: NType, o: Obj)
    requires IsSequential(t)
    ensures Decode(t, o).Success? ==> Typed(Decode(t, o).value, t)
    decreases t, 2, 0
  {
    assert Decode(t, o) == DecodeList(t, o);
    if AsList(o).Some? {
      var objs := AsList(o).value;
      if !t.TupleT? || |objs| == |t.elems| {
        ElemsTyped(t, objs);
        var r := DecodeElems(t, objs, 0);
        if t.TupleT? || t.ArrT? {
          assert DecodeFixed(t, objs).Success? ==> DecodeFixed(t, objs) == r;
        }
        if r.Success? {
          if t.SetT? {
            forall x | x in Members(r.value) ensures Typed(x, t.elem) {
              var i :| 0 <= i < |r.value| && r.value[i] == x;
              assert Typed(r.value[i], ElemType(t, i));
            }
          }
        }
      }
    }
  }

  /** The entries decoded from position `j` on, added to well-typed
      entries, make a well-typed map. */
  lemma {:induction false} EntriesTyped(t: NType, ps: seq<(Obj, Obj)>, j: nat, acc: map<Val, Val>)
    requires t.MapT? && j <= |ps|
    requires forall x :: x in acc ==> Typed(x, t.key) && Typed(acc[x], t.mapped)
    ensures DecodeEntries(t, ps, j, acc).Success? ==> Typed(DecodeEntries(t, ps, j, acc).value, t)
    decreases t, 1, |ps| - j
  {
    if j < |ps| {
      var k := Decode(t.key, ps[j].0);
      var v := Decode(t.mapped, ps[j].1);
      if k.Success? && v.Success? {
        DecodeTyped(t.key, ps[j].0);
        DecodeTyped(t.mapped, ps[j].1);
        EntriesTyped(t, ps, j + 1, acc[k.value := v.value]);
      }
    }
  }

  // ---------------------------------------------------------------------
  // Type mismatches

  /** The host can read `o` in the shape converter `t` asks for. */
  predicate Readable(t: NType, o: Obj)
  {
    match t
    case IntT(_) => AsWide(o).Some?
    case BoolT => AsBoolean(o).Some?
    case TextT(_) => true
    case VecT(_) | ArrT(_, _) | SetT(_, _) | TupleT(_) => AsList(o).Some?
    case MapT(_, _, _) => AsDict(o).Some?
  }

  /** The name a type-mismatch error reports: an array is read through a
      tuple of its element type, so its error names that tuple. */
  function ReportedName(t: NType): string
  {
    if t.ArrT? then Name(TupleT(Repeat(t.elem, t.size))) else Name(t)
  }

  /** The text of a type-mismatch error. */
  lemma TypeErrorText(name: string, o: Obj)
    ensures Render(TypeError(name, o)) == "expected " + name + " but got \"" + TextOf(o) + "\""
  {
  }

  /** An object the host cannot read in the required shape fails with
      `expected <Name> but got "<text>"`. */
  lemma TypeMismatch(t: NType, o: Obj)
    ensures !Readable(t, o) ==> Decode(t, o) == Failure(TypeError(ReportedName(t), o))
    ensures !Readable(t, o) ==>
              Render(Decode(t, o).error)
                == "expected " + ReportedName(t) + " but got \"" + TextOf(o) + "\""
  {
    TypeErrorText(ReportedName(t), o);
    if !t.IntT? && !t.BoolT? && !t.TextT? && !t.MapT? {
      assert Decode(t, o) == DecodeList(t, o);
    } else if t.MapT? {
      assert Decode(t, o) == DecodeMap(t, o);
    }
  }

  // ---------------------------------------------------------------------
  // Integers and booleans

  /** Every in-range integer of every kind survives encode then decode,
      including unsigned 64-bit values above the wide maximum, which travel
      as negative wide integers. */
  lemma IntRoundTrip(k: IntKind, n: int)
    requires InRange(k, n)
    ensures Decode(IntT(k), Encode(NInt(k, n))) == Success(NInt(k, n))
  {
    var w := ToWide(n);
    assert Encode(NInt(k, n)) == IntObj(w);
    if Bits(k) < 64 {
      assert w == n;
    } else if k.UnsignedLong? || k.UnsignedLongLong? {
      if n > WideMax {
        assert w == n - 0x1_0000_0000_0000_0000;
      }
      assert Narrow(k, w) == n;
    }
  }

  /** An unsigned 64-bit value of 2^63 or more is handed to the host as a
      negative wide integer. */
  lemma UnsignedWideEncodesNegative(k: IntKind, n: int)
    requires k == UnsignedLong || k == UnsignedLongLong
    requires WideMax < n <= Highest(k)
    ensures Encode(NInt(k, n)) == IntObj(n - 0x1_0000_0000_0000_0000)
  {
  }

  /** The range check is skipped for 64-bit kinds, so a negative host
      integer read as unsigned long or unsigned long long wraps around to
      2^64 above it instead of failing. */
  lemma UnsignedWideSkipsUnderflow(k: IntKind, w: int)
    requires k == UnsignedLong || k == UnsignedLongLong
    requires WideMin <= w < 0
    ensures Decode(IntT(k), IntObj(w)) == Success(NInt(k, w + 0x1_0000_0000_0000_0000))
  {
    assert Lowest(k) == 0 && Bits(k) == 64;
    assert AsWide(IntObj(w)) == Some(w);
    assert Narrow(k, w) == w + 0x1_0000_0000_0000_0000;
  }

  /** A number above a narrow kind's maximum is reported with the maximum
      and the number read. */
  lemma IntOverflow(k: IntKind, o: Obj)
    requires Bits(k) < 64 && AsWide(o).Some? && AsWide(o).value > Highest(k)
    ensures Decode(IntT(k), o).Failure?
    ensures Render(Decode(IntT(k), o).error)
         == "overflow (highest " + KindName(k) + " value is " + IntToString(Highest(k))
            + " but got " + IntToString(AsWide(o).value) + ")"
  {
  }

  /** A number below a narrow kind's minimum is reported with the minimum
      and the number read. */
  lemma IntUnderflow(k: IntKind, o: Obj)
    requires Bits(k) < 64 && AsWide(o).Some? && AsWide(o).value < Lowest(k)
    ensures Decode(IntT(k), o).Failure?
    ensures Render(Decode(IntT(k), o).error)
         == "underflow (lowest " + KindName(k) + " value is " + IntToString(Lowest(k))
            + " but got " + IntToString(AsWide(o).value) + ")"
  {
    assert Lowest(k) <= Highest(k);
    assert Decode(IntT(k), o) == DecodeInt(k, o);
  }

  /** Decoding the host text "300" as unsigned char overflows. */
  lemma UnsignedCharOverflowExample()
    ensures Decode(IntT(UnsignedChar), StrObj("300")).Failure?
    ensures Render(Decode(IntT(UnsignedChar), StrObj("300")).error)
         == "overflow (highest " + "<unsigned char>" + " value is " + "255" + " but got " + "300" + ")"
  {
    ParseIntToString(300);
    assert IntToString(300) == "300";
    assert IntToString(255) == "255";
    IntOverflow(UnsignedChar, StrObj("300"));
  }

  /** Decoding the host text "-1" as unsigned char underflows. */
  lemma UnsignedCharUnderflowExample()
    ensures Decode(IntT(UnsignedChar), StrObj("-1")).Failure?
    ensures Render(Decode(IntT(UnsignedChar), StrObj("-1")).error)
         == "underflow (lowest " + "<unsigned char>" + " value is " + "0" + " but got " + "-1" + ")"
  {
    ParseIntToString(-1);
    assert IntToString(-1) == "-1";
    assert IntToString(0) == "0";
    IntUnderflow(UnsignedChar, StrObj("-1"));
  }

  /** A bool decodes to true exactly when the host reads it as nonzero,
      and encodes back as 1 or 0. */
  lemma BoolRoundTrip(b: bool, o: Obj)
    ensures Encode(NBool(b)) == IntObj(if b then 1 else 0)
    ensures Decode(BoolT, Encode(NBool(b))) == Success(NBool(b))
    ensures Decode(BoolT, o).Success? ==>
              (Decode(BoolT, o).value.b <==> AsBoolean(o).value != 0)
  {
  }

  // ---------------------------------------------------------------------
  // Position-by-position decoding

  /** Every element from position `j` on decodes with its declared type. */
  predicate AllDecode(t: NType, objs: seq<Obj>, j: nat)
    requires IsSequential(t)
    requires t.TupleT? ==> |objs| == |t.elems|
  {
    forall i :: j <= i < |objs| ==> DecodeAt(t, objs, i).Success?
  }

  /** Decoding `objs[j..]` succeeds exactly when every element does. */
  lemma {:induction false} ElemsSucceed(t: NType, objs: seq<Obj>, j: nat)
    requires IsSequential(t) && j <= |objs|
    requires t.TupleT? ==> |objs| == |t.elems|
    ensures DecodeElems(t, objs, j).Success? <==> AllDecode(t, objs, j)
    decreases |objs| - j
  {
    if j < |objs| {
      ElemsSucceed(t, objs, j + 1);
    }
  }

  /** A successful decode of `objs[j..]` holds each element's value at
      its position. */
  lemma {:induction false} ElemsValues(t: NType, objs: seq<Obj>, j: nat)
    requires IsSequential(t) && j <= |objs|
    requires t.TupleT? ==> |objs| == |t.elems|
    requires DecodeElems(t, objs, j).Success?
    ensures forall i :: 0 <= i < |objs| - j ==>
              DecodeAt(t, objs, j + i) == Success(DecodeElems(t, objs, j).value[i])
    decreases |objs| - j
  {
    if j < |objs| {
      ElemsSplit(t, objs, j);
      ElemsValues(t, objs, j + 1);
      var vs := DecodeElems(t, objs, j).value;
      var rest := DecodeElems(t, objs, j + 1).value;
      forall i | 0 <= i < |objs| - j
        ensures DecodeAt(t, objs, j + i) == Success(vs[i])
      {
        if i == 0 {
          assert vs[0] == DecodeAt(t, objs, j).value;
        } else {
          var i' := i - 1;
          assert vs[i] == rest[i'];
          assert DecodeAt(t, objs, (j + 1) + i') == Success(rest[i']);
          assert (j + 1) + i' == j + i;
        }
      }
    }
  }

  /** Conversely, when every position from `j` on decodes to the value at
      that position of `vs`, the decode from `j` is `vs[j..]`. */
  lemma {:induction false} ElemsFromValues(t: NType, objs: seq<Obj>, vs: seq<Val>, j: nat)
    requires IsSequential(t) && j <= |objs| == |vs|
    requires t.TupleT? ==> |objs| == |t.elems|
    requires forall i :: j <= i < |objs| ==> DecodeAt(t, objs, i) == Success(vs[i])
    ensures DecodeElems(t, objs, j) == Success(vs[j..])
    decreases |objs| - j
  {
    if j == |objs| {
      assert vs[j..] == [];
    } else {
      ElemsFromValues(t, objs, vs, j + 1);
      ElemsCons(t, objs, j, vs[j], vs[j + 1..]);
      assert vs[j..] == [vs[j]] + vs[j + 1..];
    }
  }

  /** The element decode, position by position: it succeeds exactly when
      every position decodes with its declared type, and then holds each
      position's value. */
  lemma ElemsPointwise(t: NType, objs: seq<Obj>)
    requires IsSequential(t)
    requires t.TupleT? ==> |objs| == |t.elems|
    ensures DecodeElems(t, objs, 0).Success?
        <==> forall i :: 0 <= i < |objs| ==> Decode(ElemType(t, i), objs[i]).Success?
    ensures DecodeElems(t, objs, 0).Success? ==>
              forall i :: 0 <= i < |objs| ==> Decode(ElemType(t, i), objs[i]) == Success(DecodeElems(t, objs, 0).value[i])
  {
    ElemsSucceed(t, objs, 0);
    forall i | 0 <= i < |objs|
      ensures DecodeAt(t, objs, i) == Decode(ElemType(t, i), objs[i])
    {
    }
    var r := DecodeElems(t, objs, 0);
    if r.Success? {
      ElemsValues(t, objs, 0);
      forall i | 0 <= i < |objs|
        ensures Decode(ElemType(t, i), objs[i]) == Success(r.value[i])
      {
        assert DecodeAt(t, objs, 0 + i) == Success(r.value[i]);
      }
    }
  }

  /** Decoding stops at the first failing position f: the result is that
      element's error tagged [f], whatever follows it. */
  lemma {:induction false} ElemsFirstFailure(t: NType, objs: seq<Obj>, j: nat, f: nat)
    requires IsSequential(t) && j <= f < |objs|
    requires t.TupleT? ==> |objs| == |t.elems|
    requires forall i :: j <= i < f ==> DecodeAt(t, objs, i).Success?
    requires DecodeAt(t, objs, f).Failure?
    ensures DecodeElems(t, objs, j) == Failure(Index(DecodeAt(t, objs, f).error, f))
    decreases f - j
  {
    if j < f {
      ElemsFirstFailure(t, objs, j + 1, f);
    }
  }

  /** Two sequential types that agree on every position decode alike. */
  lemma {:induction false} ElemsSameTypes(t: NType, u: NType, objs: seq<Obj>, j: nat)
    requires IsSequential(t) && IsSequential(u) && j <= |objs|
    requires t.TupleT? ==> |objs| == |t.elems|
    requires u.TupleT? ==> |objs| == |u.elems|
    requires forall i :: j <= i < |objs| ==> ElemType(t, i) == ElemType(u, i)
    ensures DecodeElems(t, objs, j) == DecodeElems(u, objs, j)
    decreases |objs| - j
  {
    if j < |objs| {
      assert ElemType(t, j) == ElemType(u, j);
      assert DecodeAt(t, objs, j) == DecodeAt(u, objs, j);
      ElemsSameTypes(t, u, objs, j + 1);
    }
  }

  /** A vector decodes to the element values in input order, one per list
      element, exactly when every element decodes. */
  lemma VectorDecodeOrder(e: NType, o: Obj, objs: seq<Obj>)
    requires AsList(o) == Some(objs)
    ensures Decode(VecT(e), o).Success? <==> forall i :: 0 <= i < |objs| ==> Decode(e, objs[i]).Success?
    ensures Decode(VecT(e), o).Success? ==>
              Decode(VecT(e), o).value.NSeq?
              && |Decode(VecT(e), o).value.elems| == |objs|
              && forall i :: 0 <= i < |objs| ==> Decode(e, objs[i]) == Success(Decode(VecT(e), o).value.elems[i])
  {
    var t := VecT(e);
    UnfoldListDecode(t, o);
    ElemsPointwise(t, objs);
  }

  /** A vector decode fails at the first bad element f with its error
      tagged [f]; later elements are not looked at. */
  lemma VectorDecodeFailFast(e: NType, o: Obj, objs: seq<Obj>, f: nat)
    requires AsList(o) == Some(objs) && f < |objs|
    requires forall i :: 0 <= i < f ==> Decode(e, objs[i]).Success?
    requires Decode(e, objs[f]).Failure?
    ensures Decode(VecT(e), o) == Failure(Index(Decode(e, objs[f]).error, f))
  {
    var t := VecT(e);
    UnfoldListDecode(t, o);
    assert forall i :: 0 <= i < |objs| ==> DecodeAt(t, objs, i) == Decode(e, objs[i]);
    ElemsFirstFailure(t, objs, 0, f);
  }

  /** A set decode fails at the first bad element like a vector decode. */
  lemma SetDecodeFailFast(order: Order, e: NType, o: Obj, objs: seq<Obj>, f: nat)
    requires AsList(o) == Some(objs) && f < |objs|
    requires forall i :: 0 <= i < f ==> Decode(e, objs[i]).Success?
    requires Decode(e, objs[f]).Failure?
    ensures Decode(SetT(order, e), o) == Failure(Index(Decode(e, objs[f]).error, f))
  {
    var t := SetT(order, e);
    UnfoldListDecode(t, o);
    assert forall i :: 0 <= i < |objs| ==> DecodeAt(t, objs, i) == Decode(e, objs[i]);
    ElemsFirstFailure(t, objs, 0, f);
  }

  /** Some element of `objs` decodes to `x`. */
  predicate Member(e: NType, objs: seq<Obj>, x: Val)
  {
    exists i :: 0 <= i < |objs| && Decode(e, objs[i]) == Success(x)
  }

  /** A successful set decode holds exactly the decoded elements, each
      once, however often it occurs in the list. */
  lemma SetDecodeMembers(order: Order, e: NType, o: Obj, objs: seq<Obj>)
    requires AsList(o) == Some(objs)
    ensures Decode(SetT(order, e), o).Success? <==> forall i :: 0 <= i < |objs| ==> Decode(e, objs[i]).Success?
    ensures Decode(SetT(order, e), o).Success? ==>
              Decode(SetT(order, e), o).value.NSet?
              && forall x :: x in Decode(SetT(order, e), o).value.members <==> Member(e, objs, x)
  {
    var t := SetT(order, e);
    UnfoldListDecode(t, o);
    ElemsPointwise(t, objs);
    if DecodeElems(t, objs, 0).Success? {
      MembersOfDecoded(e, objs, DecodeElems(t, objs, 0).value);
    }
  }

  /** The values decoded position by position are the values some
      position decodes to. */
  lemma MembersOfDecoded(e: NType, objs: seq<Obj>, vs: seq<Val>)
    requires |vs| == |objs|
    requires forall i :: 0 <= i < |objs| ==> Decode(e, objs[i]) == Success(vs[i])
    ensures forall x :: x in Members(vs) <==> Member(e, objs, x)
  {
    forall x
      ensures x in Members(vs) <==> Member(e, objs, x)
    {
      if x in Members(vs) {
        var i :| 0 <= i < |vs| && vs[i] == x;
        assert Decode(e, objs[i]) == Success(x);
      }
      if Member(e, objs, x) {
        var i :| 0 <= i < |objs| && Decode(e, objs[i]) == Success(x);
        assert vs[i] in vs;
      }
    }
  }

  /** A tuple decode of a list whose length differs from the arity fails
      with the "wrong # args" message. */
  lemma TupleDecodeArity(ts: seq<NType>, o: Obj, objs: seq<Obj>)
    requires AsList(o) == Some(objs) && |objs| != |ts|
    ensures Decode(TupleT(ts), o).Failure?
    ensures Render(Decode(TupleT(ts), o).error)
         == "wrong # args (expected " + NatToString(|ts|) + " but got " + NatToString(|objs|) + ")"
  {
    FixedArity(TupleT(ts), objs);
    TupleDecodeError(ts, o, objs);
  }

  /** The arity check's message. */
  lemma FixedArity(t: NType, objs: seq<Obj>)
    requires t.TupleT? || t.ArrT?
    requires |objs| != Arity(t)
    ensures DecodeFixed(t, objs).Failure?
    ensures Render(DecodeFixed(t, objs).error)
         == "wrong # args (expected " + NatToString(Arity(t)) + " but got " + NatToString(|objs|) + ")"
  {
  }

  /** A tuple decode of a list reports the fixed-size decode's error. */
  lemma TupleDecodeError(ts: seq<NType>, o: Obj, objs: seq<Obj>)
    requires AsList(o) == Some(objs)
    ensures Decode(TupleT(ts), o).Failure? <==> DecodeFixed(TupleT(ts), objs).Failure?
    ensures Decode(TupleT(ts), o).Failure? ==>
              Decode(TupleT(ts), o).error == DecodeFixed(TupleT(ts), objs).error
  {
    assert Decode(TupleT(ts), o) == DecodeList(TupleT(ts), o);
  }

  /** A tuple decode of a list of the right length fails at the first bad
      position f with its error tagged [f]; later ones are not decoded. */
  lemma TupleDecodeFailFast(ts: seq<NType>, o: Obj, objs: seq<Obj>, f: nat)
    requires AsList(o) == Some(objs) && |objs| == |ts| && f < |ts|
    requires forall i :: 0 <= i < f ==> Decode(ts[i], objs[i]).Success?
    requires Decode(ts[f], objs[f]).Failure?
    ensures Decode(TupleT(ts), o) == Failure(Index(Decode(ts[f], objs[f]).error, f))
  {
    var t := TupleT(ts);
    UnfoldTupleDecode(ts, o);
    assert forall i :: 0 <= i < |objs| ==> DecodeAt(t, objs, i) == Decode(ts[i], objs[i]);
    ElemsFirstFailure(t, objs, 0, f);
  }

  /** A tuple decode of a list of the right length succeeds exactly when
      every position does, and keeps every value at its position. */
  lemma TupleDecodeOrder(ts: seq<NType>, o: Obj, objs: seq<Obj>)
    requires AsList(o) == Some(objs) && |objs| == |ts|
    ensures Decode(TupleT(ts), o).Success? <==> forall i :: 0 <= i < |ts| ==> Decode(ts[i], objs[i]).Success?
    ensures Decode(TupleT(ts), o).Success? ==>
              Decode(TupleT(ts), o).value.NSeq?
              && |Decode(TupleT(ts), o).value.elems| == |ts|
              && forall i :: 0 <= i < |ts| ==> Decode(ts[i], objs[i]) == Success(Decode(TupleT(ts), o).value.elems[i])
  {
    var t := TupleT(ts);
    UnfoldTupleDecode(ts, o);
    ElemsPointwise(t, objs);
  }

  /** An array decodes exactly as the tuple of `n` copies of its element
      type, error messages included. */
  lemma ArrayDecodeIsTupleDecode(e: NType, n: nat, o: Obj)
    ensures Decode(ArrT(e, n), o) == Decode(TupleT(Repeat(e, n)), o)
  {
    var a := ArrT(e, n);
    var t := TupleT(Repeat(e, n));
    assert Decode(a, o) == DecodeList(a, o);
    assert Decode(t, o) == DecodeList(t, o);
    var objs := AsList(o);
    if objs.Some? {
      if |objs.value| == n {
        assert forall i :: 0 <= i < n ==> ElemType(a, i) == ElemType(t, i);
        ElemsSameTypes(a, t, objs.value, 0);
      }
      assert DecodeFixed(a, objs.value) == DecodeFixed(t, objs.value);
    }
  }

  /** The text "x" is not an integer. */
  lemma NotAnInt()
    ensures Decode(IntT(Int), StrObj("x")) == Failure(TypeError("<int>", StrObj("x")))
  {
    assert !IsDigit("x"[0]);
  }

  /** Decoding a two-element list into a (string, int) tuple whose second
      element is not a number tags the failure with [1]. */
  lemma NestedIndexExample()
    ensures Decode(TupleT([TextT(StdString), IntT(Int)]), ListObj([StrObj("a"), StrObj("x")]))
         == Failure(Index(TypeError("<int>", StrObj("x")), 1))
    ensures Render(Index(TypeError("<int>", StrObj("x")), 1))
         == "[" + "1" + "] " + ("expected " + "<int>" + " but got \"" + "x" + "\"")
  {
    var ts := [TextT(StdString), IntT(Int)];
    var objs := [StrObj("a"), StrObj("x")];
    NotAnInt();
    assert Decode(ts[0], objs[0]).Success?;
    TupleDecodeFailFast(ts, ListObj(objs), objs, 1);
    TypeErrorText("<int>", StrObj("x"));
    assert NatToString(1) == "1";
  }

  // ---------------------------------------------------------------------
  // Maps

  /** Every entry from `j` on decodes, key and value. */
  predicate EntriesDecode(t: NType, ps: seq<(Obj, Obj)>, j: nat)
    requires t.MapT?
  {
    forall i :: j <= i < |ps| ==> Decode(t.key, ps[i].0).Success? && Decode(t.mapped, ps[i].1).Success?
  }

  /** The first failing entry f decides the error: its key failure is
      tagged [2f], else its value failure [2f+1]. */
  lemma {:induction false} MapFirstFailure(t: NType, ps: seq<(Obj, Obj)>, j: nat, acc: map<Val, Val>, f: nat)
    requires t.MapT? && j <= f < |ps|
    requires EntriesDecode(t, ps[..f], j)
    ensures Decode(t.key, ps[f].0).Failure? ==>
              DecodeEntries(t, ps, j, acc) == Failure(Index(Decode(t.key, ps[f].0).error, 2 * f))
    ensures Decode(t.key, ps[f].0).Success? && Decode(t.mapped, ps[f].1).Failure? ==>
              DecodeEntries(t, ps, j, acc) == Failure(Index(Decode(t.mapped, ps[f].1).error, 2 * f + 1))
    decreases f - j
  {
    if j < f {
      assert ps[..f][j] == ps[j];
      var k := Decode(t.key, ps[j].0).value;
      var v := Decode(t.mapped, ps[j].1).value;
      MapFirstFailure(t, ps, j + 1, acc[k := v], f);
    }
  }

  /** A map decode succeeds exactly when every entry decodes. */
  lemma {:induction false} MapSuccessDecodesAll(t: NType, ps: seq<(Obj, Obj)>, j: nat, acc: map<Val, Val>)
    requires t.MapT? && j <= |ps|
    ensures DecodeEntries(t, ps, j, acc).Success? <==> EntriesDecode(t, ps, j)
    decreases |ps| - j
  {
    if j < |ps| {
      var k := Decode(t.key, ps[j].0);
      var v := Decode(t.mapped, ps[j].1);
      EntriesStep(t, ps, j, acc);
      if k.Success? && v.Success? {
        MapSuccessDecodesAll(t, ps, j + 1, acc[k.value := v.value]);
        assert EntriesDecode(t, ps, j) <==> EntriesDecode(t, ps, j + 1);
      } else {
        assert !EntriesDecode(t, ps, j);
      }
    }
  }

  /** Entry `i`'s decoded key occurs in no later entry. */
  predicate LastOccurrence(t: NType, ps: seq<(Obj, Obj)>, i: nat)
    requires t.MapT? && i < |ps|
  {
    forall l :: i < l < |ps| ==> Decode(t.key, ps[l].0) != Decode(t.key, ps[i].0)
  }

  /** `r` is a successful map decode holding `v` under `k`. */
  predicate Holds(r: Result<Val>, k: Val, v: Val)
  {
    r.Success? && r.value.NMap? && k in r.value.entries && r.value.entries[k] == v
  }

  /** Some entry from `j` on decodes its key to `x`. */
  predicate EntryKey(t: NType, ps: seq<(Obj, Obj)>, j: nat, x: Val)
    requires t.MapT?
  {
    exists i :: j <= i < |ps| && Decode(t.key, ps[i].0) == Success(x)
  }

  /** A decoded entry moves into the accumulated map. */
  lemma EntriesStep(t: NType, ps: seq<(Obj, Obj)>, j: nat, acc: map<Val, Val>)
    requires t.MapT? && j < |ps|
    ensures Decode(t.key, ps[j].0).Success? && Decode(t.mapped, ps[j].1).Success? ==>
              DecodeEntries(t, ps, j, acc)
              == DecodeEntries(t, ps, j + 1, acc[Decode(t.key, ps[j].0).value := Decode(t.mapped, ps[j].1).value])
    ensures !(Decode(t.key, ps[j].0).Success? && Decode(t.mapped, ps[j].1).Success?) ==>
              DecodeEntries(t, ps, j, acc).Failure?
  {
  }

  /** Every key of a successful map decode is a key of the accumulated
      entries or the decoded key of some entry. */
  lemma {:induction false} MapKeysFrom(t: NType, ps: seq<(Obj, Obj)>, j: nat, acc: map<Val, Val>)
    requires t.MapT? && j <= |ps|
    requires EntriesDecode(t, ps, j)
    ensures DecodeEntries(t, ps, j, acc).Success? && DecodeEntries(t, ps, j, acc).value.NMap?
    ensures forall x :: x in DecodeEntries(t, ps, j, acc).value.entries ==> x in acc || EntryKey(t, ps, j, x)
    decreases |ps| - j
  {
    MapSuccessDecodesAll(t, ps, j, acc);
    if j < |ps| {
      var k := Decode(t.key, ps[j].0).value;
      var v := Decode(t.mapped, ps[j].1).value;
      MapKeysFrom(t, ps, j + 1, acc[k := v]);
      EntriesStep(t, ps, j, acc);
      forall x | x in DecodeEntries(t, ps, j, acc).value.entries && x !in acc
        ensures EntryKey(t, ps, j, x)
      {
        if x == k {
          assert Decode(t.key, ps[j].0) == Success(x);
        } else {
          var i :| j + 1 <= i < |ps| && Decode(t.key, ps[i].0) == Success(x);
        }
      }
    }
  }

  /** Each entry's decoded key whose last occurrence it is holds that
      entry's decoded value: a later duplicate key overwrites. */
  lemma {:induction false} MapLastWins(t: NType, ps: seq<(Obj, Obj)>, j: nat, acc: map<Val, Val>)
    requires t.MapT? && j <= |ps|
    requires EntriesDecode(t, ps, j)
    ensures forall i :: j <= i < |ps| && LastOccurrence(t, ps, i) ==>
              Holds(DecodeEntries(t, ps, j, acc), Decode(t.key, ps[i].0).value, Decode(t.mapped, ps[i].1).value)
    decreases |ps| - j
  {
    if j < |ps| {
      var k := Decode(t.key, ps[j].0).value;
      var v := Decode(t.mapped, ps[j].1).value;
      var next := acc[k := v];
      MapLastWins(t, ps, j + 1, next);
      EntriesStep(t, ps, j, acc);
      forall i | j <= i < |ps| && LastOccurrence(t, ps, i)
        ensures Holds(DecodeEntries(t, ps, j + 1, next), Decode(t.key, ps[i].0).value, Decode(t.mapped, ps[i].1).value)
      {
        if i == j {
          MapKeepsAbsent(t, ps, j + 1, next, k);
        }
      }
    }
  }

  /** A key no later entry decodes to keeps its accumulated value. */
  lemma {:induction false} MapKeepsAbsent(t: NType, ps: seq<(Obj, Obj)>, j: nat, acc: map<Val, Val>, k: Val)
    requires t.MapT? && j <= |ps|
    requires EntriesDecode(t, ps, j)
    requires k in acc
    requires forall l :: j <= l < |ps| ==> Decode(t.key, ps[l].0) != Success(k)
    ensures Holds(DecodeEntries(t, ps, j, acc), k, acc[k])
    decreases |ps| - j
  {
    if j < |ps| {
      var k' := Decode(t.key, ps[j].0).value;
      var v := Decode(t.mapped, ps[j].1).value;
      MapKeepsAbsent(t, ps, j + 1, acc[k' := v], k);
      EntriesStep(t, ps, j, acc);
    }
  }

  /** The map `{a 1 b x}` read as a map from string to int fails at the
      value under "b", which is flat position 3. */
  lemma MapIndexExample()
    ensures Decode(MapT(Ordered, TextT(StdString), IntT(Int)),
                   DictObj([(StrObj("a"), IntObj(1)), (StrObj("b"), StrObj("x"))]))
         == Failure(Index(TypeError("<int>", StrObj("x")), 3))
  {
    var t := MapT(Ordered, TextT(StdString), IntT(Int));
    var ps := [(StrObj("a"), IntObj(1)), (StrObj("b"), StrObj("x"))];
    NotAnInt();
    FirstEntryDecodes(t, ps);
    MapFirstFailure(t, ps, 0, map[], 1);
    UnfoldDictDecode(t, ps);
  }

  /** Two pairs whose keys have the same text collapse into the first key
      with the second value. */
  lemma CollapseTwo(p: (Obj, Obj), q: (Obj, Obj))
    requires TextOf(p.0) == TextOf(q.0)
    ensures Collapse([p, q]) == [(p.0, q.1)]
  {
    assert [p, q][..1] == [p];
    assert [p][..0] == [];
    assert Collapse([p]) == [p];
    assert KeyIndex([p], TextOf(q.0)) == Some(0);
  }

  /** The list {a x a 1} read as a dictionary keeps one entry for "a",
      holding its last value 1. */
  lemma RepeatedKeyCollapses()
    ensures AsDict(ListObj([StrObj("a"), StrObj("x"), StrObj("a"), IntObj(1)]))
         == Some([(StrObj("a"), IntObj(1))])
  {
    var es := [StrObj("a"), StrObj("x"), StrObj("a"), IntObj(1)];
    assert Pairs(es) == [(StrObj("a"), StrObj("x")), (StrObj("a"), IntObj(1))];
    CollapseTwo((StrObj("a"), StrObj("x")), (StrObj("a"), IntObj(1)));
  }

  /** The list {a x a 1} read as map<string, int> succeeds with a -> 1:
      the value "x" is replaced before any value is decoded. */
  lemma RepeatedKeyExample()
    ensures Decode(MapT(Ordered, TextT(StdString), IntT(Int)),
                   ListObj([StrObj("a"), StrObj("x"), StrObj("a"), IntObj(1)]))
         == Success(NMap(map[NText("a") := NInt(Int, 1)]))
  {
    var t := MapT(Ordered, TextT(StdString), IntT(Int));
    var o := ListObj([StrObj("a"), StrObj("x"), StrObj("a"), IntObj(1)]);
    RepeatedKeyCollapses();
    var ps := [(StrObj("a"), IntObj(1))];
    assert Decode(t, o) == DecodeMap(t, o);
    assert DecodeMap(t, o) == DecodeEntries(t, ps, 0, map[]);
    OneEntryDecodes(t, ps);
  }

  /** The entry ("a", 1) alone decodes to the map a -> 1. */
  lemma OneEntryDecodes(t: NType, ps: seq<(Obj, Obj)>)
    requires t == MapT(Ordered, TextT(StdString), IntT(Int))
    requires ps == [(StrObj("a"), IntObj(1))]
    ensures DecodeEntries(t, ps, 0, map[]) == Success(NMap(map[NText("a") := NInt(Int, 1)]))
  {
    assert Decode(t.key, ps[0].0) == Success(NText("a"));
    assert Decode(t.mapped, ps[0].1) == Success(NInt(Int, 1));
  }

  /** The list {a 1 a x} read as map<string, int> fails at the value of
      the one entry left for "a", tagged [1]. */
  lemma RepeatedKeyFailureExample()
    ensures Decode(MapT(Ordered, TextT(StdString), IntT(Int)),
                   ListObj([StrObj("a"), IntObj(1), StrObj("a"), StrObj("x")]))
         == Failure(Index(TypeError("<int>", StrObj("x")), 1))
  {
    var t := MapT(Ordered, TextT(StdString), IntT(Int));
    var o := ListObj([StrObj("a"), IntObj(1), StrObj("a"), StrObj("x")]);
    var es := [StrObj("a"), IntObj(1), StrObj("a"), StrObj("x")];
    assert Pairs(es) == [(StrObj("a"), IntObj(1)), (StrObj("a"), StrObj("x"))];
    CollapseTwo((StrObj("a"), IntObj(1)), (StrObj("a"), StrObj("x")));
    var ps := [(StrObj("a"), StrObj("x"))];
    assert Decode(t, o) == DecodeEntries(t, ps, 0, map[]);
    NotAnInt();
  }

  /** The entry ("a", 1) of the example above decodes. */
  lemma FirstEntryDecodes(t: NType, ps: seq<(Obj, Obj)>)
    requires t == MapT(Ordered, TextT(StdString), IntT(Int))
    requires |ps| == 2 && ps[0] == (StrObj("a"), IntObj(1))
    ensures EntriesDecode(t, ps[..1], 0)
  {
    assert ps[..1][0] == ps[0];
    assert Decode(IntT(Int), IntObj(1)) == Success(NInt(Int, 1));
  }

  // ---------------------------------------------------------------------
  // Round trips

  /** Decoding the encoding of a value of type `t` gives the value back. */
  lemma {:induction false} RoundTrip(t: NType, v: Val)
    requires Typed(v, t)
    ensures Decode(t, Encode(v)) == Success(v)
    decreases t, 2, 0
  {
    match t
    case IntT(k) => IntRoundTrip(k, v.n);
    case BoolT =>
    case TextT(_) =>
    case SetT(_, _) => SetRoundTrip(t, v);
    case MapT(_, _, _) => MapRoundTrip(t, v);
    case _ => SeqRoundTrip(t, v.elems);
  }

  /** A vector, array or tuple comes back from its list encoding. */
  lemma SeqRoundTrip(t: NType, vs: seq<Val>)
    requires t.VecT? || t.ArrT? || t.TupleT?
    requires Typed(NSeq(vs), t)
    ensures Decode(t, Encode(NSeq(vs))) == Success(NSeq(vs))
    decreases t, 1, 0
  {
    var objs := EncodeAll(vs);
    var o := ListObj(objs);
    assert Encode(NSeq(vs)) == o;
    assert forall i :: 0 <= i < |vs| ==> Typed(vs[i], ElemType(t, i));
    ElemsRoundTrip(t, vs);
    assert Decode(t, o) == DecodeList(t, o);
    if !t.VecT? {
      assert DecodeFixed(t, objs) == DecodeElems(t, objs, 0);
    }
  }

  /** A set comes back from the list of its members' encodings. */
  lemma SetRoundTrip(t: NType, v: Val)
    requires t.SetT? && Typed(v, t)
    ensures Decode(t, Encode(v)) == Success(v)
    decreases t, 1, 0
  {
    var xs := Enumerate(v.members);
    var objs := EncodeAll(xs);
    assert EncodeMembers(v) == objs;
    assert Encode(v) == ListObj(objs);
    assert forall i :: 0 <= i < |xs| ==> xs[i] in v.members;
    ElemsRoundTrip(t, xs);
    assert Decode(t, ListObj(objs)) == DecodeList(t, ListObj(objs));
    assert Members(xs) == v.members;
  }

  /** The encoded elements decode back to the elements. */
  lemma ElemsRoundTrip(t: NType, vs: seq<Val>)
    requires IsSequential(t)
    requires t.TupleT? ==> |vs| == |t.elems|
    requires forall i :: 0 <= i < |vs| ==> Typed(vs[i], ElemType(t, i))
    ensures DecodeElems(t, EncodeAll(vs), 0) == Success(vs)
    decreases t, 0, 1
  {
    var objs := EncodeAll(vs);
    forall i | 0 <= i < |vs|
      ensures DecodeAt(t, objs, i) == Success(vs[i])
    {
      RoundTripAt(t, vs, i);
    }
    ElemsFromValues(t, objs, vs, 0);
    assert vs[0..] == vs;
  }

  /** A decoded element followed by the decoded rest is the decode from
      that element on. */
  lemma ElemsCons(t: NType, objs: seq<Obj>, j: nat, v: Val, rest: seq<Val>)
    requires IsSequential(t) && j < |objs|
    requires t.TupleT? ==> |objs| == |t.elems|
    requires DecodeAt(t, objs, j) == Success(v)
    requires DecodeElems(t, objs, j + 1) == Success(rest)
    ensures DecodeElems(t, objs, j) == Success([v] + rest)
  {
  }

  /** The encoding of element `j` decodes back with its declared type. */
  lemma RoundTripAt(t: NType, vs: seq<Val>, j: nat)
    requires IsSequential(t) && j < |vs|
    requires t.TupleT? ==> |vs| == |t.elems|
    requires Typed(vs[j], ElemType(t, j))
    ensures DecodeAt(t, EncodeAll(vs), j) == Success(vs[j])
    decreases t, 0, 0
  {
    RoundTrip(if t.TupleT? then t.elems[j] else t.elem, vs[j]);
    assert EncodeAll(vs)[j] == Encode(vs[j]);
  }

  /** The entries for the first `j` keys of `ks`, collected in order. */
  ghost function Collected(m: map<Val, Val>, ks: seq<Val>, j: nat): (r: map<Val, Val>)
    requires j <= |ks|
    requires forall i :: 0 <= i < |ks| ==> ks[i] in m
    ensures forall x :: x in r <==> x in ks[..j]
    ensures forall x :: x in r ==> r[x] == m[x]
  {
    if j == 0 then map[]
    else
      assert ks[..j] == ks[..j - 1] + [ks[j - 1]];
      Collected(m, ks, j - 1)[ks[j - 1] := m[ks[j - 1]]]
  }

  /** A map comes back from the dictionary of its entries' encodings. */
  lemma MapRoundTrip(t: NType, v: Val)
    requires t.MapT? && Typed(v, t)
    ensures Decode(t, Encode(v)) == Success(v)
    decreases t, 1, 0
  {
    var m := v.entries;
    var ks := Enumerate(m.Keys);
    var ps := EncodeEntries(v);
    EntriesEncoding(v);
    EntriesRoundTrip(t, m, ks, ps, 0);
    CollectedAll(m, ks);
    DictDecode(t, v);
  }

  /** A map's encoding is decoded entry by entry, from an empty map. */
  lemma DictDecode(t: NType, v: Val)
    requires t.MapT? && v.NMap?
    ensures Decode(t, Encode(v)) == DecodeEntries(t, EncodeEntries(v), 0, map[])
  {
    assert Encode(v) == DictObj(EncodeEntries(v));
    UnfoldDictDecode(t, EncodeEntries(v));
  }

  /** The encoded entries pair each enumerated key's encoding with the
      encoding of the value it maps to. */
  lemma EntriesEncoding(v: Val)
    requires v.NMap?
    ensures var ks := Enumerate(v.entries.Keys);
      && |ks| == |EncodeEntries(v)|
      && (forall i :: 0 <= i < |ks| ==> ks[i] in v.entries)
      && forall i :: 0 <= i < |ks| ==>
           EncodeEntries(v)[i] == (Encode(ks[i]), Encode(v.entries[ks[i]]))
  {
  }

  /** Collecting every key of an enumeration of `m`'s keys rebuilds `m`. */
  lemma CollectedAll(m: map<Val, Val>, ks: seq<Val>)
    requires forall x :: x in ks <==> x in m
    ensures Collected(m, ks, |ks|) == m
  {
    assert ks[..|ks|] == ks;
  }

  /** Decoding the encoded entries from position `j`, having collected the
      entries for `ks[..j]`, collects the entries for all of `ks`. */
  lemma {:induction false} EntriesRoundTrip(t: NType, m: map<Val, Val>, ks: seq<Val>,
                                            ps: seq<(Obj, Obj)>, j: nat)
    requires t.MapT? && j <= |ks| == |ps|
    requires forall x :: x in m ==> Typed(x, t.key) && Typed(m[x], t.mapped)
    requires forall i :: 0 <= i < |ks| ==> ks[i] in m
    requires forall i :: 0 <= i < |ks| ==> ps[i] == (Encode(ks[i]), Encode(m[ks[i]]))
    ensures DecodeEntries(t, ps, j, Collected(m, ks, j)) == Success(NMap(Collected(m, ks, |ks|)))
    decreases t, 0, |ks| - j
  {
    if j < |ks| {
      RoundTrip(t.key, ks[j]);
      RoundTrip(t.mapped, m[ks[j]]);
      assert Decode(t.key, ps[j].0) == Success(ks[j]);
      assert Decode(t.mapped, ps[j].1) == Success(m[ks[j]]);
      EntriesRoundTrip(t, m, ks, ps, j + 1);
    }
  }

  /** Decoding, encoding and decoding again gives the first decode's value:
      re-encoding a decoded value loses nothing. */
  lemma DecodeIdempotent(t: NType, o: Obj)
    requires Decode(t, o).Success?
    ensures Decode(t, Encode(Decode(t, o).value)) == Decode(t, o)
  {
    DecodeTyped(t, o);
    RoundTrip(t, Decode(t, o).value);
  }
}
