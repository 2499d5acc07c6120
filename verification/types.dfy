/** Type descriptors (which native type a converter is for), their display
    names, native values, and the typing relation between the two. */
module Types {
  import opened Strings

  /** The integral types given a converter. Widths follow an LP64 platform
      (long is 64 bits) on which plain char is signed. */
  datatype IntKind =
    | Char | SignedChar | UnsignedChar
    | Short | UnsignedShort
    | Int | UnsignedInt
    | Long | UnsignedLong
    | LongLong | UnsignedLongLong

  function Bits(k: IntKind): nat
  {
    match k
    case Char | SignedChar | UnsignedChar => 8
    case Short | UnsignedShort => 16
    case Int | UnsignedInt => 32
    case Long | UnsignedLong | LongLong | UnsignedLongLong => 64
  }

  predicate IsSigned(k: IntKind)
  {
    k.Char? || k.SignedChar? || k.Short? || k.Int? || k.Long? || k.LongLong?
  }

  /** 2 to the power of a width. */
  function Span(bits: nat): int
    requires bits == 8 || bits == 16 || bits == 32 || bits == 64
  {
    if bits == 8 then 0x100
    else if bits == 16 then 0x1_0000
    else if bits == 32 then 0x1_0000_0000
    else 0x1_0000_0000_0000_0000
  }

  /** std::numeric_limits<N>::lowest(). */
  function Lowest(k: IntKind): int
  {
    if IsSigned(k) then -(Span(Bits(k)) / 2) else 0
  }

  /** std::numeric_limits<N>::max(). */
  function Highest(k: IntKind): int
  {
    if IsSigned(k) then Span(Bits(k)) / 2 - 1 else Span(Bits(k)) - 1
  }

  predicate InRange(k: IntKind, n: int)
  {
    Lowest(k) <= n <= Highest(k)
  }

  function KindName(k: IntKind): string
  {
    match k
    case Char => "<char>"
    case SignedChar => "<signed char>"
    case UnsignedChar => "<unsigned char>"
    case Short => "<short int>"
    case UnsignedShort => "<unsigned short int>"
    case Int => "<int>"
    case UnsignedInt => "<unsigned int>"
    case Long => "<long int>"
    case UnsignedLong => "<unsigned long int>"
    case LongLong => "<long long int>"
    case UnsignedLongLong => "<unsigned long long int>"
  }

  /** The three text types: std::string, std::string_view, char const *. */
  datatype TextKind = StdString | StringView | CString

  /** std::set / std::map (Ordered) or their unordered counterparts. */
  datatype Order = Ordered | Unordered

  /** A native type that has a converter. Vectors, arrays and tuples hold
      sequences; `ArrT(e, n)` is std::array<e, n>. */
  datatype NType =
    | IntT(kind: IntKind)
    | BoolT
    | TextT(text: TextKind)
    | VecT(elem: NType)
    | ArrT(elem: NType, size: nat)
    | SetT(order: Order, elem: NType)
    | MapT(order: Order, key: NType, mapped: NType)
    | TupleT(elems: seq<NType>)

  /** The types decoded position by position from a host list. */
  predicate IsSequential(t: NType)
  {
    t.VecT? || t.ArrT? || t.SetT? || t.TupleT?
  }

  /** The declared type of position `j` of a sequential type. */
  function ElemType(t: NType, j: nat): NType
    requires IsSequential(t)
    requires t.TupleT? ==> j < |t.elems|
  {
    if t.TupleT? then t.elems[j] else t.elem
  }

  /** `n` copies of one type: the tuple an array is converted through. */
  function Repeat(e: NType, n: nat): (r: seq<NType>)
    ensures |r| == n
    ensures forall j :: 0 <= j < n ==> r[j] == e
  {
    seq(n, j requires 0 <= j < n => e)
  }

  /** Type<T>::name(): every name is enclosed in angle brackets. */
  function Name(t: NType): (r: string)
    ensures |r| >= 2 && r[0] == '<' && r[|r| - 1] == '>'
    decreases t
  {
    match t
    case IntT(k) => KindName(k)
    case BoolT => "<bool>"
    case TextT(StdString) => "<string>"
    case TextT(StringView) => "<string view>"
    case TextT(CString) => "<cstring>"
    case VecT(e) => "<vector " + Name(e) + ">"
    case ArrT(e, n) => "<array " + Name(e) + " x " + NatToString(n) + ">"
    case SetT(Ordered, e) => "<set " + Name(e) + ">"
    case SetT(Unordered, e) => "<unordered_set " + Name(e) + ">"
    case MapT(Ordered, k, v) => "<map " + Name(k) + " -> " + Name(v) + ">"
    case MapT(Unordered, k, v) => "<unordered_map " + Name(k) + " -> " + Name(v) + ">"
    case TupleT(ts) =>
      "<tuple" + (if |ts| != 0 then " " + Names(ts) else "") + ">"
  }

  /** `os << Tuple<Ts...> {}`: the element type names joined by spaces. */
  function Names(ts: seq<NType>): string
    decreases ts
  {
    Join(" ", seq(|ts|, j requires 0 <= j < |ts| => Name(ts[j])))
  }

  /** A native value. Integers carry their declared kind; vectors, arrays
      and tuples are all sequences of values. */
  datatype Val =
    | NInt(kind: IntKind, n: int)
    | NBool(b: bool)
    | NText(s: string)
    | NSeq(elems: seq<Val>)
    | NSet(members: set<Val>)
    | NMap(entries: map<Val, Val>)

  /** `v` is a value of native type `t`: the right shape, integers within
      their kind's range, an array or tuple of the declared length, and
      every element, member, key and mapped value of its declared type. */
  predicate Typed(v: Val, t: NType)
    decreases t
  {
    match t
    case IntT(k) => v.NInt? && v.kind == k && InRange(k, v.n)
    case BoolT => v.NBool?
    case TextT(_) => v.NText?
    case VecT(e) => v.NSeq? && forall j :: 0 <= j < |v.elems| ==> Typed(v.elems[j], e)
    case ArrT(e, n) => v.NSeq? && |v.elems| == n && forall j :: 0 <= j < n ==> Typed(v.elems[j], e)
    case TupleT(ts) =>
      v.NSeq? && |v.elems| == |ts| && forall j :: 0 <= j < |ts| ==> Typed(v.elems[j], ts[j])
    case SetT(_, e) => v.NSet? && forall x :: x in v.members ==> Typed(x, e)
    case MapT(_, k, w) =>
      v.NMap? && forall x :: x in v.entries ==> Typed(x, k) && Typed(v.entries[x], w)
  }

  /** The element names can be read back from a composite name: two
      vectors, arrays or sets (of the same order) with the same name have
      elements of the same name, and arrays of the same size; two maps of
      the same order with the same name and the same key name (mapped type
      name) have the same mapped type name (key name). */
  lemma CompositeNamesReadBack(e1: NType, e2: NType, n1: nat, n2: nat, o: Order, k: NType, v: NType)
    ensures Name(VecT(e1)) == Name(VecT(e2)) ==> Name(e1) == Name(e2)
    ensures Name(SetT(o, e1)) == Name(SetT(o, e2)) ==> Name(e1) == Name(e2)
    ensures Name(ArrT(e1, n1)) == Name(ArrT(e2, n2)) ==> Name(e1) == Name(e2) && n1 == n2
    ensures Name(MapT(o, k, e1)) == Name(MapT(o, k, e2)) ==> Name(e1) == Name(e2)
    ensures Name(MapT(o, e1, v)) == Name(MapT(o, e2, v)) ==> Name(e1) == Name(e2)
  {
    if Name(VecT(e1)) == Name(VecT(e2)) {
      Unwrap("<vector ", Name(e1), Name(e2), ">");
    }
    if Name(SetT(o, e1)) == Name(SetT(o, e2)) {
      SetNameReadBack(o, e1, e2);
    }
    if Name(ArrT(e1, n1)) == Name(ArrT(e2, n2)) {
      ArrayNameReadBack(e1, e2, n1, n2);
    }
    MapNameReadBack(o, k, v, e1, e2);
  }

  /** A set name determines its element name. */
  lemma SetNameReadBack(o: Order, e1: NType, e2: NType)
    requires Name(SetT(o, e1)) == Name(SetT(o, e2))
    ensures Name(e1) == Name(e2)
  {
    Unwrap(if o.Ordered? then "<set " else "<unordered_set ", Name(e1), Name(e2), ">");
  }

  /** A map name determines either type name once the other is known. */
  lemma MapNameReadBack(o: Order, k: NType, v: NType, e1: NType, e2: NType)
    ensures Name(MapT(o, k, e1)) == Name(MapT(o, k, e2)) ==> Name(e1) == Name(e2)
    ensures Name(MapT(o, e1, v)) == Name(MapT(o, e2, v)) ==> Name(e1) == Name(e2)
  {
    var front := if o.Ordered? then "<map " else "<unordered_map ";
    if Name(MapT(o, k, e1)) == Name(MapT(o, k, e2)) {
      MapNameSplit(front, Name(k), Name(e1), Name(k), Name(e2));
    }
    if Name(MapT(o, e1, v)) == Name(MapT(o, e2, v)) {
      MapNameSplit(front, Name(e1), Name(v), Name(e2), Name(v));
    }
  }

  /** The text of a map name around the key and mapped type names: with
      one of them fixed, the other is determined. */
  lemma MapNameSplit(front: string, k1: string, v1: string, k2: string, v2: string)
    requires front + k1 + " -> " + v1 + ">" == front + k2 + " -> " + v2 + ">"
    ensures k1 == k2 ==> v1 == v2
    ensures v1 == v2 ==> k1 == k2
  {
    var s := front + k1 + " -> " + v1 + ">";
    var t := front + k2 + " -> " + v2 + ">";
    if k1 == k2 || v1 == v2 {
      assert |k1| == |k2| && |v1| == |v2|;
      assert k1 == s[|front|..|front| + |k1|];
      assert k2 == t[|front|..|front| + |k2|];
      assert v1 == s[|front| + |k1| + 4..|s| - 1];
      assert v2 == t[|front| + |k2| + 4..|t| - 1];
    }
  }

  /** The size of an array ends its name after the last space, so the
      element name and the size are both read back. */
  lemma ArrayNameReadBack(e1: NType, e2: NType, n1: nat, n2: nat)
    requires Name(ArrT(e1, n1)) == Name(ArrT(e2, n2))
    ensures Name(e1) == Name(e2) && n1 == n2
  {
    ArrayNameSplit(Name(e1), NatToString(n1), Name(e2), NatToString(n2));
    NatToStringInjective(n1, n2);
  }

  /** The text of an array name around the element name and the size. */
  lemma ArrayNameSplit(a: string, d: string, b: string, e: string)
    requires "<array " + a + " x " + d + ">" == "<array " + b + " x " + e + ">"
    requires forall i :: 0 <= i < |d| ==> IsDigit(d[i])
    requires forall i :: 0 <= i < |e| ==> IsDigit(e[i])
    ensures a == b && d == e
  {
    var s := "<array " + a + " x " + d + ">";
    var t := "<array " + b + " x " + e + ">";
    assert s[|a| + 9] == ' ' && t[|b| + 9] == ' ';
    assert |a| == |b|;
    assert a == s[7..7 + |a|];
    assert b == t[7..7 + |b|];
    assert d == s[|a| + 10..|s| - 1];
    assert e == t[|b| + 10..|t| - 1];
  }

  /** The tuple name is "<tuple", then a space and the element's name for
      each element in order, then ">". */
  lemma TupleNameShape(ts: seq<NType>)
    ensures Name(TupleT(ts))
         == "<tuple" + Prefixed(" ", seq(|ts|, j requires 0 <= j < |ts| => Name(ts[j]))) + ">"
  {
    if |ts| != 0 {
      PrefixedJoin(" ", seq(|ts|, j requires 0 <= j < |ts| => Name(ts[j])));
    }
  }
}
