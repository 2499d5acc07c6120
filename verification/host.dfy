/** The host interpreter's dynamic object, as immutable values, and the
    host inspections and constructors the marshaling layer relies on.
    The host's own parsers are modelled by small stand-ins: decimal
    integers, a handful of boolean words, whitespace-separated words for
    lists; reference counting is not modelled. */
module Host {
  import opened Optional
  import opened Strings

  /** Smallest and largest Tcl_WideInt (a signed 64-bit integer). */
  const WideMin: int := -0x8000_0000_0000_0000
  const WideMax: int := 0x7fff_ffff_ffff_ffff

  predicate InWideRange(i: int) {
    WideMin <= i <= WideMax
  }

  /** A dynamic object: an integer, a string, a list, or a dictionary whose
      entries are kept in the host's enumeration order. */
  datatype Obj =
    | IntObj(i: int)
    | StrObj(s: string)
    | ListObj(elems: seq<Obj>)
    | DictObj(entries: seq<(Obj, Obj)>)

  /** Tcl_GetString: the textual form of an object. List elements and
      dictionary keys and values are separated by single spaces (the host's
      quoting of elements that contain spaces is not modelled). */
  function TextOf(o: Obj): string
    decreases o
  {
    match o
    case IntObj(i) => IntToString(i)
    case StrObj(s) => s
    case ListObj(es) => Join(" ", seq(|es|, k requires 0 <= k < |es| => TextOf(es[k])))
    case DictObj(ps) =>
      Join(" ", seq(2 * |ps|, k requires 0 <= k < 2 * |ps| =>
                 if k % 2 == 0 then TextOf(ps[k / 2].0) else TextOf(ps[k / 2].1)))
  }

  /** Tcl_GetWideIntFromObj: an integer object holds its value; any other
      object is parsed from its text. Values outside the wide range fail. */
  function AsWide(o: Obj): (r: Option<int>)
    ensures r.Some? ==> InWideRange(r.value)
    ensures o.IntObj? ==> (r.Some? <==> InWideRange(o.i))
    ensures r.Some? && o.IntObj? ==> r.value == o.i
  {
    var parsed := if o.IntObj? then Some(o.i) else ParseInt(TextOf(o));
    if parsed.Some? && InWideRange(parsed.value) then parsed else None
  }

  /** Tcl_GetBooleanFromObj: 1 for a true value, 0 for a false one. An
      integer is true when nonzero; text is a boolean word or a number. */
  function AsBoolean(o: Obj): (r: Option<int>)
    ensures r.Some? ==> r.value == 0 || r.value == 1
    ensures o.IntObj? ==> r == Some(if o.i != 0 then 1 else 0)
  {
    if o.IntObj? then Some(if o.i != 0 then 1 else 0)
    else
      var t := TextOf(o);
      if t == "1" || t == "true" || t == "yes" || t == "on" then Some(1)
      else if t == "0" || t == "false" || t == "no" || t == "off" then Some(0)
      else match ParseInt(t)
        case None => None
        case Some(n) => Some(if n != 0 then 1 else 0)
  }

  /** A character that takes part in the host's list quoting syntax. */
  predicate IsQuoting(c: char) {
    c == '{' || c == '}' || c == '"' || c == '\\'
  }

  /** A dictionary's entries as the flat key, value, key, value list. */
  function Flatten(ps: seq<(Obj, Obj)>): (r: seq<Obj>)
    ensures |r| == 2 * |ps|
    ensures forall k :: 0 <= k < |ps| ==> r[2 * k] == ps[k].0 && r[2 * k + 1] == ps[k].1
  {
    seq(2 * |ps|, k requires 0 <= k < 2 * |ps| => if k % 2 == 0 then ps[k / 2].0 else ps[k / 2].1)
  }

  /** Tcl_ListObjGetElements: a list holds its elements, a dictionary its
      flattened entries, an integer is a one-element list, and text splits
      into words. Text using quoting characters is not parsed (fails). */
  function AsList(o: Obj): (r: Option<seq<Obj>>)
    ensures o.ListObj? ==> r == Some(o.elems)
  {
    match o
    case IntObj(_) => Some([o])
    case StrObj(s) =>
      if exists k :: 0 <= k < |s| && IsQuoting(s[k]) then None
      else
        var ws := Words(s);
        Some(seq(|ws|, k requires 0 <= k < |ws| => StrObj(ws[k])))
    case ListObj(es) => Some(es)
    case DictObj(ps) => Some(Flatten(ps))
  }

  /** Pairs up a flat key, value, key, value list. */
  function Pairs(es: seq<Obj>): (r: seq<(Obj, Obj)>)
    requires |es| % 2 == 0
    ensures |r| * 2 == |es|
    ensures forall k :: 0 <= k < |r| ==> r[k] == (es[2 * k], es[2 * k + 1])
  {
    seq(|es| / 2, k requires 0 <= k < |es| / 2 => (es[2 * k], es[2 * k + 1]))
  }

  /** The position of the first entry whose key has the text `t`: the host
      compares dictionary keys by their text. */
  function KeyIndex(ps: seq<(Obj, Obj)>, t: string): (r: Option<nat>)
    ensures r.Some? ==> r.value < |ps| && TextOf(ps[r.value].0) == t
    ensures r.Some? ==> forall i :: 0 <= i < r.value ==> TextOf(ps[i].0) != t
    ensures r.None? ==> forall i :: 0 <= i < |ps| ==> TextOf(ps[i].0) != t
    decreases |ps|
  {
    if |ps| == 0 then None
    else
      match KeyIndex(ps[..|ps| - 1], t)
      case Some(i) => Some(i)
      case None => if TextOf(ps[|ps| - 1].0) == t then Some(|ps| - 1) else None
  }

  /** The position of the last entry whose key has the text `t`. */
  function LastKeyIndex(ps: seq<(Obj, Obj)>, t: string): (r: Option<nat>)
    ensures r.Some? ==> r.value < |ps| && TextOf(ps[r.value].0) == t
    ensures r.Some? ==> forall i :: r.value < i < |ps| ==> TextOf(ps[i].0) != t
    ensures r.None? ==> forall i :: 0 <= i < |ps| ==> TextOf(ps[i].0) != t
    decreases |ps|
  {
    if |ps| == 0 then None
    else if TextOf(ps[|ps| - 1].0) == t then Some(|ps| - 1)
    else LastKeyIndex(ps[..|ps| - 1], t)
  }

  /** No two entries have keys with the same text. */
  predicate DistinctKeys(ps: seq<(Obj, Obj)>)
  {
    forall i, j :: 0 <= i < j < |ps| ==> TextOf(ps[i].0) != TextOf(ps[j].0)
  }

  /** Adds a key, value pair to a dictionary's entries: an entry whose key
      has the same text keeps its key and place and takes the new value;
      otherwise the pair is appended. */
  function Put(ps: seq<(Obj, Obj)>, p: (Obj, Obj)): seq<(Obj, Obj)>
  {
    match KeyIndex(ps, TextOf(p.0))
    case Some(i) => ps[i := (ps[i].0, p.1)]
    case None => ps + [p]
  }

  /** The dictionary the host builds from a list of pairs, adding them in
      order. */
  function Collapse(ps: seq<(Obj, Obj)>): (r: seq<(Obj, Obj)>)
    ensures |r| <= |ps|
    decreases |ps|
  {
    if |ps| == 0 then [] else Put(Collapse(ps[..|ps| - 1]), ps[|ps| - 1])
  }

  /** Tcl_DictObjFirst/Next: a dictionary's entries in enumeration order.
      Any other object is read as a list of alternating keys and values,
      and fails when it has an odd number of elements; a key repeated in
      it leaves one entry, at its first position, with its last value. */
  function AsDict(o: Obj): (r: Option<seq<(Obj, Obj)>>)
    ensures o.DictObj? ==> r == Some(o.entries)
    ensures !o.DictObj? ==> (r.Some? <==> AsList(o).Some? && |AsList(o).value| % 2 == 0)
  {
    if o.DictObj? then Some(o.entries)
    else
      match AsList(o)
      case None => None
      case Some(es) => if |es| % 2 == 0 then Some(Collapse(Pairs(es))) else None
  }

  /** Two entry sequences whose keys have the same texts position by
      position find every key text at the same position. */
  lemma KeyIndexSameTexts(a: seq<(Obj, Obj)>, b: seq<(Obj, Obj)>, t: string)
    requires |a| == |b|
    requires forall i :: 0 <= i < |a| ==> TextOf(a[i].0) == TextOf(b[i].0)
    ensures KeyIndex(a, t) == KeyIndex(b, t)
  {
    var x, y := KeyIndex(a, t), KeyIndex(b, t);
    if x.Some? {
      assert TextOf(b[x.value].0) == t;
    }
    if y.Some? {
      assert TextOf(a[y.value].0) == t;
    }
  }

  /** Where `Put` leaves each key text: where it was, or at the end when
      the pair's key is new. */
  lemma KeyIndexPut(c: seq<(Obj, Obj)>, p: (Obj, Obj), t: string)
    ensures KeyIndex(Put(c, p), t)
         == if KeyIndex(c, t).Some? then KeyIndex(c, t)
            else if TextOf(p.0) == t then Some(|c|) else None
  {
    match KeyIndex(c, TextOf(p.0))
    case Some(i) =>
      KeyIndexSameTexts(c, c[i := (c[i].0, p.1)], t);
    case None =>
      assert (c + [p])[..|c|] == c;
  }

  /** The entry the host keeps for a key text: the key of its first
      occurrence and the value of its last. */
  lemma {:induction false} CollapseEntry(ps: seq<(Obj, Obj)>, t: string)
    ensures KeyIndex(Collapse(ps), t).Some? <==> KeyIndex(ps, t).Some?
    ensures KeyIndex(ps, t).Some? ==>
              Collapse(ps)[KeyIndex(Collapse(ps), t).value]
              == (ps[KeyIndex(ps, t).value].0, ps[LastKeyIndex(ps, t).value].1)
    decreases |ps|
  {
    if |ps| != 0 {
      var n := |ps| - 1;
      var q, p := ps[..n], ps[n];
      var c := Collapse(q);
      CollapseEntry(q, t);
      KeyIndexPut(c, p, t);
      assert Collapse(ps) == Put(c, p);
      assert KeyIndex(ps, t)
          == if KeyIndex(q, t).Some? then KeyIndex(q, t)
             else if TextOf(p.0) == t then Some(n) else None;
      assert LastKeyIndex(ps, t)
          == if TextOf(p.0) == t then Some(n) else LastKeyIndex(q, t);
      match KeyIndex(c, TextOf(p.0))
      case Some(i) =>
        assert Put(c, p) == c[i := (c[i].0, p.1)];
      case None =>
        assert Put(c, p) == c + [p];
    }
  }

  /** The host's dictionary has no two keys with the same text. */
  lemma {:induction false} CollapseDistinct(ps: seq<(Obj, Obj)>)
    ensures DistinctKeys(Collapse(ps))
    decreases |ps|
  {
    if |ps| != 0 {
      var n := |ps| - 1;
      var q, p := ps[..n], ps[n];
      var c := Collapse(q);
      CollapseDistinct(q);
      assert Collapse(ps) == Put(c, p);
      match KeyIndex(c, TextOf(p.0))
      case Some(i) =>
        var r := c[i := (c[i].0, p.1)];
        assert forall k :: 0 <= k < |r| ==> TextOf(r[k].0) == TextOf(c[k].0);
      case None =>
        var r := c + [p];
        assert forall k :: 0 <= k < |c| ==> r[k] == c[k];
    }
  }

  /** The host's dictionary keeps its keys in the order of their first
      occurrence. */
  lemma {:induction false} CollapseOrder(ps: seq<(Obj, Obj)>, t1: string, t2: string)
    requires KeyIndex(ps, t1).Some? && KeyIndex(ps, t2).Some?
    ensures KeyIndex(Collapse(ps), t1).Some? && KeyIndex(Collapse(ps), t2).Some?
    ensures KeyIndex(Collapse(ps), t1).value < KeyIndex(Collapse(ps), t2).value
        <==> KeyIndex(ps, t1).value < KeyIndex(ps, t2).value
    decreases |ps|
  {
    var n := |ps| - 1;
    var q, p := ps[..n], ps[n];
    var c := Collapse(q);
    CollapseEntry(ps, t1);
    CollapseEntry(ps, t2);
    CollapseEntry(q, t1);
    CollapseEntry(q, t2);
    KeyIndexPut(c, p, t1);
    KeyIndexPut(c, p, t2);
    assert Collapse(ps) == Put(c, p);
    if KeyIndex(q, t1).Some? && KeyIndex(q, t2).Some? {
      CollapseOrder(q, t1, t2);
    }
  }

  /** Entries whose keys already differ in text are kept as they are. */
  lemma {:induction false} CollapseKeepsDistinct(ps: seq<(Obj, Obj)>)
    requires DistinctKeys(ps)
    ensures Collapse(ps) == ps
    decreases |ps|
  {
    if |ps| != 0 {
      var n := |ps| - 1;
      var q, p := ps[..n], ps[n];
      assert DistinctKeys(q);
      CollapseKeepsDistinct(q);
      assert KeyIndex(q, TextOf(p.0)).None?;
      assert q + [p] == ps;
    }
  }

  /** A list read as a dictionary: one entry per key text, no two alike,
      holding the key of its first occurrence and the value of its last,
      in the order the keys first occur; a list whose keys all differ is
      read as its pairs unchanged. */
  lemma ListAsDict(o: Obj)
    requires !o.DictObj? && AsDict(o).Some?
    ensures AsList(o).Some?
    ensures DistinctKeys(AsDict(o).value)
    ensures forall t :: KeyIndex(AsDict(o).value, t).Some? <==> KeyIndex(Pairs(AsList(o).value), t).Some?
    ensures forall t :: KeyIndex(Pairs(AsList(o).value), t).Some? ==>
              var ps := Pairs(AsList(o).value);
              AsDict(o).value[KeyIndex(AsDict(o).value, t).value]
              == (ps[KeyIndex(ps, t).value].0, ps[LastKeyIndex(ps, t).value].1)
    ensures forall t1, t2 ::
              KeyIndex(Pairs(AsList(o).value), t1).Some? && KeyIndex(Pairs(AsList(o).value), t2).Some? ==>
              (KeyIndex(AsDict(o).value, t1).value < KeyIndex(AsDict(o).value, t2).value
               <==> KeyIndex(Pairs(AsList(o).value), t1).value < KeyIndex(Pairs(AsList(o).value), t2).value)
    ensures DistinctKeys(Pairs(AsList(o).value)) ==> AsDict(o).value == Pairs(AsList(o).value)
  {
    var ps := Pairs(AsList(o).value);
    assert AsDict(o).value == Collapse(ps);
    CollapseDistinct(ps);
    forall t
      ensures KeyIndex(Collapse(ps), t).Some? <==> KeyIndex(ps, t).Some?
      ensures KeyIndex(ps, t).Some? ==>
                Collapse(ps)[KeyIndex(Collapse(ps), t).value]
                == (ps[KeyIndex(ps, t).value].0, ps[LastKeyIndex(ps, t).value].1)
    {
      CollapseEntry(ps, t);
    }
    forall t1, t2 | KeyIndex(ps, t1).Some? && KeyIndex(ps, t2).Some?
      ensures KeyIndex(Collapse(ps), t1).value < KeyIndex(Collapse(ps), t2).value
          <==> KeyIndex(ps, t1).value < KeyIndex(ps, t2).value
    {
      CollapseOrder(ps, t1, t2);
    }
    if DistinctKeys(ps) {
      CollapseKeepsDistinct(ps);
    }
  }

  /** Tcl_NewWideIntObj. */
  function NewWide(i: int): (r: Obj)
    requires InWideRange(i)
    ensures AsWide(r) == Some(i)
  {
    IntObj(i)
  }

  /** Tcl_NewBooleanObj: the integer 1 or 0. */
  function NewBoolean(b: bool): (r: Obj)
    ensures AsBoolean(r) == Some(if b then 1 else 0)
    ensures AsWide(r) == Some(if b then 1 else 0)
  {
    IntObj(if b then 1 else 0)
  }

  /** Tcl_NewStringObj. */
  function NewString(s: string): (r: Obj)
    ensures TextOf(r) == s
  {
    StrObj(s)
  }
}
