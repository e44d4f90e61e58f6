/** JSON paths: lookup and JSON_SET / JSON_INSERT / JSON_REPLACE / JSON_REMOVE, and how they determine each other. */
module JsonPath {
  import opened Wrappers

  datatype Json = Scalar(text: string) | Arr(elems: seq<Json>) | Obj(fields: map<string, Json>)

  /** A path without wildcards, as the modifying functions take it. */
  datatype Leg = Key(name: string) | Index(i: nat)

  type Path = seq<Leg>

  datatype Mode = Set | Insert | Replace | Remove

  /** visitJSONPath: the one value the path leads to. A value that is not an array is its own element 0. */
  function Lookup(v: Json, legs: Path): Option<Json> {
    if legs == [] then Some(v) else
      match legs[0]
      case Index(i) =>
        if v.Arr? then (if i < |v.elems| then Lookup(v.elems[i], legs[1..]) else None)
        else if i == 0 then Lookup(v, legs[1..]) else None
      case Key(name) =>
        if v.Obj? && name in v.fields then Lookup(v.fields[name], legs[1..]) else None
  }

  /** modifyJSONPath. */
  function Modify(v: Json, legs: Path, mode: Mode, x: Json): Json
    decreases |legs|
  {
    if legs == [] then (if mode.Insert? || mode.Remove? then v else x) else
      var rest, leaf := legs[1..], |legs| == 1;
      match legs[0]
      case Key(name) =>
        if !v.Obj? then v
        else if leaf then
          if mode.Remove? then Obj(v.fields - {name})
          else if (name in v.fields && !mode.Insert?) || (name !in v.fields && !mode.Replace?)
            then Obj(v.fields[name := x])
          else v
        else if name in v.fields then Obj(v.fields[name := Modify(v.fields[name], rest, mode, x)])
        else v
      case Index(i) =>
        if !v.Arr? then
          if i == 0 then (if mode.Remove? && leaf then v else Modify(v, rest, mode, x))
          else if leaf && (mode.Set? || mode.Insert?) then Arr([v, x])
          else v
        else if i >= |v.elems| then
          if leaf && (mode.Set? || mode.Insert?) then Arr(v.elems + [x]) else v
        else if leaf && mode.Remove? then Arr(v.elems[..i] + v.elems[i + 1..])
        else Arr(v.elems[i := Modify(v.elems[i], rest, mode, x)])
  }

  predicate Exists(v: Json, legs: Path) { Lookup(v, legs).Some? }

  lemma UpdateSame(v: Json, name: string)
    requires v.Obj? && name in v.fields
    ensures Obj(v.fields[name := v.fields[name]]) == v
  {
    assert v.fields[name := v.fields[name]] == v.fields;
  }

  lemma ElementSame(v: Json, i: nat)
    requires v.Arr? && i < |v.elems|
    ensures Arr(v.elems[i := v.elems[i]]) == v
  {
    assert v.elems[i := v.elems[i]] == v.elems;
  }

  /** REPLACE changes nothing where there is nothing, and INSERT changes nothing where there is something. */
  lemma {:induction false} ReplaceAndInsert(v: Json, legs: Path, x: Json)
    ensures !Exists(v, legs) ==> Modify(v, legs, Replace, x) == v
    ensures Exists(v, legs) ==> Modify(v, legs, Insert, x) == v
    decreases |legs|
  {
    if legs != [] {
      match legs[0]
      case Key(name) =>
        if v.Obj? && name in v.fields {
          ReplaceAndInsert(v.fields[name], legs[1..], x);
          UpdateSame(v, name);
        }
      case Index(i) =>
        if v.Arr? && i < |v.elems| {
          ReplaceAndInsert(v.elems[i], legs[1..], x);
          ElementSame(v, i);
        } else if !v.Arr? && i == 0 {
          ReplaceAndInsert(v, legs[1..], x);
        }
    }
  }

  /** SET is REPLACE where the path exists and INSERT where it does not. */
  lemma {:induction false} SetIsReplaceOrInsert(v: Json, legs: Path, x: Json)
    ensures Modify(v, legs, Set, x) == if Exists(v, legs) then Modify(v, legs, Replace, x)
            else Modify(v, legs, Insert, x)
    decreases |legs|
  {
    if legs != [] {
      match legs[0]
      case Key(name) =>
        if v.Obj? && name in v.fields { SetIsReplaceOrInsert(v.fields[name], legs[1..], x); }
      case Index(i) =>
        if v.Arr? && i < |v.elems| {
          SetIsReplaceOrInsert(v.elems[i], legs[1..], x);
        } else if !v.Arr? && i == 0 {
          SetIsReplaceOrInsert(v, legs[1..], x);
        }
    }
  }

  // ----- where SET lands ---------------------------------------------------------------------

  /** Setting this path on a value that is not an array turns it into one. */
  predicate BecomesArray(legs: Path, x: Json) {
    if legs == [] then x.Arr?
    else if legs[0] == Index(0) then BecomesArray(legs[1..], x)
    else legs[0].Index? && |legs| == 1
  }

  /** The paths at which SET stores a value that the same path finds again. */
  predicate Lands(v: Json, legs: Path, x: Json)
    decreases |legs|
  {
    if legs == [] then true else
      match legs[0]
      case Key(name) => v.Obj? && (|legs| == 1 || (name in v.fields && Lands(v.fields[name], legs[1..], x)))
      case Index(i) =>
        if v.Arr? then
          if i < |v.elems| then Lands(v.elems[i], legs[1..], x) else |legs| == 1 && i == |v.elems|
        else if i == 0 then !BecomesArray(legs[1..], x) && Lands(v, legs[1..], x)
        else |legs| == 1 && i == 1
  }

  lemma {:induction false} ArrayShape(v: Json, legs: Path, x: Json)
    requires !v.Arr?
    ensures Modify(v, legs, Set, x).Arr? <==> BecomesArray(legs, x)
    decreases |legs|
  {
    if legs != [] && legs[0] == Index(0) { ArrayShape(v, legs[1..], x); }
  }

  /** How many arrays are nested at the front of a value. */
  function Nested(v: Json): nat { if v.Arr? && v.elems != [] then 1 + Nested(v.elems[0]) else 0 }

  predicate AllZero(legs: Path) { forall k :: 0 <= k < |legs| ==> legs[k] == Index(0) }

  lemma {:induction false} ZerosDescend(v: Json, legs: Path)
    requires AllZero(legs) && Lookup(v, legs).Some?
    ensures Nested(Lookup(v, legs).value) <= Nested(v)
    ensures v.Arr? && legs != [] ==> Nested(Lookup(v, legs).value) < Nested(v)
    decreases |legs|
  {
    if legs != [] {
      assert legs[0] == Index(0);
      ZerosDescend(if v.Arr? then v.elems[0] else v, legs[1..]);
    }
  }

  /** A value that became an array is not found again by the path that set it. */
  lemma {:induction false} ArrayIsLost(v: Json, legs: Path, x: Json)
    requires !v.Arr? && BecomesArray(legs, x)
    ensures Lookup(Modify(v, legs, Set, x), [Index(0)] + legs) != Some(x)
    decreases |legs|
  {
    var z := ZeroPrefix(legs);
    SetSkipsZeros(v, legs, x, z);
    if z == |legs| {
      assert AllZero([Index(0)] + legs);
      if Lookup(x, [Index(0)] + legs).Some? { ZerosDescend(x, [Index(0)] + legs); }
    } else {
      assert legs[z..] == [legs[z]];
      assert ([Index(0)] + legs)[1..] == legs;
      ScalarZeros(v, legs, z);
    }
  }

  function ZeroPrefix(legs: Path): (z: nat)
    ensures z <= |legs| && AllZero(legs[..z]) && (z < |legs| ==> legs[z] != Index(0))
  {
    if legs == [] || legs[0] != Index(0) then 0 else
      var rest := ZeroPrefix(legs[1..]);
      assert legs[..1 + rest] == [Index(0)] + legs[1..][..rest];
      1 + rest
  }

  lemma {:induction false} SetSkipsZeros(v: Json, legs: Path, x: Json, z: nat)
    requires !v.Arr? && z <= |legs| && AllZero(legs[..z])
    ensures Modify(v, legs, Set, x) == Modify(v, legs[z..], Set, x)
    ensures BecomesArray(legs, x) == BecomesArray(legs[z..], x)
  {
    if z > 0 {
      assert legs[..z][0] == Index(0);
      assert legs[1..][..z - 1] == legs[..z][1..] && legs[1..][z - 1..] == legs[z..];
      SetSkipsZeros(v, legs[1..], x, z - 1);
    } else {
      assert legs[0..] == legs;
    }
  }

  lemma {:induction false} ScalarZeros(v: Json, legs: Path, z: nat)
    requires !v.Arr? && z < |legs| && AllZero(legs[..z])
    ensures Lookup(v, legs) == Lookup(v, legs[z..])
  {
    if z > 0 {
      assert legs[..z][0] == Index(0);
      assert legs[1..][..z - 1] == legs[..z][1..] && legs[1..][z - 1..] == legs[z..];
      ScalarZeros(v, legs[1..], z - 1);
    } else {
      assert legs[0..] == legs;
    }
  }

  /** Looking up what SET stored finds it exactly where SET lands. */
  lemma {:induction false} SetThenLookup(v: Json, legs: Path, x: Json)
    ensures Lookup(Modify(v, legs, Set, x), legs) == Some(x) <==> Lands(v, legs, x)
    decreases |legs|
  {
    if legs != [] {
      var rest := legs[1..];
      match legs[0]
      case Key(name) =>
        if v.Obj? && name in v.fields { SetThenLookup(v.fields[name], rest, x); }
      case Index(i) =>
        if v.Arr? {
          if i < |v.elems| { SetThenLookup(v.elems[i], rest, x); }
        } else if i == 0 {
          ArrayShape(v, rest, x);
          if BecomesArray(rest, x) {
            assert legs == [Index(0)] + rest;
            ArrayIsLost(v, rest, x);
          } else {
            SetThenLookup(v, rest, x);
          }
        }
    }
  }

  /**
   Both failures occur: setting `$[3]` of `[1]` appends at position 1, and setting `$[0]` of the scalar 1 to `[7]`
   replaces the scalar by the array, whose element 0 is 7.
   */
  lemma SetMisses()
    ensures Modify(Arr([Scalar("1")]), [Index(3)], Set, Scalar("2")) == Arr([Scalar("1"), Scalar("2")])
    ensures Lookup(Modify(Arr([Scalar("1")]), [Index(3)], Set, Scalar("2")), [Index(3)]) == None
    ensures Lookup(Modify(Scalar("1"), [Index(0)], Set, Arr([Scalar("7")])), [Index(0)]) == Some(Scalar("7"))
    ensures !Lands(Arr([Scalar("1")]), [Index(3)], Scalar("2")) && !Lands(Scalar("1"), [Index(0)], Arr([Scalar("7")]))
  {
    SetThenLookup(Arr([Scalar("1")]), [Index(3)], Scalar("2"));
    var x := Arr([Scalar("7")]);
    assert Modify(Scalar("1"), [Index(0)], Set, x) == Modify(Scalar("1"), [Index(0)][1..], Set, x) == x;
    assert Lookup(x, [Index(0)]) == Lookup(Scalar("7"), [Index(0)][1..]);
    SetThenLookup(Scalar("1"), [Index(0)], x);
  }

  // ----- elsewhere ---------------------------------------------------------------------------

  /** Two paths that part ways at different keys of an object or at different elements of an array. */
  predicate PartWays(v: Json, p: Path, q: Path)
    decreases |p|
  {
    && p != [] && q != []
    && match (p[0], q[0])
       case (Key(a), Key(b)) =>
         v.Obj? && (a != b || (a in v.fields && PartWays(v.fields[a], p[1..], q[1..])))
       case (Index(i), Index(j)) =>
         v.Arr? && i < |v.elems| && j < |v.elems| && (i != j || PartWays(v.elems[i], p[1..], q[1..]))
       case _ => false
  }

  /** SET, INSERT and REPLACE leave every other part of the document alone. */
  lemma {:induction false} ModifyElsewhere(v: Json, p: Path, q: Path, mode: Mode, x: Json)
    requires PartWays(v, p, q) && !mode.Remove?
    ensures Lookup(Modify(v, p, mode, x), q) == Lookup(v, q)
    decreases |p|
  {
    match (p[0], q[0])
    case (Key(a), Key(b)) =>
      if a == b && |p| > 1 { ModifyElsewhere(v.fields[a], p[1..], q[1..], mode, x); }
    case (Index(i), Index(j)) =>
      if i == j { ModifyElsewhere(v.elems[i], p[1..], q[1..], mode, x); }
    case _ =>
  }

  /** A path that leads through object keys and array elements only, without taking a scalar for its element 0. */
  predicate Direct(v: Json, p: Path)
    decreases |p|
  {
    p == []
    || match p[0]
       case Key(name) => v.Obj? && name in v.fields && Direct(v.fields[name], p[1..])
       case Index(i) => v.Arr? && i < |v.elems| && Direct(v.elems[i], p[1..])
  }

  /** A modification below a direct path is the modification of the value there. */
  lemma {:induction false} ModifyInside(v: Json, p: Path, q: Path, mode: Mode, x: Json)
    requires Direct(v, p) && q != []
    ensures Lookup(v, p).Some?
    ensures Lookup(Modify(v, p + q, mode, x), p) == Some(Modify(Lookup(v, p).value, q, mode, x))
    decreases |p|
  {
    if p == [] {
      assert p + q == q;
    } else {
      assert (p + q)[1..] == p[1..] + q;
      match p[0]
      case Key(name) => ModifyInside(v.fields[name], p[1..], q, mode, x);
      case Index(i) => ModifyInside(v.elems[i], p[1..], q, mode, x);
    }
  }

  /**
   SET and INSERT beyond the end: an array keeps its elements and gets the value behind them; anything else becomes
   the first element of an array whose second is the value. A missing object key is added to the others.
   */
  lemma SetBeyond(v: Json, p: Path, leg: Leg, mode: Mode, x: Json)
    requires Direct(v, p) && (mode.Set? || mode.Insert?)
    ensures Lookup(v, p).Some?
    ensures var c, r := Lookup(v, p).value, Lookup(Modify(v, p + [leg], mode, x), p);
            && (leg.Index? && c.Arr? && leg.i >= |c.elems| ==> r == Some(Arr(c.elems + [x])))
            && (leg.Index? && !c.Arr? && leg.i > 0 ==> r == Some(Arr([c, x])))
            && (leg.Key? && c.Obj? && leg.name !in c.fields ==> r == Some(Obj(c.fields[leg.name := x])))
  {
    ModifyInside(v, p, [leg], mode, x);
  }

  /** Where a path leads after the removal of another: later elements of the array it was removed from move down. */
  function Shifted(p: Path, q: Path): Path
    decreases |p|
  {
    if p == [] || q == [] then q
    else if p[0] == q[0] then [q[0]] + Shifted(p[1..], q[1..])
    else if p[0].Index? && q[0].Index? && |p| == 1 && p[0].i < q[0].i then [Index(q[0].i - 1)] + q[1..]
    else q
  }

  /** REMOVE leaves every other part of the document alone, up to that shift. */
  lemma {:induction false} RemoveElsewhere(v: Json, p: Path, q: Path, x: Json)
    requires PartWays(v, p, q)
    ensures Lookup(Modify(v, p, Remove, x), Shifted(p, q)) == Lookup(v, q)
    decreases |p|
  {
    if p[0] == q[0] {
      assert Shifted(p, q)[1..] == Shifted(p[1..], q[1..]);
      match p[0]
      case Key(a) => RemoveElsewhere(v.fields[a], p[1..], q[1..], x);
      case Index(i) => RemoveElsewhere(v.elems[i], p[1..], q[1..], x);
    } else if p[0].Index? {
      RemovedElement(v, p, q, x);
    }
  }

  lemma RemovedElement(v: Json, p: Path, q: Path, x: Json)
    requires PartWays(v, p, q) && p[0].Index? && p[0] != q[0]
    ensures Lookup(Modify(v, p, Remove, x), Shifted(p, q)) == Lookup(v, q)
  {
    var i, j := p[0].i, q[0].i;
    if |p| == 1 {
      var left := v.elems[..i] + v.elems[i + 1..];
      assert Modify(v, p, Remove, x) == Arr(left);
      if i < j {
        assert left[j - 1] == v.elems[j];
        assert Shifted(p, q)[1..] == q[1..];
      } else {
        assert left[j] == v.elems[j];
      }
    }
  }

  // ----- REMOVE ------------------------------------------------------------------------------

  lemma {:induction false} RemoveMissing(v: Json, legs: Path, x: Json)
    requires !Exists(v, legs)
    ensures Modify(v, legs, Remove, x) == v
    decreases |legs|
  {
    match legs[0]
    case Key(name) =>
      if v.Obj? && name in v.fields {
        RemoveMissing(v.fields[name], legs[1..], x);
        UpdateSame(v, name);
      } else if v.Obj? {
        assert v.fields - {name} == v.fields;
      }
    case Index(i) =>
      if v.Arr? && i < |v.elems| {
        RemoveMissing(v.elems[i], legs[1..], x);
        ElementSame(v, i);
      } else if !v.Arr? && i == 0 {
        RemoveMissing(v, legs[1..], x);
      }
  }

  lemma {:induction false} RemoveKeepsShape(v: Json, legs: Path, x: Json)
    requires !v.Arr?
    ensures !Modify(v, legs, Remove, x).Arr?
    decreases |legs|
  {
    if |legs| > 1 && legs[0] == Index(0) { RemoveKeepsShape(v, legs[1..], x); }
  }

  /** Removing an existing object key takes it away; removing an array element moves the later ones down by one. */
  lemma {:induction false} RemoveLeaf(v: Json, legs: Path, last: Leg, container: Json, x: Json)
    requires Lookup(v, legs) == Some(container)
    requires (last.Key? && container.Obj? && last.name in container.fields)
             || (last.Index? && container.Arr? && last.i < |container.elems|)
    ensures Lookup(Modify(v, legs + [last], Remove, x), legs)
            == Some(if last.Key? then Obj(container.fields - {last.name})
                    else Arr(container.elems[..last.i] + container.elems[last.i + 1..]))
    decreases |legs|
  {
    if legs != [] {
      assert (legs + [last])[1..] == legs[1..] + [last];
      match legs[0]
      case Key(name) => RemoveLeaf(v.fields[name], legs[1..], last, container, x);
      case Index(i) =>
        if v.Arr? {
          RemoveLeaf(v.elems[i], legs[1..], last, container, x);
        } else {
          RemoveKeepsShape(v, legs[1..] + [last], x);
          RemoveLeaf(v, legs[1..], last, container, x);
        }
    }
  }
}
