/** The order-preserving key encoding of non-unique secondary indexes and the range of a prefix probe. */
module SecondaryKey {
  import opened Wrappers
  import opened Bytes
  import opened Schema

  /** Text bytes with every zero byte followed by 255, ended by two zero bytes, and then `tail`. */
  function Escaped(text: Data, tail: Data): Data {
    if text == [] then [0, 0] + tail
    else if text[0] == 0 then [0, 255] + Escaped(text[1..], tail)
    else [text[0]] + Escaped(text[1..], tail)
  }

  /** The part of one column value, followed by the rest of the key. */
  function Part(v: Value, tail: Data): Data {
    match v
    case Null(_) => [0] + tail
    case Integer(_, n) => if IsInt64(n) then [1] + (SignedInteger(n) + tail) else [1] + tail
    case Text(_, text) => [1] + Escaped(text, tail)
    case _ => [1, 0, 0] + tail
  }

  /** secondaryPart: the escaping loop over the bytes of a text value; other kinds of value have no text. */
  method BuildPart(v: Value) returns (p: Data)
    requires WellTyped(v)
    ensures p == Part(v, [])
  {
    if v.Null? { return [0]; }
    if v.Integer? {
      p := [1] + SignedInteger(v.n);
      assert SignedInteger(v.n) + [] == SignedInteger(v.n);
      return;
    }
    var text := if v.Text? then v.text else [];
    p := [1];
    for i := 0 to |text|
      invariant p + Escaped(text[i..], []) == [1] + Escaped(text, [])
    {
      EscapedStep(text, i, p);
      p := p + [text[i]];
      if text[i] == 0 { p := p + [255]; }
    }
    p := p + [0, 0];
    assert text[|text|..] == [];
    assert Escaped([], []) == [0, 0];
  }

  lemma EscapedStep(text: Data, i: nat, p: Data)
    requires i < |text|
    ensures p + Escaped(text[i..], []) == (if text[i] == 0 then p + [text[i]] + [255] else p + [text[i]])
            + Escaped(text[i + 1..], [])
  {
    var rest := Escaped(text[i + 1..], []);
    assert text[i..][1..] == text[i + 1..];
    if text[i] == 0 {
      assert p + ([0, 255] + rest) == p + [0] + [255] + rest;
    } else {
      assert p + ([text[i]] + rest) == p + [text[i]] + rest;
    }
  }

  /** Column order: NULL first, then numbers by value and text bytewise. */
  predicate ValueLess(a: Value, b: Value) {
    if b.Null? then false
    else if a.Null? then true
    else if a.Integer? && b.Integer? then a.n < b.n
    else a.Text? && b.Text? && Less(a.text, b.text)
  }

  /** Values an indexed column of one type can hold. */
  predicate Indexable(t: DataType, v: Value) {
    v.typ == t && WellTyped(v) && (IsIntegerType(t) || IsTextType(t))
  }

  lemma {:induction false} EscapedOrder(s: Data, t: Data, x: Data, y: Data)
    requires Less(s, t)
    ensures Less(Escaped(s, x), Escaped(t, y))
  {
    if s == [] {
      if t[0] == 0 {
        LessCommonPrefix([0], [0] + x, [255] + Escaped(t[1..], y));
        assert Escaped(s, x) == [0] + ([0] + x);
        assert Escaped(t, y) == [0] + ([255] + Escaped(t[1..], y));
      }
    } else if s[0] == t[0] {
      EscapedOrder(s[1..], t[1..], x, y);
      var head: Data := if s[0] == 0 then [0, 255] else [s[0]];
      LessCommonPrefix(head, Escaped(s[1..], x), Escaped(t[1..], y));
    }
  }

  /** Escaped text is prefix-free: one is a prefix of another only when the texts agree. */
  lemma {:induction false} EscapedPrefix(s: Data, t: Data, x: Data, y: Data)
    ensures Escaped(s, x) <= Escaped(t, y) <==> s == t && x <= y
  {
    var left, right := Escaped(s, x), Escaped(t, y);
    if s == [] && t == [] {
      SamePrefix([0, 0], x, y);
    } else if s == [] || t == [] {
      assert left[0] != right[0] || left[1] != right[1];
    } else if s[0] != t[0] {
      assert left[0] == s[0] && right[0] == t[0];
    } else {
      EscapedPrefix(s[1..], t[1..], x, y);
      SamePrefix(if s[0] == 0 then [0, 255] else [s[0]], Escaped(s[1..], x), Escaped(t[1..], y));
      assert s == [s[0]] + s[1..] && t == [t[0]] + t[1..];
    }
  }

  lemma SamePrefix(p: Data, x: Data, y: Data)
    ensures p + x <= p + y <==> x <= y
  {
    if p + x <= p + y {
      assert x == (p + x)[|p|..] && y == (p + y)[|p|..];
      forall i | 0 <= i < |x| ensures x[i] == y[i] { assert (p + x)[|p| + i] == (p + y)[|p| + i]; }
    }
  }

  /** The encoding keeps the column order whatever bytes follow either part. */
  lemma PartOrder(t: DataType, a: Value, b: Value, x: Data, y: Data)
    requires Indexable(t, a) && Indexable(t, b)
    requires ValueLess(a, b)
    ensures Less(Part(a, x), Part(b, y))
  {
    if a.Null? {
    } else if a.Integer? {
      var ka, kb := SignedInteger(a.n), SignedInteger(b.n);
      Pow256Eight();
      BigEndianOrder(a.n - MIN_INT64, b.n - MIN_INT64, 8);
      LessExtend(ka, kb, x, y);
      LessCommonPrefix([1], ka + x, kb + y);
    } else {
      EscapedOrder(a.text, b.text, x, y);
      LessCommonPrefix([1], Escaped(a.text, x), Escaped(b.text, y));
    }
  }

  /** No part is a prefix of a different part of the same column. */
  lemma PartPrefixFree(t: DataType, a: Value, b: Value, x: Data, y: Data)
    requires Indexable(t, a) && Indexable(t, b)
    ensures Part(a, x) <= Part(b, y) <==> a == b && x <= y
  {
    if a.Null? != b.Null? {
      assert Part(a, x)[0] != Part(b, y)[0];
    } else if a.Null? {
      SamePrefix([0], x, y);
    } else if a.Integer? {
      var ka, kb := SignedInteger(a.n), SignedInteger(b.n);
      SamePrefix([1], ka + x, kb + y);
      SamePrefix(ka, x, y);
      SignedIntegerOrder(a.n, b.n);
      if ka + x <= kb + y { assert ka == (ka + x)[..8] == (kb + y)[..8] == kb; }
    } else {
      SamePrefix([1], Escaped(a.text, x), Escaped(b.text, y));
      EscapedPrefix(a.text, b.text, x, y);
    }
  }

  // ----- composite entries -------------------------------------------------------------------

  /** The parts of a list of column values, followed by the owner of the entry. */
  function Entry(values: seq<Value>, owner: Data): Data {
    if values == [] then owner else Part(values[0], Entry(values[1..], owner))
  }

  predicate IndexableAll(types: seq<DataType>, values: seq<Value>) {
    |values| == |types| && forall i :: 0 <= i < |values| ==> Indexable(types[i], values[i])
  }

  lemma HeadAndTail<T>(a: seq<T>, b: seq<T>, n: nat)
    requires 0 < n <= |a| && n <= |b|
    ensures a[..n] == b[..n] <==> a[0] == b[0] && a[1..][..n - 1] == b[1..][..n - 1]
    ensures a[1..][..n - 1] == a[..n][1..]
    ensures n == |b| ==> b[..n] == b && b[1..][..n - 1] == b[1..]
  {
    assert a[..n] == [a[0]] + a[1..][..n - 1] && b[..n] == [b[0]] + b[1..][..n - 1];
  }

  /**
   A probe over leading columns is a byte prefix of an entry exactly when those columns equal the probe,
   whatever the remaining columns and the owner are.
   */
  lemma {:induction false} ProbePrefix(types: seq<DataType>, probe: seq<Value>, values: seq<Value>, owner: Data)
    requires IndexableAll(types, values)
    requires |probe| <= |types| && IndexableAll(types[..|probe|], probe)
    ensures Entry(probe, []) <= Entry(values, owner) <==> values[..|probe|] == probe
  {
    if probe != [] {
      PartPrefixFree(types[0], probe[0], values[0], Entry(probe[1..], []), Entry(values[1..], owner));
      HeadAndTail(types, types, |probe|);
      ProbePrefix(types[1..], probe[1..], values[1..], owner);
      HeadAndTail(values, probe, |probe|);
    }
  }

  /** Equal entries carry equal column values and equal owners: a composite key decodes uniquely. */
  lemma {:induction false} EntryInjective(types: seq<DataType>, a: seq<Value>, b: seq<Value>, x: Data, y: Data)
    requires IndexableAll(types, a) && IndexableAll(types, b)
    requires Entry(a, x) == Entry(b, y)
    ensures a == b && x == y
  {
    if types != [] {
      PartPrefixFree(types[0], a[0], b[0], Entry(a[1..], x), Entry(b[1..], y));
      PartPrefixFree(types[0], b[0], a[0], Entry(b[1..], y), Entry(a[1..], x));
      EntryInjective(types[1..], a[1..], b[1..], x, y);
      assert a == [a[0]] + a[1..] && b == [b[0]] + b[1..];
    }
  }

  /** And only then: parts of different values compare exactly as the column does, NULL below everything. */
  lemma PartOrderIff(t: DataType, a: Value, b: Value, x: Data, y: Data)
    requires Indexable(t, a) && Indexable(t, b) && a != b
    ensures Less(Part(a, x), Part(b, y)) <==>
            !b.Null? && (a.Null? || (a.Integer? && a.n < b.n) || (a.Text? && Less(a.text, b.text)))
  {
    if ValueLess(a, b) {
      PartOrder(t, a, b, x, y);
    } else {
      if a.Text? && b.Text? { LessTotal(a.text, b.text); }
      PartOrder(t, b, a, y, x);
      LessAsymmetric(Part(b, y), Part(a, x));
    }
  }

  /** The first differing column decides the order of two entries, owners included. */
  lemma {:induction false} EntryOrder(types: seq<DataType>, a: seq<Value>, b: seq<Value>, i: nat, x: Data, y: Data)
    requires IndexableAll(types, a) && IndexableAll(types, b)
    requires i < |types| && a[..i] == b[..i] && ValueLess(a[i], b[i])
    ensures Less(Entry(a, x), Entry(b, y))
  {
    if i == 0 {
      PartOrder(types[0], a[0], b[0], Entry(a[1..], x), Entry(b[1..], y));
    } else {
      assert a[0] == a[..i][0] == b[..i][0] == b[0];
      assert a[1..][..i - 1] == a[..i][1..] == b[..i][1..] == b[1..][..i - 1];
      EntryOrder(types[1..], a[1..], b[1..], i - 1, x, y);
      PartSameHead(types[0], a[0], Entry(a[1..], x), Entry(b[1..], y));
    }
  }

  /** A shared part leaves the order to what follows it. */
  lemma PartSameHead(t: DataType, v: Value, x: Data, y: Data)
    requires Indexable(t, v) && Less(x, y)
    ensures Less(Part(v, x), Part(v, y))
  {
    if v.Null? {
      LessCommonPrefix([0], x, y);
    } else if v.Integer? {
      LessCommonPrefix(SignedInteger(v.n), x, y);
      LessCommonPrefix([1], SignedInteger(v.n) + x, SignedInteger(v.n) + y);
    } else {
      EscapedSameText(v.text, x, y);
      LessCommonPrefix([1], Escaped(v.text, x), Escaped(v.text, y));
    }
  }

  lemma {:induction false} EscapedSameText(s: Data, x: Data, y: Data)
    requires Less(x, y)
    ensures Less(Escaped(s, x), Escaped(s, y))
  {
    if s == [] {
      LessCommonPrefix([0, 0], x, y);
    } else {
      EscapedSameText(s[1..], x, y);
      LessCommonPrefix(if s[0] == 0 then [0, 255] else [s[0]], Escaped(s[1..], x), Escaped(s[1..], y));
    }
  }

  // ----- the successor of a prefix -----------------------------------------------------------

  /** The least byte string above every string with this prefix; None when there is none. */
  function Successor(p: Data): Option<Data> {
    if p == [] then None
    else if p[|p| - 1] != 255 then Some(p[..|p| - 1] + [p[|p| - 1] + 1])
    else Successor(p[..|p| - 1])
  }

  /** prefixSuccessor: the loop from the last byte. */
  method PrefixSuccessor(p: Data) returns (r: Option<Data>)
    ensures r == Successor(p)
  {
    var i := |p|;
    assert p[..i] == p;
    while i > 0
      invariant 0 <= i <= |p|
      invariant Successor(p[..i]) == Successor(p)
    {
      i := i - 1;
      assert p[..i + 1][..i] == p[..i];
      if p[i] != 255 { return Some(p[..i] + [p[i] + 1]); }
    }
    r := None;
  }

  predicate InPrefixRange(p: Data, k: Data) {
    AtMost(p, k) && (Successor(p).Some? ==> Less(k, Successor(p).value))
  }

  lemma {:induction false} PrefixAtMost(p: Data, k: Data)
    requires p <= k
    ensures AtMost(p, k)
  {
    if p == [] {
    } else {
      PrefixAtMost(p[1..], k[1..]);
      if p[1..] == k[1..] { assert p == [p[0]] + p[1..] && k == [k[0]] + k[1..]; }
    }
  }

  lemma PrefixRangeStep(q: Data, c: byte, k: Data)
    requires c < 255
    ensures AtMost(q + [c], k) && Less(k, q + [c + 1]) <==> q + [c] <= k
  {
    if q + [c] <= k {
      PrefixAtMost(q + [c], k);
      var z := k[|q|..];
      assert k == q + z && z[0] == c;
      LessCommonPrefix(q, z, [c + 1]);
    } else if AtMost(q + [c], k) && Less(k, q + [c + 1]) {
      if q <= k {
        var z := k[|q|..];
        assert k == q + z;
        LessCommonPrefix(q, z, [c + 1]);
        LessCommonPrefix(q, [c], z);
      } else {
        LessTotal(q, k);
        if Less(q, k) {
          LessExtend(q, k, [c + 1], []);
          assert k + [] == k;
          LessAsymmetric(k, q + [c + 1]);
        } else {
          PrefixAtMost(q, q + [c]);
          LessTransitive(k, q, q + [c]);
          LessAsymmetric(k, q + [c]);
          if q + [c] == k { LessIrreflexive(k); }
        }
        assert false;
      }
    }
  }

  /** A trailing 255 has no larger byte, so the range of the shorter prefix already ends right. */
  lemma PrefixRangeCarry(q: Data, k: Data)
    requires q <= k && AtMost(q + [255], k)
    ensures q + [255] <= k
  {
    var z := k[|q|..];
    assert k == q + z;
    LessCommonPrefix(q, [255], z);
  }

  /** The half-open range from a prefix to its successor holds exactly the strings with that prefix. */
  lemma {:induction false} PrefixRange(p: Data, k: Data)
    ensures InPrefixRange(p, k) <==> p <= k
  {
    if p == [] {
      PrefixAtMost(p, k);
    } else {
      var q, c := p[..|p| - 1], p[|p| - 1];
      assert p == q + [c];
      if c != 255 {
        PrefixRangeStep(q, c, k);
      } else {
        PrefixRange(q, k);
        PrefixAtMost(q, p);
        if p <= k {
          PrefixAtMost(p, k);
        } else if InPrefixRange(p, k) {
          if p != k { LessTransitive(q, p, k); }
          PrefixRangeCarry(q, k);
        }
      }
    }
  }
}
