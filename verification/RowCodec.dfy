/** The compact row format: magic, column count, NULL bitmap, then the non-NULL values in column order. */
module RowCodec {
  import opened Wrappers
  import opened Bytes
  import opened Schema

  const MAGIC: Data := [71, 66, 82, 1]
  const MAX_VALUE_BYTES := 48 * 1024

  datatype CodecError = InvalidEncoding | ResourceLimit

  // ----- variable-length integers ------------------------------------------------------------

  /** binary.AppendUvarint, followed by the rest of the record. */
  function Uvarint(n: nat, tail: Data): (r: Data)
    ensures |r| > |tail|
  {
    if n < 128 then [n] + tail else [n % 128 + 128] + Uvarint(n / 128, tail)
  }

  /** binary.Uvarint after i bytes: the value and what follows it; None when it is cut off or too long. */
  function ReadUvarint(s: Data, i: nat): (r: Option<(nat, Data)>)
    ensures r.Some? ==> |r.value.1| < |s|
    decreases |s|
  {
    if s == [] || i >= 10 then None
    else if s[0] < 128 then
      if i == 9 && s[0] > 1 then None else Some((s[0], s[1..]))
    else
      match ReadUvarint(s[1..], i + 1)
      case None => None
      case Some((v, rest)) => Some((s[0] - 128 + 128 * v, rest))
  }

  /** How much is left of 64 bits after i groups of seven. */
  function Room(i: nat): nat
    requires i <= 9
    decreases 9 - i
  {
    if i == 9 then 2 else 128 * Room(i + 1)
  }

  lemma RoomIsTwo64()
    ensures Room(0) == TWO_64
  {
    assert Room(8) == 256;
    assert Room(7) == 32768;
    assert Room(6) == 0x40_0000;
    assert Room(5) == 0x2000_0000;
    assert Room(4) == 0x10_0000_0000;
    assert Room(3) == 0x800_0000_0000;
    assert Room(2) == 0x4_0000_0000_0000;
    assert Room(1) == 0x200_0000_0000_0000;
  }

  lemma {:induction false} UvarintRoundTrip(n: nat, tail: Data, i: nat)
    requires i <= 9 && n < Room(i)
    ensures ReadUvarint(Uvarint(n, tail), i) == Some((n, tail))
    decreases n
  {
    if n >= 128 {
      UvarintRoundTrip(n / 128, tail, i + 1);
      assert Uvarint(n, tail)[1..] == Uvarint(n / 128, tail);
    } else {
      assert Uvarint(n, tail)[1..] == tail;
    }
  }

  /** Zigzag: small magnitudes of either sign become small numbers. */
  function Zigzag(n: int): nat { if n >= 0 then 2 * n else -2 * n - 1 }

  function Unzigzag(u: nat): int { if u % 2 == 0 then u / 2 else -(u / 2) - 1 }

  // ----- the NULL bitmap ---------------------------------------------------------------------

  function Pow2(k: nat): (r: nat)
    requires k < 8
    ensures r in {1, 2, 4, 8, 16, 32, 64, 128}
  {
    if k == 0 then 1 else if k == 1 then 2 else if k == 2 then 4 else if k == 3 then 8
    else if k == 4 then 16 else if k == 5 then 32 else if k == 6 then 64 else 128
  }

  predicate BitOf(b: byte, k: nat)
    requires k < 8
  {
    (if k == 0 then b else if k == 1 then b / 2 else if k == 2 then b / 4 else if k == 3 then b / 8
     else if k == 4 then b / 16 else if k == 5 then b / 32 else if k == 6 then b / 64 else b / 128) % 2 == 1
  }

  /** `b |= 1 << k`. */
  function SetBit(b: byte, k: nat): byte
    requires k < 8
  {
    if BitOf(b, k) then b else Added(b, k)
  }

  function Added(b: byte, k: nat): byte
    requires k < 8 && !BitOf(b, k)
  {
    assert b + Pow2(k) < 256 by { UnsetRoom(b, k); }
    b + Pow2(k)
  }

  lemma UnsetRoom(b: byte, k: nat)
    requires k < 8 && !BitOf(b, k)
    ensures b + Pow2(k) < 256
  {
  }

  function NullBit(row: Row, n: nat, i: nat): nat { if i < n && i < |row| && row[i].Null? then 1 else 0 }

  /** Byte j of the bitmap when the first n values have been looked at. */
  function BitmapByte(row: Row, n: nat, j: nat): (b: byte) {
    NullBit(row, n, 8 * j) + 2 * NullBit(row, n, 8 * j + 1) + 4 * NullBit(row, n, 8 * j + 2)
      + 8 * NullBit(row, n, 8 * j + 3)
    + 16 * NullBit(row, n, 8 * j + 4) + 32 * NullBit(row, n, 8 * j + 5) + 64 * NullBit(row, n, 8 * j + 6)
      + 128 * NullBit(row, n, 8 * j + 7)
  }

  function BitmapBytes(n: nat): nat { (n + 7) / 8 }

  function Bitmap(row: Row, n: nat): (r: Data)
    ensures |r| == BitmapBytes(|row|)
  {
    seq(BitmapBytes(|row|), j requires 0 <= j < BitmapBytes(|row|) => BitmapByte(row, n, j))
  }

  lemma LowBits(b: nat, b0: nat, b1: nat, b2: nat, b3: nat, high: nat)
    requires b0 < 2 && b1 < 2 && b2 < 2 && b3 < 2 && b == b0 + 2 * b1 + 4 * b2 + 8 * b3 + 16 * high
    ensures b % 2 == b0 && b / 2 % 2 == b1 && b / 4 % 2 == b2 && b / 8 % 2 == b3
  {
    assert b / 2 == b1 + 2 * (b2 + 2 * b3 + 4 * high);
    assert b / 4 == b2 + 2 * (b3 + 2 * high);
    assert b / 8 == b3 + 2 * high;
  }

  lemma HighBits(b: nat, low: nat, b4: nat, b5: nat, b6: nat, b7: nat)
    requires low < 16 && b4 < 2 && b5 < 2 && b6 < 2 && b7 < 2 && b == low + 16 * b4 + 32 * b5 + 64 * b6 + 128 * b7
    ensures b / 16 % 2 == b4 && b / 32 % 2 == b5 && b / 64 % 2 == b6 && b / 128 % 2 == b7
  {
    assert b / 16 == b4 + 2 * (b5 + 2 * b6 + 4 * b7);
    assert b / 32 == b5 + 2 * (b6 + 2 * b7);
    assert b / 64 == b6 + 2 * b7;
  }

  lemma BitmapBit(row: Row, n: nat, j: nat, k: nat)
    requires k < 8
    ensures BitOf(BitmapByte(row, n, j), k) <==> NullBit(row, n, 8 * j + k) == 1
  {
    var b0, b1, b2, b3 := NullBit(row, n, 8 * j), NullBit(row, n, 8 * j + 1), NullBit(row, n, 8 * j + 2),
      NullBit(row, n, 8 * j + 3);
    var b4, b5, b6, b7 := NullBit(row, n, 8 * j + 4), NullBit(row, n, 8 * j + 5), NullBit(row, n, 8 * j + 6),
      NullBit(row, n, 8 * j + 7);
    var b := BitmapByte(row, n, j);
    LowBits(b, b0, b1, b2, b3, b4 + 2 * b5 + 4 * b6 + 8 * b7);
    HighBits(b, b0 + 2 * b1 + 4 * b2 + 8 * b3, b4, b5, b6, b7);
  }

  /** Setting the bit of value i turns the bitmap of i values into the bitmap of i + 1 values. */
  lemma BitmapStep(row: Row, i: nat)
    requires i < |row|
    ensures Bitmap(row, i + 1) == if row[i].Null? then Bitmap(row, i)[i / 8 := SetBit(Bitmap(row, i)[i / 8], i % 8)]
            else Bitmap(row, i)
  {
    var before, after := Bitmap(row, i), Bitmap(row, i + 1);
    forall m | 0 <= m < |before|
      ensures after[m] == if m == i / 8 && row[i].Null? then before[m] + Pow2(i % 8) else before[m]
    {
      BitmapByteStep(row, i, m);
    }
    NotYetSet(row, i);
  }

  lemma NotYetSet(row: Row, i: nat)
    requires i < |row|
    ensures !BitOf(Bitmap(row, i)[i / 8], i % 8)
  {
    BitmapBit(row, i, i / 8, i % 8);
    assert i == 8 * (i / 8) + i % 8;
  }

  lemma BitmapByteStep(row: Row, i: nat, m: nat)
    requires i < |row|
    ensures BitmapByte(row, i + 1, m) == if m == i / 8 && row[i].Null? then BitmapByte(row, i, m) + Pow2(i % 8)
            else BitmapByte(row, i, m)
  {
    var k := i % 8;
    assert forall q :: q != i ==> NullBit(row, i + 1, q) == NullBit(row, i, q);
    assert NullBit(row, i, i) == 0;
    if m == i / 8 {
      assert i == 8 * m + k;
      assert k == 0 || k == 1 || k == 2 || k == 3 || k == 4 || k == 5 || k == 6 || k == 7;
    } else {
      assert i < 8 * m || i > 8 * m + 7;
    }
  }

  // ----- one value ---------------------------------------------------------------------------

  /** The bytes of a non-NULL value, followed by the rest of the record. */
  function Cell(v: Value, tail: Data): Data
    requires WellTyped(v) && !v.Null?
  {
    match v
    case Integer(_, n) => Uvarint(Zigzag(n), tail)
    case Float(_, bits) => LittleEndian(bits, 8) + tail
    case Boolean(_, b) => [if b then 1 else 0] + tail
    case Text(_, text) => Uvarint(|text|, text + tail)
    case Date(_, stamp) => Uvarint(|stamp|, stamp + tail)
  }

  /** sqlRowReader.blob: a length and that many bytes. */
  function ReadBlob(s: Data): (r: Option<(Data, Data)>)
    ensures r.Some? ==> |r.value.1| < |s|
  {
    match ReadUvarint(s, 0)
    case None => None
    case Some((n, rest)) => if n > |rest| then None else Some((rest[..n], rest[n..]))
  }

  /** One value of a column's type; `keep` is whether a text has to be materialized. */
  function ReadCell(typ: DataType, s: Data, keep: bool, dateOk: Data -> bool): (r: Option<(Value, Data)>)
    ensures r.Some? ==> |r.value.1| < |s| && r.value.0.typ == typ && !r.value.0.Null?
  {
    match typ
    case TypeInt => ReadInteger(typ, s)
    case TypeBigInt => ReadInteger(typ, s)
    case TypeFloat => ReadFloat(typ, s)
    case TypeDouble => ReadFloat(typ, s)
    case TypeBoolean => if s == [] || s[0] > 1 then None else Some((Boolean(typ, s[0] == 1), s[1..]))
    case TypeDecimal => ReadText(typ, s, keep)
    case TypeText => ReadText(typ, s, keep)
    case TypeVarchar => ReadText(typ, s, keep)
    case TypeDate => ReadDate(typ, s, dateOk)
    case TypeDateTime => ReadDate(typ, s, dateOk)
  }

  function ReadInteger(typ: DataType, s: Data): (r: Option<(Value, Data)>)
    ensures r.Some? ==> |r.value.1| < |s| && r.value.0.typ == typ && r.value.0.Integer?
  {
    match ReadUvarint(s, 0)
    case None => None
    case Some((u, rest)) => Some((Integer(typ, Unzigzag(u)), rest))
  }

  function ReadFloat(typ: DataType, s: Data): (r: Option<(Value, Data)>)
    ensures r.Some? ==> |r.value.1| < |s| && r.value.0.typ == typ && r.value.0.Float?
  {
    if |s| < 8 then None else Some((Float(typ, FromLittleEndian(s[..8])), s[8..]))
  }

  function ReadText(typ: DataType, s: Data, keep: bool): (r: Option<(Value, Data)>)
    ensures r.Some? ==> |r.value.1| < |s| && r.value.0.typ == typ && r.value.0.Text?
  {
    match ReadBlob(s)
    case None => None
    case Some((b, rest)) => Some((Text(typ, if keep then b else []), rest))
  }

  function ReadDate(typ: DataType, s: Data, dateOk: Data -> bool): (r: Option<(Value, Data)>)
    ensures r.Some? ==> |r.value.1| < |s| && r.value.0.typ == typ && r.value.0.Date?
  {
    match ReadBlob(s)
    case None => None
    case Some((b, rest)) => if dateOk(b) then Some((Date(typ, b), rest)) else None
  }

  /** Dates carry a binary form that time.UnmarshalBinary accepts, and lengths fit 64 bits. */
  predicate Storable(v: Value, dateOk: Data -> bool) {
    WellTyped(v) && (v.Date? ==> dateOk(v.stamp) && |v.stamp| < TWO_64) && (v.Text? ==> |v.text| < TWO_64)
  }

  function Kept(v: Value, keep: bool): Value { if v.Text? && !keep then Text(v.typ, []) else v }

  lemma BlobRoundTrip(b: Data, tail: Data)
    requires |b| < TWO_64
    ensures ReadBlob(Uvarint(|b|, b + tail)) == Some((b, tail))
  {
    RoomIsTwo64();
    UvarintRoundTrip(|b|, b + tail, 0);
    assert (b + tail)[..|b|] == b && (b + tail)[|b|..] == tail;
  }

  lemma FloatRoundTrip(bits: nat, tail: Data)
    requires bits < TWO_64
    ensures var s := LittleEndian(bits, 8) + tail;
            FromLittleEndian(s[..8]) == bits && s[8..] == tail
  {
    Pow256Eight();
    LittleEndianRoundTrip(bits, 8);
    assert (LittleEndian(bits, 8) + tail)[..8] == LittleEndian(bits, 8);
  }

  /** Reading a cell gives back the value and leaves exactly what followed it. */
  lemma CellRoundTrip(v: Value, tail: Data, keep: bool, dateOk: Data -> bool)
    requires Storable(v, dateOk) && !v.Null?
    ensures ReadCell(v.typ, Cell(v, tail), keep, dateOk) == Some((Kept(v, keep), tail))
  {
    match v
    case Integer(_, n) =>
      RoomIsTwo64();
      UvarintRoundTrip(Zigzag(n), tail, 0);
    case Float(_, bits) => FloatRoundTrip(bits, tail);
    case Boolean(_, b) =>
      assert ([if b then 1 else 0] + tail)[1..] == tail;
    case Text(_, text) => BlobRoundTrip(text, tail);
    case Date(_, stamp) => BlobRoundTrip(stamp, tail);
  }

  // ----- whole rows --------------------------------------------------------------------------

  predicate WellTypedRow(row: Row) { forall i :: 0 <= i < |row| ==> WellTyped(row[i]) }

  /** The cells of the values from i on, followed by `tail`. */
  function Cells(row: Row, i: nat, tail: Data): Data
    requires i <= |row| && WellTypedRow(row)
    decreases |row| - i
  {
    if i == |row| then tail
    else if row[i].Null? then Cells(row, i + 1, tail)
    else Cell(row[i], Cells(row, i + 1, tail))
  }

  function Layout(row: Row, tail: Data): Data
    requires WellTypedRow(row)
  {
    MAGIC + Uvarint(|row|, Bitmap(row, |row|) + Cells(row, 0, tail))
  }

  /** The fixed part of a record for n columns. */
  function HeaderBytes(n: nat): nat { |MAGIC| + |Uvarint(n, [])| + BitmapBytes(n) }

  /** The first error from value i on, when `size` bytes have been produced so far. */
  function FirstError(columns: seq<Column>, row: Row, i: nat, size: nat): Option<CodecError>
    requires i <= |row| == |columns| && WellTypedRow(row)
    decreases |row| - i
  {
    if i == |row| then None
    else
      var v := row[i];
      if v.typ != columns[i].typ then Some(InvalidEncoding)
      else if v.Null? then FirstError(columns, row, i + 1, size)
      else if v.Text? && |v.text| > MAX_VALUE_BYTES then Some(ResourceLimit)
      else
        var grown := size + |Cell(v, [])|;
        if grown > MAX_VALUE_BYTES then Some(ResourceLimit) else FirstError(columns, row, i + 1, grown)
  }

  function Encode(columns: seq<Column>, row: Row): Result<Data, CodecError>
    requires WellTypedRow(row)
  {
    if |row| != |columns| then Err(InvalidEncoding)
    else match FirstError(columns, row, 0, HeaderBytes(|row|))
      case Some(e) => Err(e)
      case None => Ok(Layout(row, []))
  }

  lemma {:induction false} UvarintAppend(n: nat, a: Data, b: Data)
    ensures Uvarint(n, a + b) == Uvarint(n, a) + b
  {
    if n < 128 {
      assert [n] + (a + b) == ([n] + a) + b;
    } else {
      UvarintAppend(n / 128, a, b);
      assert [n % 128 + 128] + (Uvarint(n / 128, a) + b) == ([n % 128 + 128] + Uvarint(n / 128, a)) + b;
    }
  }

  lemma CellAppend(v: Value, tail: Data)
    requires WellTyped(v) && !v.Null?
    ensures Cell(v, tail) == Cell(v, []) + tail
  {
    match v
    case Integer(_, n) => UvarintAppend(Zigzag(n), [], tail); assert [] + tail == tail;
    case Float(_, bits) => assert LittleEndian(bits, 8) + [] == LittleEndian(bits, 8);
    case Boolean(_, b) =>
    case Text(_, text) => UvarintAppend(|text|, text, tail); assert text + [] == text;
    case Date(_, stamp) => UvarintAppend(|stamp|, stamp, tail); assert stamp + [] == stamp;
  }

  /** The buffer after the first i values: header, bitmap so far, and the cells so far. */
  ghost predicate Partial(row: Row, i: nat, out: Data, nulls: Data, body: Data)
    requires i <= |row| && WellTypedRow(row)
  {
    && out == MAGIC + Uvarint(|row|, []) + nulls + body
    && nulls == Bitmap(row, i)
    && body + Cells(row, i, []) == Cells(row, 0, [])
  }

  function Zeros(n: nat): (r: Data)
    ensures |r| == n && forall j :: 0 <= j < n ==> r[j] == 0
  {
    seq(n, _ => 0)
  }

  lemma BitmapStart(row: Row)
    ensures Bitmap(row, 0) == Zeros(BitmapBytes(|row|))
  {
  }

  lemma PartialStart(row: Row, head: Data)
    requires WellTypedRow(row) && head == MAGIC + Uvarint(|row|, [])
    ensures Partial(row, 0, head + Zeros(BitmapBytes(|row|)), Bitmap(row, 0), [])
  {
    BitmapStart(row);
    var out := head + Bitmap(row, 0);
    assert out + [] == out;
    assert [] + Cells(row, 0, []) == Cells(row, 0, []);
  }

  lemma PartialNull(row: Row, i: nat, out: Data, nulls: Data, body: Data, pos: nat)
    requires i < |row| && WellTypedRow(row) && row[i].Null? && Partial(row, i, out, nulls, body)
    requires pos == |MAGIC| + |Uvarint(|row|, [])| + i / 8
    ensures pos < |out|
    ensures Partial(row, i + 1, out[pos := SetBit(out[pos], i % 8)], Bitmap(row, i + 1), body)
  {
    var b := SetBit(nulls[i / 8], i % 8);
    BufferSet(MAGIC + Uvarint(|row|, []), nulls, body, i / 8, b);
    assert Bitmap(row, i + 1) == nulls[i / 8 := b] by { BitmapStep(row, i); }
    assert Cells(row, i, []) == Cells(row, i + 1, []);
  }

  lemma PartialCell(row: Row, i: nat, out: Data, nulls: Data, body: Data)
    requires i < |row| && WellTypedRow(row) && !row[i].Null? && Partial(row, i, out, nulls, body)
    ensures Partial(row, i + 1, out + Cell(row[i], []), Bitmap(row, i + 1), body + Cell(row[i], []))
  {
    BitmapStep(row, i);
    CellAppend(row[i], Cells(row, i + 1, []));
    BufferAppend(MAGIC + Uvarint(|row|, []), nulls, body, Cell(row[i], []), Cells(row, i + 1, []));
  }

  lemma PartialEnd(row: Row, out: Data, nulls: Data, body: Data)
    requires WellTypedRow(row) && Partial(row, |row|, out, nulls, body)
    ensures out == Layout(row, [])
  {
    assert body + [] == body;
    LayoutParts(row, nulls, body);
  }

  /** The part of the loop body that changes the buffer: a bit for a NULL, a cell for anything else. */
  method PutValue(row: Row, i: nat, out: Data, nullStart: nat, ghost body: Data) returns (next: Data, ghost grown: Data)
    requires i < |row| && WellTypedRow(row) && Partial(row, i, out, Bitmap(row, i), body)
    requires nullStart == |MAGIC| + |Uvarint(|row|, [])|
    ensures Partial(row, i + 1, next, Bitmap(row, i + 1), grown)
    ensures |next| == |out| + if row[i].Null? then 0 else |Cell(row[i], [])|
  {
    var v := row[i];
    if v.Null? {
      PartialNull(row, i, out, Bitmap(row, i), body, nullStart + i / 8);
      return out[nullStart + i / 8 := SetBit(out[nullStart + i / 8], i % 8)], body;
    }
    PartialCell(row, i, out, Bitmap(row, i), body);
    return out + Cell(v, []), body + Cell(v, []);
  }

  /** One turn of the loop: the checks around writing value i, in the order of the source. */
  method AppendValue(columns: seq<Column>, row: Row, i: nat, out: Data, nullStart: nat, ghost body: Data)
    returns (e: Option<CodecError>, next: Data, ghost grown: Data)
    requires i < |row| == |columns| && WellTypedRow(row) && Partial(row, i, out, Bitmap(row, i), body)
    requires nullStart == |MAGIC| + |Uvarint(|row|, [])|
    ensures e.Some? ==> FirstError(columns, row, i, |out|) == e
    ensures e.None? ==> Partial(row, i + 1, next, Bitmap(row, i + 1), grown)
    ensures e.None? ==> FirstError(columns, row, i, |out|) == FirstError(columns, row, i + 1, |next|)
  {
    var v := row[i];
    if v.typ != columns[i].typ { return Some(InvalidEncoding), out, body; }
    if v.Text? && |v.text| > MAX_VALUE_BYTES { return Some(ResourceLimit), out, body; }
    next, grown := PutValue(row, i, out, nullStart, body);
    e := if !v.Null? && |next| > MAX_VALUE_BYTES then Some(ResourceLimit) else None;
  }

  /** encodeSQLRow: bits set in the bitmap and cells appended behind it, with the size checked cell by cell. */
  method EncodeSQLRow(columns: seq<Column>, row: Row) returns (r: Result<Data, CodecError>)
    requires WellTypedRow(row)
    ensures r == Encode(columns, row)
  {
    if |row| != |columns| { return Err(InvalidEncoding); }
    var out: Data := MAGIC + Uvarint(|row|, []);
    var nullStart := |out|;
    PartialStart(row, out);
    out := out + Zeros(BitmapBytes(|row|));
    ghost var body: Data := [];
    for i := 0 to |row|
      invariant Partial(row, i, out, Bitmap(row, i), body)
      invariant FirstError(columns, row, 0, HeaderBytes(|row|)) == FirstError(columns, row, i, |out|)
    {
      var e;
      e, out, body := AppendValue(columns, row, i, out, nullStart, body);
      if e.Some? { return Err(e.value); }
    }
    PartialEnd(row, out, Bitmap(row, |row|), body);
    r := Ok(out);
  }

  lemma LayoutParts(row: Row, nulls: Data, body: Data)
    requires WellTypedRow(row) && nulls == Bitmap(row, |row|) && body == Cells(row, 0, [])
    ensures MAGIC + Uvarint(|row|, []) + nulls + body == Layout(row, [])
  {
    var count := Uvarint(|row|, []);
    UvarintAppend(|row|, [], nulls + body);
    assert [] + (nulls + body) == nulls + body;
    Glue(MAGIC, count, nulls, body);
  }

  lemma Glue(a: Data, b: Data, c: Data, d: Data)
    ensures a + b + c + d == a + (b + (c + d))
  {
    assert b + (c + d) == (b + c) + d;
    assert a + b + c == a + (b + c);
  }

  /** Writing one byte of the middle part of a buffer. */
  lemma BufferSet(head: Data, nulls: Data, body: Data, p: nat, b: byte)
    requires p < |nulls|
    ensures (head + nulls + body)[|head| + p] == nulls[p]
    ensures (head + nulls + body)[|head| + p := b] == head + nulls[p := b] + body
  {
    assert (head + nulls)[|head| + p := b] == head + nulls[p := b];
  }

  /** Appending to the last part of a buffer. */
  lemma BufferAppend(head: Data, nulls: Data, body: Data, cell: Data, rest: Data)
    ensures head + nulls + body + cell == head + nulls + (body + cell)
    ensures body + (cell + rest) == (body + cell) + rest
  {
    assert (head + nulls) + (body + cell) == (head + nulls) + body + cell;
  }

  // ----- decoding ----------------------------------------------------------------------------

  predicate Needed(needed: Option<seq<bool>>, i: nat) {
    needed.None? || i >= |needed.value| || needed.value[i]
  }

  /** What the bitmap says about each of n columns. */
  function NullFlags(nulls: Data, n: nat): (r: seq<bool>)
    requires |nulls| == BitmapBytes(n)
    ensures |r| == n
  {
    seq(n, i requires 0 <= i < n => BitOf(nulls[i / 8], i % 8))
  }

  /** The values of the columns from i on, from the NULL flags and the remaining bytes. */
  function DecodeCells(columns: seq<Column>, isNull: seq<bool>, s: Data, i: nat, needed: Option<seq<bool>>,
                       dateOk: Data -> bool)
    : Option<Row>
    requires i <= |columns| == |isNull|
    decreases |columns| - i
  {
    if i == |columns| then
      if s == [] then Some([]) else None
    else if isNull[i] then
      match DecodeCells(columns, isNull, s, i + 1, needed, dateOk)
      case None => None
      case Some(row) => Some([Null(columns[i].typ)] + row)
    else
      match ReadCell(columns[i].typ, s, Needed(needed, i), dateOk)
      case None => None
      case Some((v, rest)) =>
        match DecodeCells(columns, isNull, rest, i + 1, needed, dateOk)
        case None => None
        case Some(row) => Some([v] + row)
  }

  function Decode(columns: seq<Column>, data: Data, needed: Option<seq<bool>>, dateOk: Data -> bool): Option<Row> {
    if !(MAGIC <= data) || |data| > MAX_VALUE_BYTES then None
    else if needed.Some? && |needed.value| != |columns| then None
    else match ReadUvarint(data[|MAGIC|..], 0)
      case None => None
      case Some((n, rest)) =>
        var nullBytes := BitmapBytes(|columns|);
        if n != |columns| || |rest| < nullBytes then None
        else DecodeCells(columns, NullFlags(rest[..nullBytes], |columns|), rest[nullBytes..], 0, needed, dateOk)
  }

  /** decodeSQLRowInto: the reader advances over the record column by column and must end at its last byte. */
  method DecodeSQLRowInto(columns: seq<Column>, encoded: Data, needed: Option<seq<bool>>, dateOk: Data -> bool)
    returns (r: Option<Row>)
    ensures r == Decode(columns, encoded, needed, dateOk)
  {
    if !(MAGIC <= encoded) || |encoded| > MAX_VALUE_BYTES { return None; }
    if needed.Some? && |needed.value| != |columns| { return None; }
    var count := ReadUvarint(encoded[|MAGIC|..], 0);
    if count.None? || count.value.0 != |columns| { return None; }
    var rest, nullBytes := count.value.1, BitmapBytes(|columns|);
    if |rest| < nullBytes { return None; }
    var nulls, s := rest[..nullBytes], rest[nullBytes..];
    ghost var isNull := NullFlags(nulls, |columns|);
    var row: Row := [];
    PrependNothing(DecodeCells(columns, isNull, s, 0, needed, dateOk));
    for i := 0 to |columns|
      invariant |row| == i
      invariant Decode(columns, encoded, needed, dateOk)
                == Prepended(row, DecodeCells(columns, isNull, s, i, needed, dateOk))
    {
      if BitOf(nulls[i / 8], i % 8) {
        PrependMore(row, Null(columns[i].typ), DecodeCells(columns, isNull, s, i + 1, needed, dateOk));
        row := row + [Null(columns[i].typ)];
        continue;
      }
      var cell := ReadCell(columns[i].typ, s, Needed(needed, i), dateOk);
      if cell.None? { return None; }
      PrependMore(row, cell.value.0, DecodeCells(columns, isNull, cell.value.1, i + 1, needed, dateOk));
      row, s := row + [cell.value.0], cell.value.1;
    }
    if s != [] { return None; }
    assert row + [] == row;
    r := Some(row);
  }

  function Prepended(head: Row, tail: Option<Row>): Option<Row> {
    if tail.None? then None else Some(head + tail.value)
  }

  lemma PrependNothing(tail: Option<Row>)
    ensures Prepended([], tail) == tail
  {
    if tail.Some? { assert [] + tail.value == tail.value; }
  }

  lemma PrependMore(head: Row, v: Value, tail: Option<Row>)
    ensures Prepended(head, if tail.None? then None else Some([v] + tail.value)) == Prepended(head + [v], tail)
  {
    if tail.Some? { assert head + ([v] + tail.value) == (head + [v]) + tail.value; }
  }

  // ----- round trips -------------------------------------------------------------------------

  predicate StorableRow(columns: seq<Column>, row: Row, dateOk: Data -> bool) {
    |row| == |columns| && forall i :: 0 <= i < |row| ==> row[i].typ == columns[i].typ && Storable(row[i], dateOk)
  }

  /** The values a projected decode materializes: texts that are not needed come back empty. */
  function Projected(row: Row, needed: Option<seq<bool>>, i: nat): (r: Row)
    requires i <= |row|
    ensures |r| == |row| - i && forall j :: 0 <= j < |r| ==> r[j] == Kept(row[i + j], Needed(needed, i + j))
  {
    seq(|row| - i, j requires 0 <= j < |row| - i => Kept(row[i + j], Needed(needed, i + j)))
  }

  lemma {:induction false} CellsRoundTrip(columns: seq<Column>, row: Row, isNull: seq<bool>, i: nat, tail: Data,
                                          needed: Option<seq<bool>>, dateOk: Data -> bool)
    requires StorableRow(columns, row, dateOk) && WellTypedRow(row) && i <= |row| && Marks(isNull, row)
    ensures DecodeCells(columns, isNull, Cells(row, i, tail), i, needed, dateOk)
            == if tail == [] then Some(Projected(row, needed, i)) else None
    decreases |row| - i
  {
    if i < |row| {
      CellsRoundTrip(columns, row, isNull, i + 1, tail, needed, dateOk);
      if !row[i].Null? { CellRoundTrip(row[i], Cells(row, i + 1, tail), Needed(needed, i), dateOk); }
      ProjectedStep(row, needed, i);
    }
  }

  predicate Marks(isNull: seq<bool>, row: Row) {
    |isNull| == |row| && forall i :: 0 <= i < |row| ==> isNull[i] == row[i].Null?
  }

  lemma FlagsOfBitmap(row: Row)
    ensures Marks(NullFlags(Bitmap(row, |row|), |row|), row)
  {
    forall i | 0 <= i < |row| ensures NullFlags(Bitmap(row, |row|), |row|)[i] == row[i].Null? { NullBitSet(row, i); }
  }

  lemma NullBitSet(row: Row, i: nat)
    requires i < |row|
    ensures BitOf(Bitmap(row, |row|)[i / 8], i % 8) <==> row[i].Null?
  {
    BitmapBit(row, |row|, i / 8, i % 8);
    assert i == 8 * (i / 8) + i % 8;
  }

  lemma ProjectedStep(row: Row, needed: Option<seq<bool>>, i: nat)
    requires i < |row|
    ensures Projected(row, needed, i) == [Kept(row[i], Needed(needed, i))] + Projected(row, needed, i + 1)
  {
  }

  /** Decoding a record with anything behind it: the row when nothing follows, an error otherwise. */
  lemma LayoutRoundTrip(columns: seq<Column>, row: Row, tail: Data, needed: Option<seq<bool>>, dateOk: Data -> bool)
    requires StorableRow(columns, row, dateOk) && WellTypedRow(row) && |row| < TWO_64
    requires needed.Some? ==> |needed.value| == |columns|
    ensures Decode(columns, Layout(row, tail), needed, dateOk)
            == if tail == [] && |Layout(row, tail)| <= MAX_VALUE_BYTES then Some(Projected(row, needed, 0)) else None
  {
    var bitmap, cells := Bitmap(row, |row|), Cells(row, 0, tail);
    var data := Layout(row, tail);
    assert data[|MAGIC|..] == Uvarint(|row|, bitmap + cells);
    RoomIsTwo64();
    UvarintRoundTrip(|row|, bitmap + cells, 0);
    assert (bitmap + cells)[..|bitmap|] == bitmap && (bitmap + cells)[|bitmap|..] == cells;
    FlagsOfBitmap(row);
    CellsRoundTrip(columns, row, NullFlags(bitmap, |row|), 0, tail, needed, dateOk);
  }

  lemma {:induction false} SizeChecked(columns: seq<Column>, row: Row, i: nat, size: nat)
    requires i <= |row| == |columns| && WellTypedRow(row) && FirstError(columns, row, i, size).None?
    ensures (exists j :: i <= j < |row| && !row[j].Null?) ==> size + |Cells(row, i, [])| <= MAX_VALUE_BYTES
    ensures (forall j :: i <= j < |row| ==> row[j].Null?) ==> |Cells(row, i, [])| == 0
    ensures forall j :: i <= j < |row| ==> row[j].typ == columns[j].typ
    decreases |row| - i
  {
    if i < |row| {
      if row[i].Null? {
        SizeChecked(columns, row, i + 1, size);
      } else {
        SizeChecked(columns, row, i + 1, size + |Cell(row[i], [])|);
        CellAppend(row[i], Cells(row, i + 1, []));
      }
    }
  }

  lemma LayoutSize(row: Row)
    requires WellTypedRow(row)
    ensures |Layout(row, [])| == HeaderBytes(|row|) + |Cells(row, 0, [])|
  {
    LayoutParts(row, Bitmap(row, |row|), Cells(row, 0, []));
  }

  /**
   Decode undoes encode exactly when the record fits the value limit. The encoder checks the limit behind every
   non-NULL cell, so the one family that slips through is a row of NULLs whose bitmap alone is too long.
   */
  lemma DecodeUndoesEncode(columns: seq<Column>, row: Row, dateOk: Data -> bool)
    requires WellTypedRow(row) && Encode(columns, row).Ok? && |row| < TWO_64
    requires forall i :: 0 <= i < |row| ==> Storable(row[i], dateOk)
    ensures var out := Encode(columns, row).value;
            Decode(columns, out, None, dateOk) == (if |out| <= MAX_VALUE_BYTES then Some(row) else None)
    ensures |Encode(columns, row).value| <= MAX_VALUE_BYTES <==>
            (exists j :: 0 <= j < |row| && !row[j].Null?) || HeaderBytes(|row|) <= MAX_VALUE_BYTES
  {
    SizeChecked(columns, row, 0, HeaderBytes(|row|));
    LayoutSize(row);
    LayoutRoundTrip(columns, row, [], None, dateOk);
    assert Projected(row, None, 0) == row;
  }

  lemma SmallHeader(n: nat)
    requires n <= MAX_VALUE_BYTES
    ensures HeaderBytes(n) <= MAX_VALUE_BYTES
  {
    assert n / 128 / 128 < 128;
    assert |Uvarint(n / 128 / 128, [])| == 1;
    assert |Uvarint(n / 128, [])| <= 2;
    assert |Uvarint(n, [])| <= 3;
  }

  /**
   A table definition is itself a stored value and takes more than one byte for each column, so a table has fewer
   columns than that limit has bytes. Every row such a table encodes is decoded again.
   */
  lemma StoredRowRoundTrip(columns: seq<Column>, row: Row, dateOk: Data -> bool)
    requires WellTypedRow(row) && Encode(columns, row).Ok? && |columns| <= MAX_VALUE_BYTES
    requires forall i :: 0 <= i < |row| ==> Storable(row[i], dateOk)
    ensures Decode(columns, Encode(columns, row).value, None, dateOk) == Some(row)
  {
    SmallHeader(|row|);
    DecodeUndoesEncode(columns, row, dateOk);
  }

  /** A projected decode agrees with the row on every needed column and keeps NULLs, types and other kinds. */
  lemma ProjectedDecode(columns: seq<Column>, row: Row, needed: seq<bool>, dateOk: Data -> bool)
    requires WellTypedRow(row) && Encode(columns, row).Ok? && |row| < TWO_64 && |needed| == |columns|
    requires forall i :: 0 <= i < |row| ==> Storable(row[i], dateOk)
    requires |Encode(columns, row).value| <= MAX_VALUE_BYTES
    ensures Decode(columns, Encode(columns, row).value, Some(needed), dateOk).Some?
    ensures var seen := Decode(columns, Encode(columns, row).value, Some(needed), dateOk).value;
            |seen| == |row| && forall i :: 0 <= i < |row| ==> seen[i] == if needed[i] || !row[i].Text? then row[i]
              else Text(row[i].typ, [])
  {
    SizeChecked(columns, row, 0, HeaderBytes(|row|));
    LayoutRoundTrip(columns, row, [], Some(needed), dateOk);
  }

  /** A record followed by anything is rejected. */
  lemma TrailingBytesRejected(columns: seq<Column>, row: Row, tail: Data, needed: Option<seq<bool>>,
                              dateOk: Data -> bool)
    requires WellTypedRow(row) && Encode(columns, row).Ok? && |row| < TWO_64 && tail != []
    requires forall i :: 0 <= i < |row| ==> Storable(row[i], dateOk)
    ensures Decode(columns, Encode(columns, row).value + tail, needed, dateOk).None?
  {
    SizeChecked(columns, row, 0, HeaderBytes(|row|));
    LayoutAppend(row, tail);
    if needed.None? || |needed.value| == |columns| { LayoutRoundTrip(columns, row, tail, needed, dateOk); }
  }

  lemma {:induction false} CellsAppend(row: Row, i: nat, tail: Data)
    requires i <= |row| && WellTypedRow(row)
    ensures Cells(row, i, tail) == Cells(row, i, []) + tail
    decreases |row| - i
  {
    if i < |row| {
      CellsAppend(row, i + 1, tail);
      if !row[i].Null? {
        var rest := Cells(row, i + 1, []);
        CellAppend(row[i], rest + tail);
        CellAppend(row[i], rest);
        Associate(Cell(row[i], []), rest, tail);
      }
    }
  }

  lemma Associate(a: Data, b: Data, c: Data)
    ensures a + (b + c) == (a + b) + c
  {
  }

  lemma LayoutAppend(row: Row, tail: Data)
    requires WellTypedRow(row)
    ensures Layout(row, tail) == Layout(row, []) + tail
  {
    var bitmap, cells := Bitmap(row, |row|), Cells(row, 0, []);
    CellsAppend(row, 0, tail);
    assert bitmap + (cells + tail) == (bitmap + cells) + tail;
    UvarintAppend(|row|, bitmap + cells, tail);
    assert MAGIC + (Uvarint(|row|, bitmap + cells) + tail) == MAGIC + Uvarint(|row|, bitmap + cells) + tail;
  }

  /** Records of one schema are prefix-free: one is a prefix of another only when the rows are equal. */
  lemma RecordsPrefixFree(columns: seq<Column>, a: Row, b: Row, dateOk: Data -> bool)
    requires WellTypedRow(a) && WellTypedRow(b) && Encode(columns, a).Ok? && Encode(columns, b).Ok?
             && |columns| < TWO_64
    requires forall i :: 0 <= i < |a| ==> Storable(a[i], dateOk) && Storable(b[i], dateOk)
    requires |Encode(columns, b).value| <= MAX_VALUE_BYTES
    requires Encode(columns, a).value <= Encode(columns, b).value
    ensures a == b
  {
    var x, y := Encode(columns, a).value, Encode(columns, b).value;
    DecodeUndoesEncode(columns, a, dateOk);
    DecodeUndoesEncode(columns, b, dateOk);
    if x != y {
      var tail := y[|x|..];
      assert y == x + tail;
      TrailingBytesRejected(columns, a, tail, None, dateOk);
    }
  }
}
