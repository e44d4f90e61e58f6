/** The records of the external sorter's run files: writeSortRow, readSortRow and the width they are checked by. */
module SortCodec {
  import opened Wrappers
  import opened Bytes
  import opened Ordering

  /** One sort value by its dynamic type. Floats are their bits; the narrow shapes are widened when written. */
  datatype Cell =
    | Nil
    | Text(text: Data) | Json(text: Data) | Blob(text: Data) | Decimal(text: Data)
    | Time(stamp: Data)
    | Int(n: int) | Int64(n: int)
    | Uint64(u: nat)
    | Float(bits: nat)
    | Bool(b: bool)
    | Collated(text: Data, collation: Data)
    | NarrowInt(n: int) | NarrowUint(u: nat) | NarrowFloat(bits: nat)
    | Stringer(text: Data)
    | Unsupported

  type Cells = seq<Cell>

  /** A time stamp as time.Time marshals it: version 1 without, version 2 with zone seconds. */
  predicate ValidStamp(s: Data) { (|s| == 15 && s[0] == 1) || (|s| == 16 && s[0] == 2) }

  predicate ValidCell(c: Cell) {
    match c
    case Int(n) => IsInt64(n)
    case Int64(n) => IsInt64(n)
    case NarrowInt(n) => IsInt64(n)
    case Uint64(u) => u < TWO_64
    case NarrowUint(u) => u < TWO_64
    case Float(bits) => bits < TWO_64
    case NarrowFloat(bits) => bits < TWO_64
    case Time(stamp) => ValidStamp(stamp)
    case Collated(text, collation) => |text| < TWO_64 && |collation| < TWO_64
    case Unsupported => true
    case Nil => true
    case Bool(_) => true
    case _ => |c.text| < TWO_64
  }

  ghost predicate ValidRow(row: Ranked<Cells>) {
    && row.ordinal < TWO_64 && |row.value| < TWO_64
    && forall i :: 0 <= i < |row.value| ==> ValidCell(row.value[i])
  }

  /** What a value becomes once it has been through a run file. */
  function Norm(c: Cell): Cell {
    match c
    case NarrowInt(n) => Int64(n)
    case NarrowUint(u) => Uint64(u)
    case NarrowFloat(bits) => Float(bits)
    case Stringer(text) => Text(text)
    case _ => c
  }

  function NormCells(cells: Cells): (r: Cells)
    ensures |r| == |cells|
  {
    seq(|cells|, i requires 0 <= i < |cells| => Norm(cells[i]))
  }

  function NormRow(row: Ranked<Cells>): Ranked<Cells> { Ranked(NormCells(row.value), row.ordinal) }

  predicate Supported(cells: Cells) { forall i :: 0 <= i < |cells| ==> !cells[i].Unsupported? }

  // ----- writing -----------------------------------------------------------------------------

  function Tag(c: Cell): byte {
    match c
    case Nil => 0
    case Text(_) => 1
    case Stringer(_) => 1
    case Json(_) => 2
    case Blob(_) => 3
    case Int(_) => 4
    case Int64(_) => 5
    case NarrowInt(_) => 5
    case Uint64(_) => 6
    case NarrowUint(_) => 6
    case Float(_) => 7
    case NarrowFloat(_) => 7
    case Bool(_) => 8
    case Time(_) => 9
    case Decimal(_) => 10
    case Collated(_, _) => 11
    case Unsupported => 0
  }

  predicate TextTag(tag: byte) { tag == 1 || tag == 2 || tag == 3 || tag == 9 || tag == 10 }

  /** uint64(v). */
  function Number(c: Cell): nat
    requires ValidCell(c) && 4 <= Tag(c) <= 8
  {
    if c.Uint64? || c.NarrowUint? then c.u
    else if c.Float? || c.NarrowFloat? then c.bits
    else if c.Bool? then (if c.b then 1 else 0)
    else if c.n < 0 then c.n + TWO_64 else c.n
  }

  function Payload(c: Cell): Data
    requires TextTag(Tag(c))
  {
    if c.Time? then c.stamp else c.text
  }

  function PutUint(n: nat, tail: Data): Data { LittleEndian(n, 8) + tail }

  function PutText(text: Data, tail: Data): Data { PutUint(|text|, text + tail) }

  function PutCell(c: Cell, tail: Data): Data
    requires ValidCell(c)
  {
    if c.Nil? || c.Unsupported? then [0] + tail
    else if c.Collated? then [11] + PutText(c.text, PutText(c.collation, tail))
    else if TextTag(Tag(c)) then [Tag(c)] + PutText(Payload(c), tail)
    else [Tag(c)] + PutUint(Number(c), tail)
  }

  function PutCells(cells: Cells, tail: Data): Data
    requires forall i :: 0 <= i < |cells| ==> ValidCell(cells[i])
  {
    if cells == [] then tail else PutCell(cells[0], PutCells(cells[1..], tail))
  }

  function PutRow(row: Ranked<Cells>, tail: Data): Data
    requires ValidRow(row)
  {
    PutUint(row.ordinal, PutUint(|row.value|, PutCells(row.value, tail)))
  }

  // ----- reading -----------------------------------------------------------------------------

  datatype ReadError = EndOfRun | Truncated | TooWide | BadTag | BadTime

  function GetUint(data: Data): Option<(nat, Data)> {
    if |data| < 8 then None else Some((FromLittleEndian(data[..8]), data[8..]))
  }

  /** A length-prefixed text that must fit in `room`. */
  function GetText(data: Data, room: int): Result<(Data, Data), ReadError> {
    match GetUint(data)
    case None => Err(Truncated)
    case Some((size, rest)) =>
      if size > room then Err(TooWide) else if |rest| < size then Err(Truncated) else Ok((rest[..size], rest[size..]))
  }

  function TextCell(tag: byte, text: Data): Result<Cell, ReadError>
    requires TextTag(tag)
  {
    if tag == 1 then Ok(Text(text)) else if tag == 2 then Ok(Json(text)) else if tag == 3 then Ok(Blob(text))
    else if tag == 10 then Ok(Decimal(text)) else if ValidStamp(text) then Ok(Time(text)) else Err(BadTime)
  }

  function NumberCell(tag: byte, number: nat): Result<Cell, ReadError> {
    var signed := if number >= TWO_64 / 2 then number - TWO_64 else number;
    if tag == 4 then Ok(Int(signed)) else if tag == 5 then Ok(Int64(signed)) else if tag == 6 then Ok(Uint64(number))
    else if tag == 7 then Ok(Float(number)) else if tag == 8 then Ok(Bool(number != 0)) else Err(BadTag)
  }

  /** One value, the bytes after it, and how much of the row limit its payload used. */
  function GetCell(data: Data, room: int): Result<(Cell, Data, nat), ReadError> {
    if data == [] then Err(Truncated) else
      var tag, rest := data[0], data[1..];
      if tag == 0 then Ok((Nil, rest, 0))
      else if tag == 11 then
        match GetText(rest, room)
        case Err(e) => Err(e)
        case Ok((text, more)) =>
          (match GetText(more, room - |text|)
           case Err(e) => Err(e)
           case Ok((collation, last)) => Ok((Collated(text, collation), last, |text| + |collation|)))
      else if TextTag(tag) then
        match GetText(rest, room)
        case Err(e) => Err(e)
        case Ok((text, more)) =>
          (match TextCell(tag, text) case Err(e) => Err(e) case Ok(cell) => Ok((cell, more, |text|)))
      else
        match GetUint(rest)
        case None => Err(Truncated)
        case Some((number, more)) =>
          (match NumberCell(tag, number) case Err(e) => Err(e) case Ok(cell) => Ok((cell, more, 0)))
  }

  function GetCells(data: Data, count: nat, room: int): Result<(Cells, Data), ReadError>
    decreases count, 1
  {
    if count == 0 then Ok(([], data)) else GetRest(GetCell(data, room), count, room)
  }

  function GetRest(first: Result<(Cell, Data, nat), ReadError>, count: nat, room: int): Result<(Cells, Data), ReadError>
    requires count > 0
    decreases count, 0
  {
    match first
    case Err(e) => Err(e)
    case Ok((cell, rest, used)) => Prepend([cell], GetCells(rest, count - 1, room - used))
  }

  function Prepend(cells: Cells, r: Result<(Cells, Data), ReadError>): Result<(Cells, Data), ReadError> {
    match r
    case Err(e) => Err(e)
    case Ok((more, rest)) => Ok((cells + more, rest))
  }

  /** The ordinal and the number of values of a row. */
  function GetHeader(data: Data): Option<(nat, nat, Data)> {
    match GetUint(data)
    case None => None
    case Some((ordinal, rest)) =>
      match GetUint(rest)
      case None => None
      case Some((count, body)) => Some((ordinal, count, body))
  }

  function GetBody(ordinal: nat, count: nat, body: Data, maximum: int): Result<(Ranked<Cells>, Data), ReadError> {
    if maximum < 48 || count > (maximum - 48) / 24 then Err(TooWide) else
      match GetCells(body, count, maximum - 48 - 24 * count)
      case Err(e) => Err(e)
      case Ok((cells, last)) => Ok((Ranked(cells, ordinal), last))
  }

  function GetRow(data: Data, maximum: int): Result<(Ranked<Cells>, Data), ReadError> {
    if data == [] then Err(EndOfRun) else
      match GetHeader(data)
      case None => Err(Truncated)
      case Some((ordinal, count, body)) => GetBody(ordinal, count, body, maximum)
  }

  // ----- the round trip ----------------------------------------------------------------------

  /** The part of the row limit a value uses beyond its slot. */
  function CellLoad(c: Cell): nat {
    match c
    case Collated(text, collation) => |text| + |collation|
    case Time(stamp) => |stamp|
    case Text(text) => |text|
    case Json(text) => |text|
    case Blob(text) => |text|
    case Decimal(text) => |text|
    case Stringer(text) => |text|
    case _ => 0
  }

  function Load(cells: Cells): nat { if cells == [] then 0 else CellLoad(cells[0]) + Load(cells[1..]) }

  /** The rows readSortRow accepts under a limit. */
  predicate Readable(cells: Cells, maximum: int) { 48 + 24 * |cells| + Load(cells) <= maximum }

  lemma UintRoundTrip(n: nat, tail: Data)
    requires n < TWO_64
    ensures GetUint(PutUint(n, tail)) == Some((n, tail))
  {
    Pow256Eight();
    LittleEndianRoundTrip(n, 8);
    var word := LittleEndian(n, 8);
    assert (word + tail)[..8] == word && (word + tail)[8..] == tail;
  }

  lemma TextRoundTrip(text: Data, tail: Data, room: int)
    requires |text| < TWO_64
    ensures GetText(PutText(text, tail), room) == if |text| <= room then Ok((text, tail)) else Err(TooWide)
  {
    UintRoundTrip(|text|, text + tail);
    assert (text + tail)[..|text|] == text && (text + tail)[|text|..] == tail;
  }

  lemma CollatedRoundTrip(c: Cell, tail: Data, room: int)
    requires ValidCell(c) && c.Collated? && room >= 0
    ensures GetCell(PutCell(c, tail), room) ==
            if CellLoad(c) <= room then Ok((Norm(c), tail, CellLoad(c))) else Err(TooWide)
  {
    var data := PutCell(c, tail);
    assert data[0] == Tag(c);
    assert data[1..] == PutText(c.text, PutText(c.collation, tail));
    TextRoundTrip(c.text, PutText(c.collation, tail), room);
    TextRoundTrip(c.collation, tail, room - |c.text|);
  }

  lemma CellRoundTrip(c: Cell, tail: Data, room: int)
    requires ValidCell(c) && !c.Unsupported? && room >= 0
    ensures GetCell(PutCell(c, tail), room) ==
            if CellLoad(c) <= room then Ok((Norm(c), tail, CellLoad(c))) else Err(TooWide)
  {
    var data := PutCell(c, tail);
    assert data[0] == Tag(c);
    if c.Nil? {
      assert data[1..] == tail;
    } else if c.Collated? {
      CollatedRoundTrip(c, tail, room);
    } else if TextTag(Tag(c)) {
      assert data[1..] == PutText(Payload(c), tail);
      TextRoundTrip(Payload(c), tail, room);
    } else {
      assert data[1..] == PutUint(Number(c), tail);
      UintRoundTrip(Number(c), tail);
    }
  }

  /** Reading one value and then the rest, whatever the bytes were. */
  lemma RestStep(rest: Data, cells: Cells, tail: Data, room: int)
    requires cells != [] && CellLoad(cells[0]) <= room
    requires var left := room - CellLoad(cells[0]);
             GetCells(rest, |cells| - 1, left) ==
               if Load(cells[1..]) <= left then Ok((NormCells(cells[1..]), tail)) else Err(TooWide)
    ensures GetRest(Ok((Norm(cells[0]), rest, CellLoad(cells[0]))), |cells|, room) ==
            if Load(cells) <= room then Ok((NormCells(cells), tail)) else Err(TooWide)
  {
    assert NormCells(cells) == [Norm(cells[0])] + NormCells(cells[1..]);
  }

  lemma {:induction false} CellsRoundTrip(cells: Cells, tail: Data, room: int)
    requires (forall i :: 0 <= i < |cells| ==> ValidCell(cells[i])) && Supported(cells) && room >= 0
    ensures GetCells(PutCells(cells, tail), |cells|, room) ==
            if Load(cells) <= room then Ok((NormCells(cells), tail)) else Err(TooWide)
  {
    if cells != [] {
      var rest := PutCells(cells[1..], tail);
      CellRoundTrip(cells[0], rest, room);
      if CellLoad(cells[0]) <= room {
        CellsRoundTrip(cells[1..], tail, room - CellLoad(cells[0]));
        RestStep(rest, cells, tail, room);
      }
    }
  }

  lemma BodyRoundTrip(row: Ranked<Cells>, tail: Data, maximum: int)
    requires ValidRow(row) && Supported(row.value)
    ensures GetBody(row.ordinal, |row.value|, PutCells(row.value, tail), maximum) ==
            if Readable(row.value, maximum) then Ok((NormRow(row), tail)) else Err(TooWide)
  {
    var room := maximum - 48 - 24 * |row.value|;
    if room >= 0 { CellsRoundTrip(row.value, tail, room); }
  }

  lemma HeaderRoundTrip(ordinal: nat, count: nat, body: Data)
    requires ordinal < TWO_64 && count < TWO_64
    ensures var data := PutUint(ordinal, PutUint(count, body));
            data != [] && GetHeader(data) == Some((ordinal, count, body))
  {
    UintRoundTrip(ordinal, PutUint(count, body));
    UintRoundTrip(count, body);
  }

  /** A written row reads back, normalized, exactly when it is within the reader's limit; the next row follows it. */
  lemma RowRoundTrip(row: Ranked<Cells>, tail: Data, maximum: int)
    requires ValidRow(row) && Supported(row.value)
    ensures GetRow(PutRow(row, tail), maximum) ==
            if Readable(row.value, maximum) then Ok((NormRow(row), tail)) else Err(TooWide)
  {
    HeaderRoundTrip(row.ordinal, |row.value|, PutCells(row.value, tail));
    BodyRoundTrip(row, tail, maximum);
  }

  /** The shapes a run file gives back as they are. */
  predicate Plain(c: Cell) {
    c.Nil? || c.Text? || c.Json? || c.Blob? || c.Decimal? || c.Time? || c.Int? || c.Int64? || c.Uint64? || c.Float?
    || c.Bool? || c.Collated?
  }

  predicate PlainCells(cells: Cells) { forall i :: 0 <= i < |cells| ==> Plain(cells[i]) }

  /** A plain value comes back itself; a narrow number or a Stringer comes back in a wider shape with its content. */
  predicate KeptCell(a: Cell, b: Cell) {
    && (Plain(a) ==> b == a)
    && (a.NarrowInt? ==> b.Int64? && b.n == a.n)
    && (a.NarrowUint? ==> b.Uint64? && b.u == a.u)
    && (a.NarrowFloat? ==> b.Float? && b.bits == a.bits)
    && (a.Stringer? ==> b.Text? && b.text == a.text)
  }

  predicate KeptCells(a: Cells, b: Cells) { |a| == |b| && forall i :: 0 <= i < |a| ==> KeptCell(a[i], b[i]) }

  lemma NormKeeps(cells: Cells)
    ensures KeptCells(cells, NormCells(cells))
    ensures PlainCells(cells) ==> NormCells(cells) == cells
  {
  }

  /** A row of plain values is read back exactly as it was written, whatever follows it. */
  lemma PlainRowRoundTrip(row: Ranked<Cells>, tail: Data, maximum: int)
    requires ValidRow(row) && PlainCells(row.value)
    ensures GetRow(PutRow(row, tail), maximum) == if Readable(row.value, maximum) then Ok((row, tail)) else Err(TooWide)
  {
    RowRoundTrip(row, tail, maximum);
    NormKeeps(row.value);
  }

  /** Any other supported row keeps its ordinal and the content of every value. */
  lemma RowContentKept(row: Ranked<Cells>, tail: Data, maximum: int)
    requires ValidRow(row) && Supported(row.value)
    ensures var r := GetRow(PutRow(row, tail), maximum);
            && (r.Ok? <==> Readable(row.value, maximum))
            && (r.Ok? ==> r.value.1 == tail && r.value.0.ordinal == row.ordinal)
            && (r.Ok? ==> KeptCells(row.value, r.value.0.value))
  {
    RowRoundTrip(row, tail, maximum);
    NormKeeps(row.value);
  }

  /** Normalizing is what a second trip through a run file does not do again. */
  lemma NormIsStable(cells: Cells)
    requires forall i :: 0 <= i < |cells| ==> ValidCell(cells[i])
    ensures NormCells(NormCells(cells)) == NormCells(cells)
    ensures forall i :: 0 <= i < |cells| ==> ValidCell(NormCells(cells)[i])
    ensures Supported(cells) ==> Supported(NormCells(cells))
  {
  }

  lemma {:induction false} NormLoad(cells: Cells)
    ensures Load(NormCells(cells)) == Load(cells)
  {
    if cells != [] {
      NormLoad(cells[1..]);
      assert NormCells(cells)[1..] == NormCells(cells[1..]);
    }
  }

  // ----- width -------------------------------------------------------------------------------

  /** sortCellBytes. */
  function CellWidth(c: Cell): nat {
    match c
    case Nil => 1
    case Text(text) => 9 + |text|
    case Json(text) => 9 + |text|
    case Blob(text) => 9 + |text|
    case Decimal(text) => 9 + |text|
    case Collated(text, collation) => 17 + |text| + |collation|
    case Time(_) => 22
    case _ => 9
  }

  function CellsWidth(cells: Cells): nat { if cells == [] then 0 else CellWidth(cells[0]) + CellsWidth(cells[1..]) }

  /** serializedRowBytes. */
  function RowWidth(cells: Cells): nat { 16 + CellsWidth(cells) }

  predicate ExactCell(c: Cell) { !c.Time? && !(c.Stringer? && c.text != []) }

  lemma CellBytes(c: Cell, tail: Data)
    requires ValidCell(c) && !c.Unsupported?
    ensures |PutCell(c, tail)| - |tail| >= CellWidth(c)
    ensures |PutCell(c, tail)| - |tail| == CellWidth(c) <==> ExactCell(c)
  {
  }

  lemma {:induction false} CellsBytes(cells: Cells, tail: Data)
    requires (forall i :: 0 <= i < |cells| ==> ValidCell(cells[i])) && Supported(cells)
    ensures |PutCells(cells, tail)| - |tail| >= CellsWidth(cells)
    ensures |PutCells(cells, tail)| - |tail| == CellsWidth(cells)
            <==> forall i :: 0 <= i < |cells| ==> ExactCell(cells[i])
  {
    if cells != [] {
      var rest := cells[1..];
      CellsBytes(rest, tail);
      CellBytes(cells[0], PutCells(rest, tail));
      assert forall i :: 0 < i < |cells| ==> cells[i] == rest[i - 1];
    }
  }

  /** The declared width is the written width exactly for rows without times and without non-empty Stringers. */
  lemma WidthExactIff(row: Ranked<Cells>)
    requires ValidRow(row) && Supported(row.value)
    ensures |PutRow(row, [])| >= RowWidth(row.value)
    ensures |PutRow(row, [])| == RowWidth(row.value) <==> forall i :: 0 <= i < |row.value| ==> ExactCell(row.value[i])
  {
    CellsBytes(row.value, []);
  }

  lemma {:induction false} ReadableIsNarrow(cells: Cells)
    requires forall i :: 0 <= i < |cells| ==> ValidCell(cells[i])
    ensures CellsWidth(cells) <= 24 * |cells| + Load(cells)
  {
    if cells != [] { ReadableIsNarrow(cells[1..]); }
  }

  /** The width check admits every readable row; the reverse fails, as for 200 integers under a 4096-byte limit. */
  lemma WidthCheckIsWeaker(cells: Cells, maximum: int)
    requires forall i :: 0 <= i < |cells| ==> ValidCell(cells[i])
    ensures Readable(cells, maximum) ==> RowWidth(cells) <= maximum
    ensures RowWidth(seq(200, _ => Int(0))) <= 4096 && !Readable(seq(200, _ => Int(0)), 4096)
  {
    ReadableIsNarrow(cells);
    IntegersWidth(200);
  }

  lemma {:induction false} IntegersWidth(n: nat)
    ensures CellsWidth(seq(n, _ => Int(0))) == 9 * n
  {
    if n > 0 {
      IntegersWidth(n - 1);
      assert seq(n, _ => Int(0))[1..] == seq(n - 1, _ => Int(0));
    }
  }

  // ----- the loops of the source -------------------------------------------------------------

  lemma Regroup(a: Data, b: Data, c: Data)
    ensures a + (b + c) == (a + b) + c
  {
  }

  lemma TextAppend(text: Data, tail: Data)
    ensures PutText(text, tail) == PutText(text, []) + tail
  {
    Regroup(LittleEndian(|text|, 8), text, tail);
    assert text + [] == text;
  }

  lemma CellAppend(c: Cell, tail: Data)
    requires ValidCell(c)
    ensures PutCell(c, tail) == PutCell(c, []) + tail
  {
    if c.Collated? {
      var last := PutText(c.collation, []);
      TextAppend(c.collation, tail);
      TextAppend(c.text, last + tail);
      TextAppend(c.text, last);
      Regroup(PutText(c.text, []), last, tail);
      Regroup([11], PutText(c.text, last), tail);
    } else if TextTag(Tag(c)) {
      TextAppend(Payload(c), tail);
      Regroup([Tag(c)], PutText(Payload(c), []), tail);
    } else if !c.Nil? && !c.Unsupported? {
      assert PutUint(Number(c), tail) == PutUint(Number(c), []) + tail;
      Regroup([Tag(c)], PutUint(Number(c), []), tail);
    }
  }

  lemma {:induction false} CellsSnoc(cells: Cells, c: Cell, tail: Data)
    requires (forall i :: 0 <= i < |cells| ==> ValidCell(cells[i])) && ValidCell(c)
    ensures PutCells(cells + [c], tail) == PutCells(cells, PutCell(c, tail))
  {
    if cells == [] {
      assert cells + [c] == [c] && PutCells([c][1..], tail) == tail;
    } else {
      CellsSnoc(cells[1..], c, tail);
      assert (cells + [c])[1..] == cells[1..] + [c];
    }
  }

  lemma CellBefore(c: Cell, rest: Data, tail: Data)
    requires ValidCell(c)
    ensures PutCell(c, rest + tail) == PutCell(c, rest) + tail
  {
    CellAppend(c, rest + tail);
    CellAppend(c, rest);
    Regroup(PutCell(c, []), rest, tail);
  }

  lemma {:induction false} CellsAppend(cells: Cells, tail: Data)
    requires forall i :: 0 <= i < |cells| ==> ValidCell(cells[i])
    ensures PutCells(cells, tail) == PutCells(cells, []) + tail
  {
    if cells != [] {
      CellsAppend(cells[1..], tail);
      CellBefore(cells[0], PutCells(cells[1..], []), tail);
    }
  }

  /** writeSortRow: one value after another, stopping at the first it cannot write. */
  method WriteSortRow(row: Ranked<Cells>) returns (r: Result<Data, nat>)
    requires ValidRow(row)
    ensures r.Ok? <==> Supported(row.value)
    ensures r.Ok? ==> r.value == PutRow(row, [])
    ensures r.Err? ==> r.error < |row.value| && row.value[r.error].Unsupported? && Supported(row.value[..r.error])
  {
    var body: Data := [];
    for i := 0 to |row.value|
      invariant Supported(row.value[..i])
      invariant body == PutCells(row.value[..i], [])
    {
      var c := row.value[i];
      if c.Unsupported? { return Err(i); }
      assert row.value[..i + 1] == row.value[..i] + [c];
      CellsSnoc(row.value[..i], c, []);
      CellsAppend(row.value[..i], PutCell(c, []));
      body := body + PutCell(c, []);
    }
    assert row.value[..|row.value|] == row.value;
    return Ok(PutUint(row.ordinal, PutUint(|row.value|, body)));
  }

  /** The loop of readSortRow over the values of one row. */
  method ReadSortCells(data: Data, count: nat, room: int) returns (r: Result<(Cells, Data), ReadError>)
    ensures r == GetCells(data, count, room)
  {
    var cells: Cells, rest, left := [], data, room;
    PrependNothing(GetCells(data, count, room));
    for i := 0 to count
      invariant GetCells(data, count, room) == Prepend(cells, GetCells(rest, count - i, left))
    {
      var next := GetCell(rest, left);
      ReadStep(cells, rest, count - i, left, next);
      if next.Err? { return Err(next.error); }
      var (cell, more, used) := next.value;
      cells, rest, left := cells + [cell], more, left - used;
    }
    assert cells + [] == cells;
    return Ok((cells, rest));
  }

  /** Reading one value more, or failing on it, inside a longer read. */
  lemma ReadStep(cells: Cells, rest: Data, count: nat, left: int, next: Result<(Cell, Data, nat), ReadError>)
    requires count > 0 && next == GetCell(rest, left)
    ensures next.Err? ==> Prepend(cells, GetCells(rest, count, left)) == Err(next.error)
    ensures next.Ok? ==> Prepend(cells, GetCells(rest, count, left))
                         == Prepend(cells + [next.value.0], GetCells(next.value.1, count - 1, left - next.value.2))
  {
    if next.Ok? { PrependTwice(cells, [next.value.0], GetCells(next.value.1, count - 1, left - next.value.2)); }
  }

  lemma PrependNothing(r: Result<(Cells, Data), ReadError>)
    ensures Prepend([], r) == r
  {
    if r.Ok? { assert [] + r.value.0 == r.value.0; }
  }

  lemma PrependTwice(a: Cells, b: Cells, r: Result<(Cells, Data), ReadError>)
    ensures Prepend(a, Prepend(b, r)) == Prepend(a + b, r)
  {
    if r.Ok? { assert a + (b + r.value.0) == (a + b) + r.value.0; }
  }
}
