/**
 Tables, rows and index definitions as the executor sees them: column and index names are resolved to
 positions, and the unique-value encoder of the storage package stays an arbitrary function of the table.
 */
module Schema {
  import opened Wrappers
  import opened Bytes

  datatype DataType =
    | TypeInt | TypeBigInt | TypeFloat | TypeDouble | TypeBoolean
    | TypeDecimal | TypeText | TypeVarchar | TypeDate | TypeDateTime

  predicate IsIntegerType(t: DataType) { t.TypeInt? || t.TypeBigInt? }

  predicate IsTextType(t: DataType) { t.TypeText? || t.TypeVarchar? }

  /** One column value. Floats are their IEEE-754 bits and dates their binary form. */
  datatype Value =
    | Null(typ: DataType)
    | Integer(typ: DataType, n: int)
    | Float(typ: DataType, bits: nat)
    | Boolean(typ: DataType, b: bool)
    | Text(typ: DataType, text: Data)
    | Date(typ: DataType, stamp: Data)

  type Row = seq<Value>

  predicate WellTyped(v: Value) {
    match v
    case Null(_) => true
    case Integer(t, n) => IsIntegerType(t) && IsInt64(n)
    case Float(t, bits) => (t.TypeFloat? || t.TypeDouble?) && bits < TWO_64
    case Boolean(t, _) => t.TypeBoolean?
    case Text(t, _) => t.TypeDecimal? || IsTextType(t)
    case Date(t, _) => t.TypeDate? || t.TypeDateTime?
  }

  datatype Column = Column(typ: DataType, json: bool)

  /** storage.ValidateRowValues: as many values as columns, each of its column's type. */
  predicate Conforms(columns: seq<Column>, row: Row) {
    && |row| == |columns|
    && forall i :: 0 <= i < |row| ==> row[i].typ == columns[i].typ && WellTyped(row[i])
  }

  datatype Index = Index(name: string, columns: seq<nat>, primary: bool, unique: bool)

  type Key = Data

  /**
   A versioned table. `valueKey` is storage.IndexValueKey: None when a part of the value is NULL.
   `checks` holds of the rows the CHECK constraints accept, `encodes` of the rows encodeSQLRow can encode.
   */
  datatype Table = Table(
    id: string,
    columns: seq<Column>,
    indexes: seq<Index>,
    integerKey: bool,
    compactRows: bool,
    secondaryEncoding: bool,
    valueKey: (Index, Row) -> Option<Data>,
    checks: Row -> bool,
    encodes: Row -> bool)

  ghost predicate ValidTable(t: Table) {
    && (forall i, c :: 0 <= i < |t.indexes| && c in t.indexes[i].columns ==> c < |t.columns|)
    && (forall i, j :: 0 <= i < j < |t.indexes| ==> t.indexes[i].name != t.indexes[j].name)
    && (forall i, j :: 0 <= i < j < |t.indexes| ==> !(t.indexes[i].primary && t.indexes[j].primary))
    && (t.integerKey ==> IntegerPrimary(t).Some?)
  }

  // ----- primary keys ------------------------------------------------------------------------

  function PrimaryIndexFrom(t: Table, i: nat): (r: Option<Index>)
    requires i <= |t.indexes|
    ensures r.Some? ==> r.value in t.indexes[i..] && r.value.primary
    ensures r.None? ==> forall j :: i <= j < |t.indexes| ==> !t.indexes[j].primary
    decreases |t.indexes| - i
  {
    if i == |t.indexes| then None
    else if t.indexes[i].primary then Some(t.indexes[i])
    else PrimaryIndexFrom(t, i + 1)
  }

  function PrimaryIndex(t: Table): Option<Index> { PrimaryIndexFrom(t, 0) }

  /** The position of a single-column integer primary key. */
  function IntegerPrimary(t: Table): (r: Option<nat>)
    ensures r.Some? ==> r.value < |t.columns| && IsIntegerType(t.columns[r.value].typ)
  {
    match PrimaryIndex(t)
    case None => None
    case Some(index) =>
      if |index.columns| == 1 && index.columns[0] < |t.columns| && IsIntegerType(t.columns[index.columns[0]].typ)
      then Some(index.columns[0])
      else None
  }

  /** sqlPrimaryKey: the stored key of a row under the table's primary index. */
  function PrimaryKeyUnder(t: Table, index: Index, row: Row): Option<Key> {
    if t.integerKey then
      match IntegerPrimary(t)
      case None => None
      case Some(p) =>
        if p < |row| && row[p].Integer? && IsInt64(row[p].n) then Some(SignedInteger(row[p].n)) else None
    else
      t.valueKey(index, row)
  }

  /** primaryKeyBytes: None for a table without a primary index as well. */
  function PrimaryKey(t: Table, row: Row): Option<Key> {
    match PrimaryIndex(t)
    case None => None
    case Some(index) => PrimaryKeyUnder(t, index, row)
  }
}
