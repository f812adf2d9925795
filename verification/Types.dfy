/** The value and schema types shared by the storage engine, the executor and the parser. */
module Types {

  datatype Option<+T> = None | Some(value: T)

  /** The error kinds the modelled code can report; message texts are not modelled. Panicked stands for a panic. */
  datatype Error =
    | ParseError
    | TableExists(table: string)
    | TableNotFound(table: string)
    | ColumnNotFound(table: string, column: string)
    | ValueCountMismatch(expected: nat, actual: nat)
    | TypeMismatch(column: string)
    | InvalidSchema
    | ConstraintViolation
    | TransactionError
    | CorruptRow
    | Panicked

  datatype Result<+T> = Ok(value: T) | Err(error: Error) {
    predicate IsFailure() {
      Err?
    }

    function PropagateFailure<U>(): Result<U>
      requires Err?
    {
      Err(error)
    }

    function Extract(): T
      requires Ok?
    {
      value
    }
  }

  const I64_MIN: int := -0x8000_0000_0000_0000
  const I64_MAX: int := 0x7FFF_FFFF_FFFF_FFFF

  type I64 = n: int | -0x8000_0000_0000_0000 <= n <= 0x7FFF_FFFF_FFFF_FFFF

  datatype DataType = IntType | TextType | BoolType

  datatype Value = Int(i: I64) | Text(s: string) | Bool(b: bool) | Null

  type Row = map<string, Value>

  /** `row.get(column)` with a missing column read as NULL. */
  function Get(row: Row, column: string): Value {
    if column in row then row[column] else Null
  }

  datatype Constraint = PrimaryKey | NotNull | Unique | References(table: string, column: string)

  datatype Column = Column(name: string, dataType: DataType, constraints: seq<Constraint>)

  datatype TableSchema = TableSchema(name: string, columns: seq<Column>, nextRowId: nat)

  datatype StoredRow = StoredRow(id: nat, data: Row)

  datatype Locator = Locator(id: nat, offset: nat, len: nat)

  datatype IndexDef = IndexDef(name: string, table: string, column: string)

  datatype Operation =
    | CreatedTable | DroppedTable | CreatedIndex | DroppedIndex
    | AddedColumn | DroppedColumn | RenamedColumn

  datatype Migration = Migration(id: nat, table: string, operation: Operation)
}
