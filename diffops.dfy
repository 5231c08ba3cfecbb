/** The vocabulary of the schema differ shared by both generations of
    `UpdateStruct`: the statement helper calls it issues and the table
    definitions it compares.

    A table definition is a value: `UpdateStruct` only reads it. A column is
    identified by its position, which stands for the `*DataColumn` pointer
    the source compares. The description type `D` is the generation's own
    (`PGDesc` in one, a plain string in the other); `Equal` is `==`. */
module DiffOps {
  import opened TypeNames

  /** One statement helper call of `UpdateStruct`. The SQL text behind each
      helper is formatted from constants that are not part of this model, so
      an operation carries the helper's arguments instead. */
  datatype Op<D> =
    | CreateTable(table: string, temp: bool)
    | DropConstraint(table: string, constraint: string)
    | DropColumn(table: string, column: string)
    | Rename(table: string, from: string, to: string)
    | AlterType(table: string, column: string, dbType: string)
    | DropNotNull(table: string, column: string)
    | SetNotNull(table: string, column: string)
    | DropDefault(table: string, column: string)
    | SetDefault(table: string, column: string, def: string)
    | ColumnComment(table: string, column: string, desc: D)
    | AddColumn(table: string, column: string, dbType: string, defClause: string)
    | CreatePK(table: string, columns: seq<string>)
    | DropIndex(index: string)
    | ExecDefine(define: string, table: string, index: string)
    | IndexComment(index: string, desc: D)
    | TableComment(table: string, desc: D)

  /** A column: name, type, default expression, description, and the name
      `OriginName` reports for it (the name the column had before a rename). */
  datatype Column<D> = Column(Name: string, Type: TypeDesc, Default: string, Desc: D, Origin: string)

  datatype IndexDef<D> = IndexDef(Define: string, Desc: D)

  /** A table definition. The primary key is the list of its column names;
      it exists when that list is not empty. */
  datatype TableDef<D> = TableDef(TableName: string, Temp: bool, PK: seq<string>, PKConstraintName: string,
                                  Columns: seq<Column<D>>, Indexes: map<string, IndexDef<D>>, Desc: D)

  /** A live column matched with a desired one, by positions. */
  datatype Found = Found(Old: nat, New: nat)

  /** The name a desired column is looked up by: its origin name when that
      is set and differs from its name, otherwise its name. */
  function TrueName<D>(c: Column<D>): string
  {
    if c.Origin != "" && c.Name != c.Origin then c.Origin else c.Name
  }

  /** The names of the columns, in order. */
  function Names<D>(cols: seq<Column<D>>): seq<string>
  {
    seq(|cols|, i requires 0 <= i < |cols| => cols[i].Name)
  }

  /** The true names of the columns, in order. */
  function TrueNames<D>(cols: seq<Column<D>>): seq<string>
  {
    seq(|cols|, i requires 0 <= i < |cols| => TrueName(cols[i]))
  }

  predicate ValidPairs<D>(pairs: seq<Found>, olds: seq<Column<D>>, news: seq<Column<D>>)
  {
    forall k :: 0 <= k < |pairs| ==> pairs[k].Old < |olds| && pairs[k].New < |news|
  }

  /** `keys` lists each key of the map once: a Go map iteration order. */
  predicate Enumerates<K, V>(keys: seq<K>, m: map<K, V>)
  {
    (forall k :: 0 <= k < |keys| ==> keys[k] in m) &&
    (forall key :: key in m ==> key in keys) &&
    (forall a, b :: 0 <= a < b < |keys| ==> keys[a] != keys[b])
  }
}
