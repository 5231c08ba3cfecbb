/** `DataTable`: the columns of a table (in order), its indexes and its
    description, over a row store whose code is not part of this model. The
    rows a caller reads from that store (`GetValues`, already passed
    through `nullToNil`) are parameters of the row helpers. */
module DataTables {
  import opened Base
  import opened Strs
  import opened Values
  import opened Codec
  import opened DataColumns

  /** An index: its defining statement and its description. */
  datatype Index = Index(Define: string, Desc: string)

  /** `NewIndex`: an index with no description. */
  function NewIndex(define: string): (r: Index)
    ensures r.Define == define && r.Desc == ""
  {
    Index(define, "")
  }

  /** The column names, in column order. */
  function Names(cols: seq<DataColumn>): (r: seq<string>)
    reads cols
    ensures |r| == |cols|
    ensures forall i :: 0 <= i < |cols| ==> r[i] == cols[i].Name
  {
    if |cols| == 0 then [] else Names(cols[..|cols| - 1]) + [cols[|cols| - 1].Name]
  }

  /** `stringInSlice`. */
  function StringInSlice(a: string, list: seq<string>): (r: bool)
    ensures r <==> a in list
  {
    if |list| == 0 then false
    else list[0] == a || StringInSlice(a, list[1..])
  }

  /** The wrappers that implement `IsNull`: NullString, NullInt64 and
      NullBool. The other Null* types have no such method. */
  predicate HasIsNull(v: Value)
  {
    v.Null? && v.kind in {TypeString, TypeInt64, TypeBool}
  }

  /** `nullToNil` on one value: an `IsNull` wrapper becomes what its Value()
      returns, nil for a NULL one and the content otherwise; every other
      value, including the other Null* wrappers, passes through unchanged. */
  function Unnull(v: Value): (r: Value)
    ensures HasIsNull(v) && !v.valid ==> r == Nil
    ensures HasIsNull(v) && v.valid ==> r == v.content
    ensures !HasIsNull(v) ==> r == v
  {
    if HasIsNull(v) then (if v.valid then v.content else Nil) else v
  }

  /** On an `IsNull` wrapper, Unnull is exactly its (never failing) Value();
      a wrapper holding a value of its own type is unwrapped for good, so
      a second pass changes nothing. */
  lemma UnnullIsValue(v: Value, f: Foreign)
    ensures HasIsNull(v) ==> Valuer(v, f) == Ok(Unnull(v))
    ensures HasIsNull(v) && Fits(v.kind, v.content) ==> !HasIsNull(Unnull(v))
    ensures (v.Null? ==> Fits(v.kind, v.content)) ==> Unnull(Unnull(v)) == Unnull(v)
  {
  }

  /** `nullToNil`: every value unwrapped, position by position. */
  method NullToNil(values: seq<Value>) returns (r: seq<Value>)
    ensures |r| == |values|
    ensures forall i :: 0 <= i < |values| ==> r[i] == Unnull(values[i])
  {
    var rev := new Value[|values|](_ => Nil);
    for i := 0 to |values|
      invariant forall j :: 0 <= j < i ==> rev[j] == Unnull(values[j])
    {
      var v := values[i];
      if HasIsNull(v) {
        if !v.valid {
          rev[i] := Nil;
        }
        rev[i] := if v.valid then v.content else Nil;
      } else {
        rev[i] := v;
      }
    }
    r := rev[..];
  }

  /** The row map `GetRow` builds: each name bound to the value at its
      position, a later column overwriting an earlier one of the same name. */
  function RowMap(names: seq<string>, vals: seq<Value>): map<string, Value>
    requires |names| == |vals|
  {
    if |names| == 0 then map[]
    else RowMap(names[..|names| - 1], vals[..|vals| - 1])[names[|names| - 1] := vals[|vals| - 1]]
  }

  /** Every column name is a key of the row map. */
  lemma {:induction false} RowMapHasNames(names: seq<string>, vals: seq<Value>)
    requires |names| == |vals|
    ensures forall k :: 0 <= k < |names| ==> names[k] in RowMap(names, vals)
  {
    if |names| > 0 {
      var n := |names| - 1;
      RowMapHasNames(names[..n], vals[..n]);
      assert forall k :: 0 <= k < n ==> names[..n][k] == names[k];
    }
  }

  /** The row map has no keys but the column names. */
  lemma {:induction false} RowMapKeys(names: seq<string>, vals: seq<Value>)
    requires |names| == |vals|
    ensures forall key :: key in RowMap(names, vals) ==> key in names
  {
    if |names| > 0 {
      var n := |names| - 1;
      RowMapKeys(names[..n], vals[..n]);
      assert forall key :: key in names[..n] ==> key in names;
    }
  }

  /** A name that no later column repeats is bound to the value at its own
      position. */
  lemma {:induction false} RowMapLookup(names: seq<string>, vals: seq<Value>, i: nat)
    requires |names| == |vals| && i < |names|
    requires forall j :: i < j < |names| ==> names[j] != names[i]
    ensures names[i] in RowMap(names, vals) && RowMap(names, vals)[names[i]] == vals[i]
  {
    var n := |names| - 1;
    if i < n {
      RowMapLookup(names[..n], vals[..n], i);
    }
  }

  /** What one field of the tab text shows: nil as nothing, anything else
      as `%v` prints it. */
  function Field(v: Value): string
  {
    if v == Nil then "" else Show(v)
  }

  /** The fields of one line: the columns in table order, skipping those
      not selected when a selection is given. */
  function LineFields(names: seq<string>, columns: seq<string>, row: map<string, Value>): seq<string>
    requires forall k :: 0 <= k < |names| ==> names[k] in row
  {
    if |names| == 0 then []
    else
      var last := names[|names| - 1];
      LineFields(names[..|names| - 1], columns, row) +
        (if |columns| > 0 && last !in columns then [] else [Field(row[last])])
  }

  /** The lines of the tab text, one per row. */
  function Lines(names: seq<string>, columns: seq<string>, rows: seq<seq<Value>>): seq<string>
    requires forall i :: 0 <= i < |rows| ==> |rows[i]| == |names|
  {
    if |rows| == 0 then []
    else
      var row := rows[|rows| - 1];
      RowMapHasNames(names, row);
      Lines(names, columns, rows[..|rows| - 1]) + [Join(LineFields(names, columns, RowMap(names, row)), "\t")]
  }

  /** One more row adds its line at the end. */
  lemma LinesSnoc(names: seq<string>, columns: seq<string>, rows: seq<seq<Value>>, i: nat)
    requires forall k :: 0 <= k < |rows| ==> |rows[k]| == |names|
    requires i < |rows|
    ensures forall k :: 0 <= k < |names| ==> names[k] in RowMap(names, rows[i])
    ensures Lines(names, columns, rows[..i + 1]) ==
      Lines(names, columns, rows[..i]) + [Join(LineFields(names, columns, RowMap(names, rows[i])), "\t")]
  {
    RowMapHasNames(names, rows[i]);
    assert rows[..i + 1][..i] == rows[..i];
  }

  /** The tab text: a header of the selected names (all names when none are
      selected), then one line per row, joined by newlines. */
  function TabText(names: seq<string>, columns: seq<string>, rows: seq<seq<Value>>): string
    requires forall i :: 0 <= i < |rows| ==> |rows[i]| == |names|
  {
    Join([Join(if |columns| > 0 then columns else names, "\t")] + Lines(names, columns, rows), "\n")
  }

  /** Without a selection a line has one field per column, in column order. */
  lemma {:induction false} LineFieldsAll(names: seq<string>, row: map<string, Value>)
    requires forall k :: 0 <= k < |names| ==> names[k] in row
    ensures |LineFields(names, [], row)| == |names|
    ensures forall k :: 0 <= k < |names| ==> LineFields(names, [], row)[k] == Field(row[names[k]])
  {
    if |names| > 0 {
      LineFieldsAll(names[..|names| - 1], row);
    }
  }

  /** With a selection a line has one field per selected column, so a
      selection naming no column gives empty lines. */
  lemma {:induction false} LineFieldsCount(names: seq<string>, columns: seq<string>, row: map<string, Value>)
    requires |columns| > 0
    requires forall k :: 0 <= k < |names| ==> names[k] in row
    ensures |LineFields(names, columns, row)| == |set k | 0 <= k < |names| && names[k] in columns|
  {
    if |names| > 0 {
      var n := |names| - 1;
      LineFieldsCount(names[..n], columns, row);
      var before := set k | 0 <= k < n && names[..n][k] in columns;
      assert before == set k | 0 <= k < n && names[k] in columns;
      if names[n] in columns {
        assert (set k | 0 <= k < |names| && names[k] in columns) == before + {n};
      } else {
        assert (set k | 0 <= k < |names| && names[k] in columns) == before;
      }
    }
  }

  class DataTable {
    const TableName: string
    var Columns: seq<DataColumn>
    var Indexes: map<string, Index>
    var Desc: string

    /** `NewDataTable`: no columns, no indexes, no description. */
    constructor (name: string)
      ensures TableName == name && Columns == [] && Indexes == map[] && Desc == ""
    {
      TableName := name;
      Columns := [];
      Indexes := map[];
      Desc := "";
    }

    /** `AddColumn`: the column goes at the end; nothing else changes. */
    method AddColumn(col: DataColumn) returns (r: DataColumn)
      modifies this
      ensures Columns == old(Columns) + [col] && r == col
      ensures Indexes == old(Indexes) && Desc == old(Desc)
    {
      Columns := Columns + [col];
      r := col;
    }

    /** `getSequenceValues`: the value of each column taken from the row map
      by name, in column order; a column missing from the map panics. */
    method GetSequenceValues(r: map<string, Value>) returns (res: Result<seq<Value>>)
      ensures res.Ok? <==> forall i :: 0 <= i < |Columns| ==> Columns[i].Name in r
      ensures res.Ok? ==> (|res.value| == |Columns| &&
        forall i :: 0 <= i < |Columns| ==> res.value[i] == r[Columns[i].Name])
      ensures res.Err? ==> res.error.Panic?
    {
      var vals := new Value[|Columns|];
      for i := 0 to |Columns|
        invariant forall j :: 0 <= j < i ==> Columns[j].Name in r && vals[j] == r[Columns[j].Name]
      {
        var col := Columns[i];
        if col.Name !in r {
          return Err(Panic("can't find column"));
        }
        vals[i] := r[col.Name];
      }
      res := Ok(vals[..]);
    }

    /** `GetRow` on the values of one row: each column name bound to the
        value at that column's position. */
    method GetRow(vals: seq<Value>) returns (result: map<string, Value>)
      requires |vals| == |Columns|
      ensures result == RowMap(Names(Columns), vals)
    {
      var names := Names(Columns);
      result := map[];
      for i := 0 to |Columns|
        invariant result == RowMap(names[..i], vals[..i])
      {
        assert names[..i + 1][..i] == names[..i] && vals[..i + 1][..i] == vals[..i];
        result := result[Columns[i].Name := vals[i]];
      }
      assert names[..|Columns|] == names && vals[..|Columns|] == vals;
    }

    /** The line `AsTabText` writes for one row map. */
    method TabLine(columns: seq<string>, r: map<string, Value>) returns (text: string)
      requires forall k :: 0 <= k < |Columns| ==> Columns[k].Name in r
      ensures text == Join(LineFields(Names(Columns), columns, r), "\t")
    {
      var names := Names(Columns);
      var line: seq<string> := [];
      for j := 0 to |Columns|
        invariant line == LineFields(names[..j], columns, r)
      {
        assert names[..j + 1][..j] == names[..j];
        var c := Columns[j];
        if |columns| > 0 && !StringInSlice(c.Name, columns) {
          continue;
        }
        line := line + [Field(r[c.Name])];
      }
      assert names[..|Columns|] == names;
      text := Join(line, "\t");
    }

    /** The lines `AsTabText` writes below its header, one per row. */
    method TabLines(columns: seq<string>, rows: seq<seq<Value>>) returns (lines: seq<string>)
      requires forall i :: 0 <= i < |rows| ==> |rows[i]| == |Columns|
      ensures lines == Lines(Names(Columns), columns, rows)
    {
      var names := Names(Columns);
      lines := [];
      for i := 0 to |rows|
        invariant lines == Lines(names, columns, rows[..i])
      {
        var r := RowMap(names, rows[i]);  // the map GetRow builds
        LinesSnoc(names, columns, rows, i);
        var line := TabLine(columns, r);
        assert line == Join(LineFields(names, columns, r), "\t");
        lines := lines + [line];
      }
      assert rows[..|rows|] == rows;
    }

    /** `AsTabText(columns...)` over the values of the rows. */
    method AsTabText(columns: seq<string>, rows: seq<seq<Value>>) returns (text: string)
      requires forall i :: 0 <= i < |rows| ==> |rows[i]| == |Columns|
      ensures text == TabText(Names(Columns), columns, rows)
    {
      var header: string;
      if |columns| > 0 {
        header := Join(columns, "\t");
      } else {
        header := Join(Names(Columns), "\t");
      }
      var lines := TabLines(columns, rows);
      text := Join([header] + lines, "\n");
    }
  }
}
