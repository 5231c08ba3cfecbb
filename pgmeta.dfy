/** `PgMeta`, the newest generation of the schema helpers: the mapping
    between column kinds and PostgreSQL type names, the default literal of a
    NOT NULL column, the escape-string writer, the catalog row mapping of
    `GetColumns`, `ParamPlaceholder`, and the statement emitters that alter,
    add and create columns, tables and indexes.

    A description (`dbhelper.DBDesc`, whose code is not part of this model)
    is represented by its text: it is empty exactly when `IsEmpty` holds,
    `Equal` is equality of the texts and `Parse` keeps the text. */
module PgMeta {
  import opened Base
  import opened Strs
  import opened Values
  import opened Exec
  import TypeNames
  import Decimal

  // ------------------------------------------------------------ type names

  /** The kinds `getColumnDefine` knows. */
  predicate Definable(t: Kind)
  {
    t in {TypeString, TypeBool, TypeInt64, TypeFloat64, TypeTime, TypeBytea}
  }

  /** The panic of `getColumnDefine` on any other kind. */
  const UnknownKind: Error := Panic("the type is invalid")

  /** `getColumnDefine`: the PostgreSQL type name of a column. A string
      column with a positive size is a varchar of that size, otherwise text. */
  function ColumnDefine(t: Kind, maxSize: int): (r: Result<string>)
    ensures r.Ok? <==> Definable(t)
    ensures r.Err? ==> r.error == UnknownKind
    ensures t == TypeString ==> r == Ok(if maxSize > 0 then TypeNames.BaseName(t, maxSize) else "text")
  {
    match t
    case TypeString =>
      Ok(if maxSize > 0 then TypeNames.VarcharPrefix + Decimal.IntToString(maxSize) + ")" else "text")
    case TypeBool => Ok("boolean")
    case TypeInt64 => Ok("bigint")
    case TypeFloat64 => Ok("double precision")
    case TypeTime => Ok("timestamp without time zone")
    case TypeBytea => Ok("bytea")
    case _ => Err(UnknownKind)
  }

  /** `getDefault`: the literal a NOT NULL column of the kind is filled
      with; kinds without one get NULL. */
  function DefaultOf(t: Kind): (r: string)
    ensures r == "NULL" <==> t !in {TypeString, TypeBool, TypeInt64, TypeFloat64, TypeTime}
  {
    match t
    case TypeString => "''"
    case TypeBool => "false"
    case TypeInt64 => "0"
    case TypeFloat64 => "0"
    case TypeTime => "'allballs'::time"
    case _ => "NULL"
  }

  /** The type switch of `GetColumns`: a catalog type name read as a kind
      and a size. */
  function CatalogType(t: string): (r: Result<(Kind, int)>)
  {
    if t == "text" then Ok((TypeString, 0))
    else if t == "boolean" then Ok((TypeBool, 0))
    else if t == "bigint" then Ok((TypeInt64, 0))
    else if t == "double precision" then Ok((TypeFloat64, 0))
    else if TypeNames.MatchVarchar(t, "").Some? then
      var n := TypeNames.Atoi(TypeNames.MatchVarchar(t, "").value);
      if n.1.Some? then Err(n.1.value) else Ok((TypeString, n.0))
    else if t == "timestamp without time zone" || t == "timestamp with time zone" || t == "date" then
      Ok((TypeTime, 0))
    else if t == "bytea" then Ok((TypeBytea, 0))
    else Err(DataTypeInvalid(t))
  }

  /** The catalog reads back every type name `getColumnDefine` writes: the
      same kind, and for strings the size (zero standing for text). */
  lemma ColumnDefineRoundTrip(t: Kind, maxSize: int)
    requires Definable(t) && Decimal.IsInt64(maxSize)
    ensures CatalogType(ColumnDefine(t, maxSize).value) ==
      Ok((t, if t == TypeString && maxSize > 0 then maxSize else 0))
  {
    var name := ColumnDefine(t, maxSize).value;
    if t == TypeString && maxSize > 0 {
      TypeNames.MatchVarcharPrinted(maxSize, "");
      Decimal.IntRoundTrip(maxSize);
      assert name[0] == 'c';
    } else {
      assert name[0] != 'c';
    }
  }

  /** The time names the catalog reports all read as the time kind. */
  lemma CatalogTimeNames(t: string)
    requires t in {"timestamp without time zone", "timestamp with time zone", "date"}
    ensures CatalogType(t) == Ok((TypeTime, 0))
  {
    assert t[0] != 'c';
  }

  // ------------------------------------------------------------ escaper

  const Backspace: char := '\U{8}'
  const FormFeed: char := '\U{c}'

  /** What `StringExpress` writes for one character. */
  function EscapeRune(c: char): string
  {
    if c == '\0' then "\\0"
    else if c == '\'' then "\\'"
    else if c == Backspace then "\\b"
    else if c == '\n' then "\\n"
    else if c == '\r' then "\\r"
    else if c == '\t' then "\\t"
    else if c == '\\' then "\\\\"
    else [c]
  }

  /** The body of the escape-string constant. */
  function EscapeBody(s: string): string
  {
    if |s| == 0 then "" else EscapeBody(s[..|s| - 1]) + EscapeRune(s[|s| - 1])
  }

  /** `StringExpress`: an escape-string constant `E'...'` whose body is the
      escaped text. */
  method StringExpress(value: string) returns (r: string)
    ensures r == "E'" + EscapeBody(value) + "'"
  {
    var rev: string := "";
    for i := 0 to |value|
      invariant rev == EscapeBody(value[..i])
    {
      assert value[..i + 1][..i] == value[..i];
      var c := value[i];
      if c == '\0' {
        rev := rev + "\\0";
      } else {
        if c == '\'' {
          rev := rev + "\\'";
        } else if c == Backspace {
          rev := rev + "\\b";
        } else if c == '\n' {
          rev := rev + "\\n";
        } else if c == '\r' {
          rev := rev + "\\r";
        } else if c == '\t' {
          rev := rev + "\\t";
        } else if c == '\\' {
          rev := rev + "\\\\";
        } else {
          rev := rev + [c];
        }
      }
    }
    assert value[..|value|] == value;
    r := "E'" + rev + "'";
  }

  lemma {:induction false} EscapeBodyCons(s: string)
    requires |s| > 0
    ensures EscapeBody(s) == EscapeRune(s[0]) + EscapeBody(s[1..])
    decreases |s|
  {
    if |s| > 1 {
      var n := |s| - 1;
      EscapeBodyCons(s[..n]);
      assert s[..n][0] == s[0] && s[..n][1..] == s[1..][..|s[1..]| - 1];
      assert s[1..][|s[1..]| - 1] == s[n];
    } else {
      assert s[..0] == [] && s[1..] == [];
    }
  }

  predicate IsOctal(c: char)
  {
    '0' <= c <= '7'
  }

  /** How many octal digits an octal escape takes: those at the start of
      the text, at most three. */
  function OctalRun(s: string): (n: nat)
    ensures n <= 3 && n <= |s|
    ensures forall k :: 0 <= k < n ==> IsOctal(s[k])
  {
    if |s| == 0 || !IsOctal(s[0]) then 0
    else if |s| == 1 || !IsOctal(s[1]) then 1
    else if |s| == 2 || !IsOctal(s[2]) then 2
    else 3
  }

  function OctalValue(d: string): (v: nat)
    requires forall k :: 0 <= k < |d| ==> IsOctal(d[k])
    ensures v < Pow8(|d|)
  {
    if |d| == 0 then 0
    else OctalValue(d[..|d| - 1]) * 8 + OctalDigit(d[|d| - 1])
  }

  function OctalDigit(c: char): (v: nat)
    requires IsOctal(c)
    ensures v < 8
  {
    (c as int) - ('0' as int)
  }

  function Pow8(n: nat): nat
  {
    if n == 0 then 1 else 8 * Pow8(n - 1)
  }

  /** The character a backslash escape other than an octal, hexadecimal or
      Unicode one stands for: b, f, n, r and t name control characters and
      any other character stands for itself. */
  function EscapedChar(c: char): char
  {
    if c == 'b' then Backspace
    else if c == 'f' then FormFeed
    else if c == 'n' then '\n'
    else if c == 'r' then '\r'
    else if c == 't' then '\t'
    else c
  }

  function Prepend(c: char, rest: Option<string>): Option<string>
  {
    if rest.Some? then Some([c] + rest.value) else None
  }

  /** How PostgreSQL reads the body of an escape-string constant (section
      4.1.2.2 of the PostgreSQL documentation, "String Constants with
      C-Style Escapes"). A lone quote would end the constant and a trailing
      backslash escapes nothing; hexadecimal and Unicode escapes are outside
      this reader. */
  function Unescape(s: string): Option<string>
    decreases |s|
  {
    if |s| == 0 then Some("")
    else if s[0] == '\'' then None
    else if s[0] != '\\' then Prepend(s[0], Unescape(s[1..]))
    else if |s| == 1 then None
    else if IsOctal(s[1]) then
      var n := OctalRun(s[1..]);
      Pow8Bound(n);
      Prepend(OctalValue(s[1..1 + n]) as char, Unescape(s[1 + n..]))
    else if s[1] in {'x', 'u', 'U'} then None
    else Prepend(EscapedChar(s[1]), Unescape(s[2..]))
  }

  lemma Pow8Bound(n: nat)
    requires n <= 3
    ensures Pow8(n) <= 512
  {
    assert Pow8(0) == 1 && Pow8(1) == 8 && Pow8(2) == 64 && Pow8(3) == 512;
  }

  /** No NUL character is followed by an octal digit: PostgreSQL would read
      the digit as part of the octal escape written for the NUL. */
  predicate NoNulBeforeOctal(s: string)
  {
    forall k :: 0 <= k < |s| - 1 && s[k] == '\0' ==> !IsOctal(s[k + 1])
  }

  /** The escaped body starts with a backslash or with the first character. */
  lemma EscapeBodyFirst(s: string)
    requires |s| > 0
    ensures |EscapeBody(s)| > 0
    ensures EscapeBody(s)[0] == '\\' || EscapeBody(s)[0] == s[0]
  {
    EscapeBodyCons(s);
  }

  /** Reading one escaped character followed by more text: the character
      comes back and reading goes on with the text, provided the text does
      not continue the octal escape of a NUL. */
  lemma UnescapeRune(c: char, rest: string)
    requires c == '\0' && |rest| > 0 ==> !IsOctal(rest[0])
    ensures Unescape(EscapeRune(c) + rest) == Prepend(c, Unescape(rest))
  {
    if c == '\0' {
      UnescapeNul(rest);
    } else if EscapeRune(c) == [c] {
      UnescapePlain(c, rest);
    } else {
      UnescapePair(c, rest);
    }
  }

  lemma UnescapePlain(c: char, rest: string)
    requires EscapeRune(c) == [c]
    ensures Unescape([c] + rest) == Prepend(c, Unescape(rest))
  {
    assert c != '\'' && c != '\\';
    assert ([c] + rest)[1..] == rest;
  }

  lemma UnescapePair(c: char, rest: string)
    requires c != '\0' && EscapeRune(c) != [c]
    ensures Unescape(EscapeRune(c) + rest) == Prepend(c, Unescape(rest))
  {
    var x := EscapeRune(c) + rest;
    var d := EscapeRune(c)[1];
    assert EscapeRune(c) == ['\\', d];
    assert !IsOctal(d) && d !in {'x', 'u', 'U'} && EscapedChar(d) == c;
    assert x[0] == '\\' && x[1] == d && x[2..] == rest;
  }

  /** One octal escape read: its digits' value, then the rest. */
  lemma UnescapeOctalStep(s: string)
    requires |s| > 1 && s[0] == '\\' && IsOctal(s[1])
    ensures var n := OctalRun(s[1..]);
      Unescape(s) == Prepend(OctalValue(s[1..1 + n]) as char, Unescape(s[1 + n..]))
  {
  }

  lemma OctalZero()
    ensures OctalValue("0") == 0
  {
    assert "0"[..0] == "";
  }

  /** A backslash and a zero not followed by an octal digit read as NUL. */
  lemma UnescapeNulStep(s: string)
    requires |s| > 1 && s[0] == '\\' && s[1] == '0' && (|s| > 2 ==> !IsOctal(s[2]))
    ensures Unescape(s) == Prepend('\0', Unescape(s[2..]))
  {
    assert OctalRun(s[1..]) == 1;
    assert s[1..2] == "0";
    OctalZero();
    UnescapeOctalStep(s);
  }

  lemma UnescapeNul(rest: string)
    requires |rest| > 0 ==> !IsOctal(rest[0])
    ensures Unescape("\\0" + rest) == Prepend('\0', Unescape(rest))
  {
    var x := "\\0" + rest;
    assert |x| > 1 && x[0] == '\\' && x[1] == '0' && x[2..] == rest;
    UnescapeNulStep(x);
  }

  lemma NoNulBeforeOctalTail(s: string)
    requires |s| > 0 && NoNulBeforeOctal(s)
    ensures NoNulBeforeOctal(s[1..])
  {
    forall k | 0 <= k < |s[1..]| - 1 && s[1..][k] == '\0'
      ensures !IsOctal(s[1..][k + 1])
    {
      assert s[k + 1] == '\0';
    }
  }

  /** Reading the escaped body back gives the text. */
  lemma {:induction false} EscapeRoundTrip(s: string)
    requires NoNulBeforeOctal(s)
    ensures Unescape(EscapeBody(s)) == Some(s)
    decreases |s|
  {
    if |s| > 0 {
      EscapeBodyCons(s);
      var rest := EscapeBody(s[1..]);
      NoNulBeforeOctalTail(s);
      EscapeRoundTrip(s[1..]);
      if s[0] == '\0' && |s| > 1 {
        EscapeBodyFirst(s[1..]);
        assert !IsOctal(s[1]);
      }
      UnescapeRune(s[0], rest);
      assert [s[0]] + s[1..] == s;
    }
  }

  /** Every quote in the escaped body is written as a backslash followed by
      the quote. */
  lemma {:induction false} QuotesEscaped(s: string)
    ensures forall i :: 0 <= i < |EscapeBody(s)| && EscapeBody(s)[i] == '\'' ==>
      i > 0 && EscapeBody(s)[i - 1] == '\\'
    decreases |s|
  {
    if |s| > 0 {
      var n := |s| - 1;
      QuotesEscaped(s[..n]);
      var prev := EscapeBody(s[..n]);
      var tail := EscapeRune(s[n]);
      assert EscapeBody(s) == prev + tail;
      forall i | 0 <= i < |prev + tail| && (prev + tail)[i] == '\''
        ensures i > 0 && (prev + tail)[i - 1] == '\\'
      {
        if i >= |prev| {
          assert tail[i - |prev|] == '\'';
          assert i - |prev| == 1;
        }
      }
    }
  }

  // ------------------------------------------------------------ catalog rows

  /** A column as the schema helpers describe it. */
  datatype TableColumn = TableColumn(Name: string, Type: Kind, MaxSize: int, NotNull: bool, Desc: string)

  /** One row of the column catalog query: name, NOT NULL flag, formatted
      type and the comment (nil when the column has none). */
  datatype CatalogRow = CatalogRow(columnName: string, notNull: bool, dataType: string, columnDesc: Value)

  /** A failed `nil.(string)` or other type assertion on the comment. */
  const DescPanic: Error := Panic("interface conversion: column_desc is not a string")

  /** The column `GetColumns` makes of one catalog row. The comment test
      `column_desc != nil || column_desc.(string) != ""` asserts a string
      exactly when the comment is nil, so a column without comment panics. */
  function ColumnOfRow(row: CatalogRow): (r: Result<TableColumn>)
    ensures r.Ok? <==> CatalogType(row.dataType).Ok? && row.columnDesc.Str?
    ensures r.Ok? ==> r.value == TableColumn(row.columnName, CatalogType(row.dataType).value.0,
      CatalogType(row.dataType).value.1, row.notNull, row.columnDesc.s)
  {
    match CatalogType(row.dataType)
    case Err(e) => Err(e)
    case Ok(tm) =>
      if row.columnDesc != Nil then
        if row.columnDesc.Str? then Ok(TableColumn(row.columnName, tm.0, tm.1, row.notNull, row.columnDesc.s))
        else Err(DescPanic)
      else Err(DescPanic)
  }

  /** Any column without a comment makes the row mapping panic. */
  lemma UncommentedColumnPanics(name: string, notNull: bool)
    ensures ColumnOfRow(CatalogRow(name, notNull, "bigint", Nil)) == Err(DescPanic)
  {
  }

  /** The row mapping with the comment test written `&&`: a nil or empty
      comment gives an empty description. */
  function ColumnOfRowFixed(row: CatalogRow): (r: Result<TableColumn>)
  {
    match CatalogType(row.dataType)
    case Err(e) => Err(e)
    case Ok(tm) =>
      if row.columnDesc != Nil && !row.columnDesc.Str? then Err(DescPanic)
      else
        var desc := if row.columnDesc.Str? then row.columnDesc.s else "";
        Ok(TableColumn(row.columnName, tm.0, tm.1, row.notNull, desc))
  }

  /** The corrected mapping accepts every row with a known type and a nil
      or string comment, treats a missing comment as an empty one, and
      agrees with the written mapping wherever that one succeeds. */
  lemma ColumnOfRowFixedProperties(row: CatalogRow)
    ensures ColumnOfRowFixed(row).Ok? <==>
      CatalogType(row.dataType).Ok? && (row.columnDesc.Nil? || row.columnDesc.Str?)
    ensures row.columnDesc.Nil? && CatalogType(row.dataType).Ok? ==>
      ColumnOfRowFixed(row).value.Desc == ""
    ensures ColumnOfRow(row).Ok? ==> ColumnOfRowFixed(row) == ColumnOfRow(row)
  {
  }

  /** `GetColumns` on the rows of the catalog query: one column per row, in
      row order; the first row that fails ends it with its error. */
  method GetColumns(rows: seq<CatalogRow>) returns (r: Result<seq<TableColumn>>)
    ensures r.Ok? <==> forall i :: 0 <= i < |rows| ==> ColumnOfRow(rows[i]).Ok?
    ensures r.Ok? ==> (|r.value| == |rows| &&
      forall i :: 0 <= i < |rows| ==> r.value[i] == ColumnOfRow(rows[i]).value)
    ensures r.Err? ==> exists k :: (0 <= k < |rows| && ColumnOfRow(rows[k]) == Err(r.error) &&
      forall j :: 0 <= j < k ==> ColumnOfRow(rows[j]).Ok?)
  {
    var rev := new TableColumn[|rows|];
    for i := 0 to |rows|
      invariant forall j :: 0 <= j < i ==> ColumnOfRow(rows[j]).Ok? && rev[j] == ColumnOfRow(rows[j]).value
    {
      var row := rows[i];
      var t := CatalogType(row.dataType);
      if t.Err? {
        return Err(t.error);
      }
      var desc: string;
      if row.columnDesc != Nil || !row.columnDesc.Str? {
        if !row.columnDesc.Str? {
          return Err(DescPanic);
        }
        desc := row.columnDesc.s;
      }
      rev[i] := TableColumn(row.columnName, t.value.0, t.value.1, row.notNull, desc);
    }
    r := Ok(rev[..]);
  }

  // ------------------------------------------------------------ placeholders

  /** `fmt.Sprintf` of a format whose only verbs are the `%s` between the
      pieces: each verb takes the next argument, a verb without one prints
      `%!s(MISSING)`, and arguments left over are listed at the end. */
  function Sprintf(pieces: seq<string>, args: seq<string>): string
    requires |pieces| >= 1
  {
    Fill(pieces, args) + Extra(if |args| > |pieces| - 1 then args[|pieces| - 1..] else [])
  }

  function Fill(pieces: seq<string>, args: seq<string>): string
    requires |pieces| >= 1
    decreases |pieces|
  {
    if |pieces| == 1 then pieces[0]
    else
      pieces[0] + (if |args| > 0 then args[0] else "%!s(MISSING)") +
        Fill(pieces[1..], if |args| > 0 then args[1..] else [])
  }

  function Extra(args: seq<string>): string
  {
    if |args| == 0 then "" else "%!(EXTRA " + Join(ExtraItems(args), ", ") + ")"
  }

  function ExtraItems(args: seq<string>): (r: seq<string>)
    ensures |r| == |args|
  {
    seq(|args|, i requires 0 <= i < |args| => "string=" + args[i])
  }

  /** The placeholders `ParamPlaceholder` passes: `$0`, `$1`, ... */
  function Placeholders(num: nat): (r: seq<string>)
    ensures |r| == num
  {
    seq(num, i requires 0 <= i < num => "$" + Decimal.IntToString(i))
  }

  /** `s` refers to the PostgreSQL positional parameter `m`; those are
      numbered from 1 (section 4.2.2 of the PostgreSQL documentation). */
  predicate ParamRef(s: string, m: int)
  {
    m >= 1 && s == "$" + Decimal.IntToString(m)
  }

  /** `ParamPlaceholder(strSql, num)` for a format made of `pieces` joined
      by `%s` verbs: no parameters leave the text alone; otherwise the
      verbs are filled with the placeholders in order. A negative count
      panics when the placeholder slice is made. */
  method ParamPlaceholder(pieces: seq<string>, num: int) returns (r: Result<string>)
    requires |pieces| >= 1
    requires forall k :: 0 <= k < |pieces| ==> '%' !in pieces[k]
    ensures num == 0 ==> r == Ok(Join(pieces, "%s"))
    ensures num < 0 ==> r.Err?
    ensures num > 0 ==> r == Ok(Sprintf(pieces, Placeholders(num)))
  {
    if num == 0 {
      return Ok(Join(pieces, "%s"));
    }
    if num < 0 {
      return Err(Panic("makeslice: len out of range"));
    }
    var pp := new string[num];
    for i := 0 to num
      invariant forall j :: 0 <= j < i ==> pp[j] == "$" + Decimal.IntToString(j)
    {
      pp[i] := "$" + Decimal.IntToString(i);
    }
    assert pp[..] == Placeholders(num);
    r := Ok(Sprintf(pieces, pp[..]));
  }

  /** With as many placeholders as verbs, every verb is filled in order. */
  lemma {:induction false} FillExact(pieces: seq<string>, args: seq<string>)
    requires |pieces| >= 1 && |args| == |pieces| - 1
    ensures Sprintf(pieces, args) == Fill(pieces, args)
    ensures |pieces| == 2 ==> Fill(pieces, args) == pieces[0] + args[0] + pieces[1]
  {
  }

  /** The first verb receives `$0`, which refers to no parameter: a query
      with one parameter is written `... $0 ...`. */
  lemma FirstPlaceholderIsNoParameter(a: string, b: string)
    ensures Sprintf([a, b], Placeholders(1)) == a + "$0" + b
    ensures forall m :: !ParamRef(Placeholders(1)[0], m)
  {
    assert Placeholders(1)[0] == "$0";
    FillExact([a, b], Placeholders(1));
    forall m | m >= 1
      ensures "$0" != "$" + Decimal.IntToString(m)
    {
      var x := Decimal.IntToString(m);
      Decimal.NatToStringValue(m);
      assert Decimal.Acc("0", 0) == 0;
      assert x != "0";
      assert ("$" + x)[1..] == x && "$0"[1..] == "0";
    }
  }

  /** Placeholders numbered from 1, as PostgreSQL numbers parameters. */
  function PlaceholdersFixed(num: nat): (r: seq<string>)
    ensures |r| == num
  {
    seq(num, i requires 0 <= i < num => "$" + Decimal.IntToString(i + 1))
  }

  /** With the placeholders numbered from 1, the k-th verb refers to the
      k-th parameter. */
  lemma PlaceholdersFixedRefer(num: nat)
    ensures forall k :: 0 <= k < num ==> ParamRef(PlaceholdersFixed(num)[k], k + 1)
  {
  }

  // ------------------------------------------------------------ statements

  /** A statement sent to the database, or a panic raised while the next
      statement was being built (it stops the sequence like an error). */
  datatype Stmt = Sql(text: string) | Fail(err: Error)

  function MetaGate(s: Stmt): Gate
  {
    if s.Fail? then Refuse(s.err) else Send
  }

  function AlterColumnSql(table: string, column: string, action: string): string
  {
    "ALTER TABLE " + table + " ALTER COLUMN " + column + " " + action
  }

  /** `COMMENT ON <target> IS ...`: NULL for an empty description, else
      the description as an escape-string constant. */
  function CommentSql(target: string, desc: string): string
  {
    "COMMENT ON " + target + " IS " + (if desc == "" then "NULL" else "E'" + EscapeBody(desc) + "'")
  }

  /** The comment statement each helper writes inline: NULL for an empty
      description, else the `StringExpress` of it. */
  method CommentOn(target: string, desc: string) returns (text: string)
    ensures text == CommentSql(target, desc)
  {
    if desc == "" {
      text := "COMMENT ON " + target + " IS NULL";
    } else {
      var lit := StringExpress(desc);
      text := "COMMENT ON " + target + " IS " + lit;
    }
  }

  function RenamePart(t: string, o: TableColumn, n: TableColumn): seq<Stmt>
  {
    if o.Name != n.Name then [Sql("ALTER TABLE " + t + " RENAME " + o.Name + " TO " + n.Name)] else []
  }

  function TypePart(t: string, o: TableColumn, n: TableColumn): seq<Stmt>
  {
    if o.Type != n.Type || o.MaxSize != n.MaxSize then
      [match ColumnDefine(n.Type, n.MaxSize)
       case Ok(d) => Sql(AlterColumnSql(t, n.Name, "TYPE " + d))
       case Err(e) => Fail(e)]
    else []
  }

  function NotNullPart(t: string, o: TableColumn, n: TableColumn): seq<Stmt>
  {
    if o.NotNull == n.NotNull then []
    else if n.NotNull then
      [Sql(AlterColumnSql(t, n.Name, "SET DEFAULT " + DefaultOf(n.Type))),
       Sql(AlterColumnSql(t, n.Name, "SET NOT NULL"))]
    else [Sql(AlterColumnSql(t, n.Name, "DROP NOT NULL"))]
  }

  function CommentPart(t: string, o: TableColumn, n: TableColumn): seq<Stmt>
  {
    if o.Desc != n.Desc then [Sql(CommentSql("COLUMN " + t + "." + n.Name, n.Desc))] else []
  }

  /** The statements `AlterColumn` issues, in order. */
  function AlterColumnStmts(t: string, o: TableColumn, n: TableColumn): seq<Stmt>
  {
    RenamePart(t, o, n) + (TypePart(t, o, n) + (NotNullPart(t, o, n) + CommentPart(t, o, n)))
  }

  /** The type change of `AlterColumn`. */
  method RetypeColumn(e: Engine<Stmt>, t: string, o: TableColumn, n: TableColumn) returns (err: Option<Error>)
    modifies e
    ensures (e.Log, err) == Run(old(e.Log), TypePart(t, o, n), e.Accepts, MetaGate)
  {
    err := None;
    if o.Type != n.Type || o.MaxSize != n.MaxSize {
      var d := ColumnDefine(n.Type, n.MaxSize);
      if d.Err? {
        err := EmitThen(e, Fail(d.error), MetaGate, []);
      } else {
        err := EmitThen(e, Sql(AlterColumnSql(t, n.Name, "TYPE " + d.value)), MetaGate, []);
      }
    }
  }

  /** The NOT NULL change of `AlterColumn`: a new NOT NULL first gets the
      kind's default. */
  method ChangeNotNull(e: Engine<Stmt>, t: string, o: TableColumn, n: TableColumn) returns (err: Option<Error>)
    modifies e
    ensures (e.Log, err) == Run(old(e.Log), NotNullPart(t, o, n), e.Accepts, MetaGate)
  {
    err := None;
    if o.NotNull != n.NotNull {
      if n.NotNull {
        var setNotNull := Sql(AlterColumnSql(t, n.Name, "SET NOT NULL"));
        err := EmitThen(e, Sql(AlterColumnSql(t, n.Name, "SET DEFAULT " + DefaultOf(n.Type))), MetaGate, [setNotNull]);
        if err.Some? {
          return;
        }
        err := EmitThen(e, setNotNull, MetaGate, []);
      } else {
        err := EmitThen(e, Sql(AlterColumnSql(t, n.Name, "DROP NOT NULL")), MetaGate, []);
      }
    }
  }

  /** The comment of `AlterColumn`. */
  method CommentColumn(e: Engine<Stmt>, t: string, o: TableColumn, n: TableColumn) returns (err: Option<Error>)
    modifies e
    ensures (e.Log, err) == Run(old(e.Log), CommentPart(t, o, n), e.Accepts, MetaGate)
  {
    err := None;
    if o.Desc != n.Desc {
      var text := CommentOn("COLUMN " + t + "." + n.Name, n.Desc);
      err := EmitThen(e, Sql(text), MetaGate, []);
    }
  }

  /** `AlterColumn`: rename, retype, change NOT NULL, comment, each only
      when needed, stopping at the first failure. */
  method AlterColumn(e: Engine<Stmt>, t: string, o: TableColumn, n: TableColumn) returns (err: Option<Error>)
    modifies e
    ensures (e.Log, err) == Run(old(e.Log), AlterColumnStmts(t, o, n), e.Accepts, MetaGate)
  {
    ghost var rest := TypePart(t, o, n) + (NotNullPart(t, o, n) + CommentPart(t, o, n));
    err := None;
    if o.Name != n.Name {
      err := EmitThen(e, Sql("ALTER TABLE " + t + " RENAME " + o.Name + " TO " + n.Name), MetaGate, rest);
      if err.Some? {
        return;
      }
    } else {
      assert AlterColumnStmts(t, o, n) == rest;
    }
    ghost var l1 := e.Log;
    err := RetypeColumn(e, t, o, n);
    Advance(l1, e.Log, err, TypePart(t, o, n), NotNullPart(t, o, n) + CommentPart(t, o, n), e.Accepts, MetaGate);
    if err.Some? {
      return;
    }
    ghost var l2 := e.Log;
    err := ChangeNotNull(e, t, o, n);
    Advance(l2, e.Log, err, NotNullPart(t, o, n), CommentPart(t, o, n), e.Accepts, MetaGate);
    if err.Some? {
      return;
    }
    err := CommentColumn(e, t, o, n);
  }

  /** `AlterColumn` issues nothing exactly when the two columns agree on
      name, kind, size, NOT NULL and description. */
  lemma AlterColumnNothingToDo(t: string, o: TableColumn, n: TableColumn)
    ensures AlterColumnStmts(t, o, n) == [] <==>
      o.Name == n.Name && o.Type == n.Type && o.MaxSize == n.MaxSize &&
      o.NotNull == n.NotNull && o.Desc == n.Desc
  {
    if AlterColumnStmts(t, o, n) == [] {
      assert |RenamePart(t, o, n)| == 0 && |TypePart(t, o, n)| == 0;
      assert |NotNullPart(t, o, n)| == 0 && |CommentPart(t, o, n)| == 0;
    }
  }

  /** Making a column NOT NULL first gives it its default, then sets NOT
      NULL, right after the rename and type change and before the comment. */
  lemma AlterColumnDefaultBeforeNotNull(t: string, o: TableColumn, n: TableColumn)
    requires !o.NotNull && n.NotNull
    ensures var k := |RenamePart(t, o, n)| + |TypePart(t, o, n)|;
      k + 1 < |AlterColumnStmts(t, o, n)| &&
      AlterColumnStmts(t, o, n)[k] == Sql(AlterColumnSql(t, n.Name, "SET DEFAULT " + DefaultOf(n.Type))) &&
      AlterColumnStmts(t, o, n)[k + 1] == Sql(AlterColumnSql(t, n.Name, "SET NOT NULL"))
  {
  }

  /** A type change to a kind the mapper does not know panics before the
      NOT NULL and comment statements: at most the rename reaches the
      database. */
  lemma AlterColumnUnknownKindStops(t: string, o: TableColumn, n: TableColumn, log: seq<Stmt>,
                                    accepts: (seq<Stmt>, Stmt) -> bool)
    requires (o.Type != n.Type || o.MaxSize != n.MaxSize) && !Definable(n.Type)
    ensures var r := Run(log, AlterColumnStmts(t, o, n), accepts, MetaGate);
      r.1.Some? && (r.0 == log || r.0 == log + RenamePart(t, o, n))
  {
    var rename := RenamePart(t, o, n);
    var rest := TypePart(t, o, n) + (NotNullPart(t, o, n) + CommentPart(t, o, n));
    assert rest[0] == Fail(UnknownKind);
    RunConcat(log, rename, rest, accepts, MetaGate);
    var r1 := Run(log, rename, accepts, MetaGate);
    if rename != [] {
      assert rename[1..] == [];
      assert r1.0 == log + rename;
    }
  }

  /** The statements `AddColumn` issues: the column with its type (and for
      NOT NULL columns a default), then its comment when it has one. */
  function AddColumnStmts(t: string, c: TableColumn): (r: seq<Stmt>)
    ensures |r| == if c.Desc != "" then 2 else 1
    ensures r[0].Fail? <==> !Definable(c.Type)
    ensures c.NotNull && Definable(c.Type) ==>
      TypeNames.EndsWith(r[0].text, " NOT NULL DEFAULT " + DefaultOf(c.Type))
    ensures !c.NotNull && Definable(c.Type) ==>
      r[0].text == "ALTER TABLE " + t + " ADD COLUMN " + c.Name + " " + ColumnDefine(c.Type, c.MaxSize).value
  {
    var nullStr := if c.NotNull then " NOT NULL DEFAULT " + DefaultOf(c.Type) else "";
    [match ColumnDefine(c.Type, c.MaxSize)
     case Ok(d) => Sql("ALTER TABLE " + t + " ADD COLUMN " + c.Name + " " + d + nullStr)
     case Err(e) => Fail(e)] +
    (if c.Desc != "" then [Sql(CommentSql("COLUMN " + t + "." + c.Name, c.Desc))] else [])
  }

  /** `AddColumn`. */
  method AddColumn(e: Engine<Stmt>, t: string, c: TableColumn) returns (err: Option<Error>)
    modifies e
    ensures (e.Log, err) == Run(old(e.Log), AddColumnStmts(t, c), e.Accepts, MetaGate)
  {
    ghost var todo := AddColumnStmts(t, c);
    var nullStr := "";
    if c.NotNull {
      nullStr := " NOT NULL DEFAULT " + DefaultOf(c.Type);
    }
    var d := ColumnDefine(c.Type, c.MaxSize);
    if d.Err? {
      err := Emit(e, Fail(d.error), MetaGate, todo);
      return;
    }
    err := Emit(e, Sql("ALTER TABLE " + t + " ADD COLUMN " + c.Name + " " + d.value + nullStr), MetaGate, todo);
    if err.Some? {
      return;
    }
    todo := todo[1..];
    if c.Desc != "" {
      var text := CommentOn("COLUMN " + t + "." + c.Name, c.Desc);
      err := Emit(e, Sql(text), MetaGate, todo);
      if err.Some? {
        return;
      }
      todo := todo[1..];
    }
    assert todo == [];
  }

  /** `AlterTableDesc`: one comment statement. */
  method AlterTableDesc(e: Engine<Stmt>, t: string, desc: string) returns (err: Option<Error>)
    modifies e
    ensures (e.Log, err) == Run(old(e.Log), [Sql(CommentSql("TABLE " + t, desc))], e.Accepts, MetaGate)
  {
    var text := CommentOn("TABLE " + t, desc);
    err := Emit(e, Sql(text), MetaGate, [Sql(text)]);
  }

  // ------------------------------------------------------------ indexes

  /** The CREATE INDEX statement as written: the unique flag is glued to
      the keyword, giving `CREATE UNIQUEINDEX`. */
  function CreateIndexSql(table: string, index: string, columns: seq<string>, unique: bool): string
  {
    "CREATE " + (if unique then "UNIQUE" else "") + "INDEX " + index + " ON " + table + "(" + Join(columns, ",") + ")"
  }

  /** A unique index is requested with the word `UNIQUEINDEX`, which is no
      PostgreSQL keyword. */
  lemma UniqueIndexGlued(table: string, index: string, columns: seq<string>)
    ensures CreateIndexSql(table, index, columns, true)[..19] == "CREATE UNIQUEINDEX "
  {
  }

  /** The CREATE INDEX statement with the flag followed by a space. */
  function CreateIndexSqlFixed(table: string, index: string, columns: seq<string>, unique: bool): (r: string)
  {
    "CREATE " + (if unique then "UNIQUE " else "") + "INDEX " + index + " ON " + table + "(" + Join(columns, ",") + ")"
  }

  /** The corrected statement starts with `CREATE UNIQUE INDEX ` for a
      unique index and `CREATE INDEX ` otherwise, and names the index, the
      table and the columns in that order. */
  lemma CreateIndexSqlFixedForm(table: string, index: string, columns: seq<string>, unique: bool)
    ensures var r := CreateIndexSqlFixed(table, index, columns, unique);
      var head := if unique then "CREATE UNIQUE INDEX " else "CREATE INDEX ";
      |head| <= |r| && r[..|head|] == head &&
      r[|head|..] == index + " ON " + table + "(" + Join(columns, ",") + ")"
  {
    var head := "CREATE " + (if unique then "UNIQUE " else "") + "INDEX ";
    var rest := index + " ON " + table + "(" + Join(columns, ",") + ")";
    assert head + index + " ON " + table + "(" + Join(columns, ",") + ")" == head + rest;
    assert head == if unique then "CREATE UNIQUE INDEX " else "CREATE INDEX ";
    assert (head + rest)[..|head|] == head && (head + rest)[|head|..] == rest;
  }

  /** The statements of `CreateIndex`: the index, then always its comment. */
  function CreateIndexStmts(table: string, index: string, columns: seq<string>, unique: bool, desc: string): seq<Stmt>
  {
    [Sql(CreateIndexSql(table, index, columns, unique)), Sql(CommentSql("INDEX " + index, desc))]
  }

  /** `CreateIndex`. */
  method CreateIndex(e: Engine<Stmt>, table: string, index: string, columns: seq<string>, unique: bool, desc: string)
    returns (err: Option<Error>)
    modifies e
    ensures (e.Log, err) == Run(old(e.Log), CreateIndexStmts(table, index, columns, unique, desc), e.Accepts, MetaGate)
  {
    ghost var todo := CreateIndexStmts(table, index, columns, unique, desc);
    var uniqueStr := "";
    if unique {
      uniqueStr := "UNIQUE";
    }
    err := Emit(e, Sql("CREATE " + uniqueStr + "INDEX " + index + " ON " + table + "(" + Join(columns, ",") + ")"), MetaGate, todo);
    if err.Some? {
      return;
    }
    todo := todo[1..];
    var text := CommentOn("INDEX " + index, desc);
    err := Emit(e, Sql(text), MetaGate, todo);
  }

  /** `AlterIndex`: drop the index, then create it anew. */
  method AlterIndex(e: Engine<Stmt>, table: string, index: string, columns: seq<string>, unique: bool, desc: string)
    returns (err: Option<Error>)
    modifies e
    ensures (e.Log, err) == Run(old(e.Log), [Sql("DROP INDEX " + index)] + CreateIndexStmts(table, index, columns, unique, desc),
                                e.Accepts, MetaGate)
  {
    ghost var todo := [Sql("DROP INDEX " + index)] + CreateIndexStmts(table, index, columns, unique, desc);
    err := Emit(e, Sql("DROP INDEX " + index), MetaGate, todo);
    if err.Some? {
      return;
    }
    assert todo[1..] == CreateIndexStmts(table, index, columns, unique, desc);
    err := CreateIndex(e, table, index, columns, unique, desc);
  }

  /** When the database accepts everything, creating an index sends two
      statements and re-creating one sends three, the drop first. */
  lemma IndexStatementsSent(log: seq<Stmt>, table: string, index: string, columns: seq<string>, unique: bool, desc: string,
                            accepts: (seq<Stmt>, Stmt) -> bool)
    requires forall l, s :: accepts(l, s)
    ensures Run(log, CreateIndexStmts(table, index, columns, unique, desc), accepts, MetaGate) ==
      (log + CreateIndexStmts(table, index, columns, unique, desc), None)
    ensures Run(log, [Sql("DROP INDEX " + index)] + CreateIndexStmts(table, index, columns, unique, desc), accepts, MetaGate) ==
      (log + [Sql("DROP INDEX " + index)] + CreateIndexStmts(table, index, columns, unique, desc), None)
  {
    var c := CreateIndexStmts(table, index, columns, unique, desc);
    var drop := [Sql("DROP INDEX " + index)];
    assert c[0].Sql? && c[1].Sql? && |c| == 2;
    RunAccepted(log, c, accepts);
    assert forall i :: 0 <= i < |drop + c| ==> (drop + c)[i].Sql?;
    RunAccepted(log, drop + c, accepts);
    assert log + (drop + c) == log + drop + c;
  }

  /** Statements the database accepts, none of them a panic, all reach it. */
  lemma {:induction false} RunAccepted(log: seq<Stmt>, stmts: seq<Stmt>, accepts: (seq<Stmt>, Stmt) -> bool)
    requires forall l, s :: accepts(l, s)
    requires forall i :: 0 <= i < |stmts| ==> stmts[i].Sql?
    ensures Run(log, stmts, accepts, MetaGate) == (log + stmts, None)
    decreases |stmts|
  {
    if |stmts| > 0 {
      assert MetaGate(stmts[0]) == Send;
      assert Step(log, stmts[0], accepts, MetaGate) == (log + [stmts[0]], None);
      assert Run(log, stmts, accepts, MetaGate) == Run(log + [stmts[0]], stmts[1..], accepts, MetaGate);
      RunAccepted(log + [stmts[0]], stmts[1..], accepts);
      assert log + [stmts[0]] + stmts[1..] == log + stmts;
    } else {
      assert log + stmts == log;
    }
  }

  // ------------------------------------------------------------ tables

  /** A table as the schema helpers describe it. */
  datatype TableSpec = TableSpec(TableName: string, Temporary: bool, PK: seq<string>, Columns: seq<TableColumn>, Desc: string)

  /** One column clause of CREATE TABLE: name, type and, for NOT NULL
      columns, the NOT NULL default (the format puts a space before it). */
  function ColumnClause(c: TableColumn, define: string): string
  {
    c.Name + " " + define + " " + (if c.NotNull then " NOT NULL DEFAULT " + DefaultOf(c.Type) else "")
  }

  /** The column clauses, or the panic of the first column whose kind the
      mapper does not know. */
  function Creates(cols: seq<TableColumn>): (r: Result<seq<string>>)
    ensures r.Ok? <==> forall i :: 0 <= i < |cols| ==> Definable(cols[i].Type)
    ensures r.Ok? ==> (|r.value| == |cols| &&
      forall i :: 0 <= i < |cols| ==> r.value[i] == ColumnClause(cols[i], ColumnDefine(cols[i].Type, cols[i].MaxSize).value))
    ensures r.Err? ==> r.error == UnknownKind
  {
    if |cols| == 0 then Ok([])
    else
      var last := cols[|cols| - 1];
      match Creates(cols[..|cols| - 1])
      case Err(e) => Err(e)
      case Ok(cs) =>
        match ColumnDefine(last.Type, last.MaxSize)
        case Err(e) => Err(e)
        case Ok(d) => Ok(cs + [ColumnClause(last, d)])
  }

  /** The single CREATE statement of `CreateTable`. */
  function CreateTableStmt(table: TableSpec): Stmt
  {
    match Creates(table.Columns)
    case Err(e) => Fail(e)
    case Ok(cs) =>
      var all := cs + (if |table.PK| > 0 then ["PRIMARY KEY(" + Join(table.PK, ",") + ")"] else []);
      if table.Temporary then
        Sql("CREATE TEMPORARY TABLE " + table.TableName + "(\n" + Join(all, ",") + "\n) ON COMMIT DROP")
      else
        Sql("CREATE TABLE " + table.TableName + "(\n" + Join(all, ",") + "\n)")
  }

  /** `CreateTable`: the clauses are built in a loop and one statement is
      sent; the function returns right after it, so the comment statements
      that follow in the source are never reached. */
  method CreateTable(e: Engine<Stmt>, table: TableSpec) returns (err: Option<Error>)
    modifies e
    ensures (e.Log, err) == Run(old(e.Log), [CreateTableStmt(table)], e.Accepts, MetaGate)
  {
    var creates: seq<string> := [];
    for i := 0 to |table.Columns|
      invariant Creates(table.Columns[..i]) == Ok(creates)
    {
      assert table.Columns[..i + 1][..i] == table.Columns[..i];
      var c := table.Columns[i];
      var nullStr := "";
      if c.NotNull {
        nullStr := " NOT NULL DEFAULT " + DefaultOf(c.Type);
      }
      var d := ColumnDefine(c.Type, c.MaxSize);
      if d.Err? {
        CreatesFailPrefix(table.Columns, i + 1);
        err := Emit(e, Fail(d.error), MetaGate, [CreateTableStmt(table)]);
        return;
      }
      creates := creates + [c.Name + " " + d.value + " " + nullStr];
    }
    assert table.Columns[..|table.Columns|] == table.Columns;
    ghost var cs := creates;
    if |table.PK| > 0 {
      creates := creates + ["PRIMARY KEY(" + Join(table.PK, ",") + ")"];
    }
    assert creates == cs + (if |table.PK| > 0 then ["PRIMARY KEY(" + Join(table.PK, ",") + ")"] else []);
    var text: string;
    if table.Temporary {
      text := "CREATE TEMPORARY TABLE " + table.TableName + "(\n" + Join(creates, ",") + "\n) ON COMMIT DROP";
    } else {
      text := "CREATE TABLE " + table.TableName + "(\n" + Join(creates, ",") + "\n)";
    }
    err := Emit(e, Sql(text), MetaGate, [CreateTableStmt(table)]);
  }

  /** A failing prefix makes the whole column list fail. */
  lemma {:induction false} CreatesFailPrefix(cols: seq<TableColumn>, n: nat)
    requires n <= |cols| && Creates(cols[..n]).Err?
    ensures Creates(cols).Err?
  {
    var k :| 0 <= k < n && !Definable(cols[..n][k].Type);
    assert cols[k] == cols[..n][k];
  }

  /** The CREATE statement is temporary, with ON COMMIT DROP, exactly for a
      temporary table, and lists the column clauses and then the primary
      key between its parentheses. */
  lemma CreateTableForm(table: TableSpec)
    requires Creates(table.Columns).Ok?
    ensures CreateTableStmt(table).Sql?
    ensures var text := CreateTableStmt(table).text;
      var all := Creates(table.Columns).value + (if |table.PK| > 0 then ["PRIMARY KEY(" + Join(table.PK, ",") + ")"] else []);
      (|text| >= 13 && text[..13] == "CREATE TABLE " <==> !table.Temporary) &&
      (TypeNames.EndsWith(text, ") ON COMMIT DROP") <==> table.Temporary) &&
      (table.Temporary ==> text == "CREATE TEMPORARY TABLE " + table.TableName + "(\n" + Join(all, ",") + "\n) ON COMMIT DROP") &&
      (!table.Temporary ==> text == "CREATE TABLE " + table.TableName + "(\n" + Join(all, ",") + "\n)")
  {
    var all := Creates(table.Columns).value + (if |table.PK| > 0 then ["PRIMARY KEY(" + Join(table.PK, ",") + ")"] else []);
    if table.Temporary {
      TemporaryForm(table.TableName, Join(all, ","));
    } else {
      PlainForm(table.TableName, Join(all, ","));
    }
  }

  /** A temporary table's statement does not start like a plain one's. */
  lemma TemporaryForm(name: string, clauses: string)
    ensures var text := "CREATE TEMPORARY TABLE " + name + "(\n" + clauses + "\n) ON COMMIT DROP";
      !(|text| >= 13 && text[..13] == "CREATE TABLE ") && TypeNames.EndsWith(text, ") ON COMMIT DROP")
  {
    var text := "CREATE TEMPORARY TABLE " + name + "(\n" + clauses + "\n) ON COMMIT DROP";
    assert text[8] == 'E';
    assert "CREATE TABLE "[8] == 'A';
    assert text[|text| - 16..] == ") ON COMMIT DROP";
  }

  /** A plain table's statement does not end like a temporary one's. */
  lemma PlainForm(name: string, clauses: string)
    ensures var text := "CREATE TABLE " + name + "(\n" + clauses + "\n)";
      |text| >= 13 && text[..13] == "CREATE TABLE " && !TypeNames.EndsWith(text, ") ON COMMIT DROP")
  {
    var text := "CREATE TABLE " + name + "(\n" + clauses + "\n)";
    assert text[|text| - 1] == ')';
    assert text[..13] == "CREATE TABLE ";
  }
}
