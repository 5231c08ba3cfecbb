/** `DataColumn`: a named column with its PGType, its default expression
    and its description map (`PGDesc`). The description is a Go map, so
    copies of a column share it; the column type is a pointer that `Clone`
    replaces by a copy. */
module DataColumns {
  import opened Base
  import opened Values
  import opened TypeNames
  import opened Codec
  import opened PgType

  /** `PGDesc`: the description map of a column, shared by reference. */
  class PGDesc {
    var Items: map<string, Value>

    constructor ()
      ensures Items == map[]
    {
      Items := map[];
    }
  }

  /** The "OriginName" entry of a description rendered as a string, empty
      when there is none. */
  function DescOrigin(items: map<string, Value>): string
  {
    SafeToString(if "OriginName" in items then items["OriginName"] else Nil)
  }

  /** The arguments `NewColumn` reads from its optional parameters: NotNull,
      MaxSize and the default, each defaulted when absent. A parameter of
      the wrong dynamic type is a failed type assertion, and more than three
      parameters panic. */
  function ColumnParams(params: seq<Value>): (r: Result<(bool, int, string)>)
    ensures |params| == 0 ==> r == Ok((false, 0, ""))
    ensures |params| > 3 ==> r.Err?
    ensures r.Ok? ==>
      (|params| > 0 ==> params[0] == Boolean(r.value.0)) &&
      (|params| > 1 ==> params[1] == Int(r.value.1)) &&
      (|params| > 2 ==> params[2] == Str(r.value.2)) &&
      (|params| <= 1 ==> r.value.1 == 0) &&
      (|params| <= 2 ==> r.value.2 == "")
  {
    if |params| > 0 && !params[0].Boolean? then Err(TypePanic)
    else if |params| > 1 && !params[1].Int? then Err(TypePanic)
    else if |params| > 2 && !params[2].Str? then Err(TypePanic)
    else if |params| > 3 then Err(Panic("too much param"))
    else
      Ok((|params| > 0 && params[0].b,
          if |params| > 1 then params[1].n else 0,
          if |params| > 2 then params[2].s else ""))
  }

  class DataColumn {
    var Name: string
    var PGType: PGType
    var Default: string
    var Desc: PGDesc

    /** `NewColumnT(name, dt, def)`: the column holds `dt` itself and a new,
        empty description. */
    constructor (name: string, dt: PGType, def: string)
      ensures Name == name && PGType == dt && Default == def
      ensures fresh(Desc) && Desc.Items == map[]
    {
      Name := name;
      PGType := dt;
      Default := def;
      Desc := new PGDesc();
    }

    /** `OriginName`: the "OriginName" entry of the description rendered as
        a string, empty when there is none. */
    function OriginName(): (r: string)
      reads this, Desc
      ensures "OriginName" !in Desc.Items ==> r == ""
      ensures "OriginName" in Desc.Items ==> r == SafeToString(Desc.Items["OriginName"])
    {
      DescOrigin(Desc.Items)
    }

    /** `Clone`: a new column with the same fields, except that the column
        type is a fresh copy; the description map stays shared. */
    method Clone() returns (r: DataColumn)
      ensures fresh(r) && fresh(r.PGType)
      ensures r.Name == Name && r.Default == Default && r.Desc == Desc
      ensures r.PGType.Desc() == PGType.Desc()
    {
      var t := PGType.Clone();
      r := new DataColumn(Name, t, Default);
      r.Desc := Desc;
    }

    /** `String`: the text of `value` for this column. */
    method String(value: Value, f: Foreign) returns (r: Result<string>)
      ensures r == Encode(PGType.Desc(), value, f)
    {
      r := PGType.EncodeString(value, f);
    }

    /** `Parse`: the value of the text for this column. */
    method Parse(value: string, f: Foreign) returns (result: Value, err: Option<Error>)
      ensures (result, err) == Decode(PGType.Desc(), value, f)
    {
      result, err := PGType.DecodeString(value, f);
    }

    /** `Null2Nil`: on a nullable column a Null* wrapper becomes its content
        when Valid and nil when not, and any other value is an error; a NOT
        NULL column returns the value unchanged. */
    function Null2Nil(value: Value): (r: Result<Value>)
      reads this, PGType
      ensures PGType.NotNull ==> r == Ok(value)
      ensures !PGType.NotNull ==> (r.Ok? <==> value.Null?)
      ensures !PGType.NotNull && value.Null? ==> r.value == if value.valid then value.content else Nil
    {
      if PGType.NotNull then Ok(value)
      else
        match value
        case Null(_, valid, content) => Ok(if valid then content else Nil)
        case _ => Err(InvalidType(Show(value)))
    }
  }

  /** `NewColumn(name, dataType, param...)`: a column of a new PGType of
      that kind, with the optional parameters applied one by one. */
  method NewColumn(name: string, dataType: Kind, params: seq<Value>) returns (r: Result<DataColumn>)
    ensures r.Ok? <==> ColumnParams(params).Ok?
    ensures r.Ok? ==>
      var p := ColumnParams(params).value;
      fresh(r.value) && fresh(r.value.PGType) && r.value.Name == name &&
      r.value.PGType.Desc() == TypeDesc(dataType, p.1, p.0) && r.value.Default == p.2
    ensures r.Err? ==> r.error == ColumnParams(params).error
  {
    var dt := new PGType(dataType, 0, false);
    if |params| > 0 {
      if !params[0].Boolean? {
        return Err(TypePanic);
      }
      dt.NotNull := params[0].b;
    }
    if |params| > 1 {
      if !params[1].Int? {
        return Err(TypePanic);
      }
      dt.MaxSize := params[1].n;
    }
    var def := "";
    if |params| > 2 {
      if !params[2].Str? {
        return Err(TypePanic);
      }
      def := params[2].s;
    }
    if |params| > 3 {
      return Err(Panic("too much param"));
    }
    var c := new DataColumn(name, dt, def);
    r := Ok(c);
  }

  /** Unwrapping what `Parse` produced on a nullable column gives back the
      decoded value (NullBytea holds plain bytes), except for the JSONSlice
      kind, whose result is never wrapped. */
  lemma Null2NilAfterParse(c: DataColumn, s: string, f: Foreign)
    requires !c.PGType.NotNull && c.PGType.Type != TypeJSONSlice && s != ""
    ensures c.Null2Nil(Decode(c.PGType.Desc(), s, f).0) ==
      Ok(ContentOf(c.PGType.Type, DecodeBare(c.PGType.Type, s, f).0))
  {
    var k := c.PGType.Type;
    var d := DecodeBare(k, s, f).0;
    if d.Nil? {
      assert Wrap(k, d) == Null(k, false, ZeroOf(k));
    } else {
      assert Wrap(k, d) == Null(k, true, ContentOf(k, d));
      assert ContentOf(k, d) != Nil;
    }
  }

  /** `Parse("")` returns nil before any wrapping, and nil is no Null*
      wrapper: unwrapping it on a nullable column is an error. */
  lemma Null2NilOfEmptyParse(c: DataColumn, f: Foreign)
    requires !c.PGType.NotNull
    ensures c.Null2Nil(Decode(c.PGType.Desc(), "", f).0).Err?
  {
  }
}
