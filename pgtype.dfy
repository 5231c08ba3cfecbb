/** `PGType`, the mutable column type object: its constructor, Clone,
    DBString, SetDBType (which updates the receiver in place) and the
    EncodeString/DecodeString codec, whose slice branches fill buffers in
    loops. Each method is proved against the functions of TypeNames and
    Codec. */
module PgType {
  import opened Base
  import opened Values
  import opened TypeNames
  import opened Codec
  import Decimal

  class PGType {
    var Type: Kind
    var MaxSize: int
    var NotNull: bool

    /** `NewPGType(t, maxsize, notnull)`. */
    constructor (t: Kind, maxSize: int, notNull: bool)
      ensures Desc() == TypeDesc(t, maxSize, notNull)
    {
      Type := t;
      MaxSize := maxSize;
      NotNull := notNull;
    }

    /** The descriptor the object currently holds. */
    function Desc(): TypeDesc
      reads this
    {
      TypeDesc(Type, MaxSize, NotNull)
    }

    /** `Clone`: a distinct object with the same fields. */
    method Clone() returns (r: PGType)
      ensures fresh(r) && r.Desc() == Desc()
    {
      r := new PGType(Type, MaxSize, NotNull);
    }

    /** `DBString`: the PostgreSQL type name, with " NOT NULL" exactly for
        NOT NULL columns. */
    function DBString(): (r: string)
      reads this
      ensures EndsWith(r, " NOT NULL") <==> NotNull
    {
      DBStringNotNull(Desc());
      TypeNames.DBString(Desc())
    }

    /** `SetDBType`: reads a PostgreSQL type name into the receiver. */
    method SetDBType(t: string) returns (err: Option<Error>)
      modifies this
      ensures (Desc(), err) == ApplyDBType(old(Desc()), t)
    {
      err := None;
      if t == "text" {
        Type := TypeString;
        MaxSize := 0;
      } else if t == "text[]" {
        Type := TypeStringSlice;
        MaxSize := 0;
      } else if t == "boolean" {
        Type := TypeBool;
      } else if t == "boolean[]" {
        Type := TypeBoolSlice;
      } else if t == "bigint" {
        Type := TypeInt64;
      } else if t == "bigint[]" {
        Type := TypeInt64Slice;
      } else if t == "double precision" {
        Type := TypeFloat64;
      } else if t == "double precision[]" {
        Type := TypeFloat64Slice;
      } else if MatchVarchar(t, "").Some? {
        Type := TypeString;
        var n := Atoi(MatchVarchar(t, "").value);
        MaxSize := n.0;
        err := n.1;
      } else if MatchVarchar(t, "[]").Some? {
        Type := TypeStringSlice;
        var n := Atoi(MatchVarchar(t, "[]").value);
        MaxSize := n.0;
        err := n.1;
      } else if t == "timestamp without time zone" || t == "timestamp with time zone" || t == "date" {
        Type := TypeTime;
      } else if t == "timestamp without time zone[]" || t == "timestamp with time zone[]" || t == "date[]" {
        Type := TypeTimeSlice;
      } else if t == "bytea" {
        Type := TypeBytea;
      } else if t == "jsonb" || t == "json" {
        Type := TypeJSON;
      } else if t == "jsonb[]" || t == "json[]" {
        Type := TypeJSONSlice;
      } else {
        err := Some(DataTypeInvalid(t));
      }
    }

    /** `EncodeString`: the text of `value` for this column. */
    method EncodeString(value: Value, f: Foreign) returns (r: Result<string>)
      ensures r == Encode(Desc(), value, f)
    {
      if value.Nil? {
        return Ok("");
      }
      var v := value;
      if !NotNull {
        var w := Valuer(value, f);
        if w.Err? {
          return Err(w.error);
        }
        if w.value.Nil? {
          return Ok("");
        }
        v := w.value;
      }
      if Type == TypeBoolSlice && v.BoolSlice? && |v.bools| > 0 {
        var tmpv := BoolElements(v.bools);
        r := Ok(f.encodeArray(tmpv));
      } else if Type == TypeInt64Slice && v.Int64Slice? && |v.ints| > 0 {
        var tmpv := IntElements(v.ints);
        r := Ok(f.encodeArray(tmpv));
      } else {
        r := EncodeBare(Type, v, f);
      }
    }

    /** The element texts of a bool array: "t" or "f" each. */
    static method BoolElements(xs: seq<bool>) returns (texts: seq<string>)
      ensures texts == BoolTexts(xs)
    {
      var tmpv := new string[|xs|];
      for i := 0 to |xs|
        invariant forall j :: 0 <= j < i ==> tmpv[j] == BoolChar(xs[j])
      {
        if xs[i] {
          tmpv[i] := "t";
        } else {
          tmpv[i] := "f";
        }
      }
      texts := tmpv[..];
    }

    /** The element texts of an int64 array: the decimal of each. */
    static method IntElements(xs: seq<int>) returns (texts: seq<string>)
      ensures texts == IntTexts(xs)
    {
      var tmpv := new string[|xs|];
      for i := 0 to |xs|
        invariant forall j :: 0 <= j < i ==> tmpv[j] == Decimal.IntToString(xs[j])
      {
        tmpv[i] := Decimal.IntToString(xs[i]);
      }
      texts := tmpv[..];
    }

    /** `DecodeString`: the value of the text `value` for this column,
        together with the error. */
    method DecodeString(value: string, f: Foreign) returns (result: Value, err: Option<Error>)
      ensures (result, err) == Decode(Desc(), value, f)
    {
      if value == "" {
        return Nil, None;
      }
      err := None;
      if Type == TypeBoolSlice {
        var tmp := f.parseArray(value);
        var rev := new bool[|tmp|];
        for i := 0 to |tmp|
          invariant forall j :: 0 <= j < i ==> rev[j] == (tmp[j] == "t")
        {
          rev[i] := tmp[i] == "t";
        }
        assert rev[..] == ParseBools(tmp);
        result := BoolSlice(rev[..]);
      } else if Type == TypeInt64Slice {
        var parsed := ParseIntSlice(f.parseArray(value));
        if parsed.Ok? {
          result := Int64Slice(parsed.value);
        } else {
          result, err := Nil, Some(parsed.error);
        }
      } else {
        var d := DecodeBare(Type, value, f);
        result, err := d.0, d.1;
      }
      if !NotNull {
        result := Wrap(Type, result);
      }
    }
  }

  /** The element loop of the Int64Slice decoder: parse each element, and
      stop at the first one that fails. */
  method ParseIntSlice(tmp: seq<string>) returns (r: Result<seq<int>>)
    ensures r == ParseInts(tmp)
  {
    var rev := new int[|tmp|];
    var i := 0;
    while i < |tmp|
      invariant 0 <= i <= |tmp|
      invariant ParseInts(tmp[..i]) == Ok(rev[..i])
    {
      var p := Decimal.ParseInt64(tmp[i]);
      if p.1.Some? {
        assert tmp[..i + 1][..i] == tmp[..i];
        ParseIntsErrPrefix(tmp, i + 1);
        return Err(p.1.value);
      }
      ghost var prev := rev[..i];
      rev[i] := p.0;
      assert rev[..i + 1] == prev + [p.0];
      assert tmp[..i + 1][..i] == tmp[..i];
      i := i + 1;
    }
    assert tmp[..i] == tmp && rev[..i] == rev[..];
    r := Ok(rev[..]);
  }
}
