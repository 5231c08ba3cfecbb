/** The column type descriptor `PGType` as a value, the SQL type name it
    prints (`DBString`) and the reading of an SQL type name back into a
    descriptor (`SetDBType`). */
module TypeNames {
  import opened Base
  import opened Values
  import Decimal

  /** `PGType{Type, MaxSize, NotNull}`. MaxSize is a Go `int` (64 bits). */
  datatype TypeDesc = TypeDesc(Type: Kind, MaxSize: int, NotNull: bool)

  const VarcharPrefix: string := "character varying("

  function NotNullSuffix(notNull: bool): string
  {
    if notNull then " NOT NULL" else ""
  }

  /** The type name without the NOT NULL suffix. */
  function BaseName(k: Kind, maxSize: int): string
  {
    match k
    case TypeBool => "boolean"
    case TypeBoolSlice => "boolean[]"
    case TypeBytea => "bytea"
    case TypeFloat64 => "double precision"
    case TypeFloat64Slice => "double precision[]"
    case TypeInt64 => "bigint"
    case TypeInt64Slice => "bigint[]"
    case TypeString =>
      if maxSize == 0 then "text" else VarcharPrefix + Decimal.IntToString(maxSize) + ")"
    case TypeStringSlice =>
      if maxSize == 0 then "text[]" else VarcharPrefix + Decimal.IntToString(maxSize) + ")[]"
    case TypeTime => "timestamp without time zone"
    case TypeTimeSlice => "timestamp without time zone[]"
    case TypeJSON => "jsonb"
    case TypeJSONSlice => "jsonb[]"
  }

  /** `PGType.DBString`: the column type as PostgreSQL spells it. */
  function DBString(p: TypeDesc): (r: string)
    ensures r == BaseName(p.Type, p.MaxSize) + NotNullSuffix(p.NotNull)
  {
    BaseName(p.Type, p.MaxSize) + NotNullSuffix(p.NotNull)
  }

  predicate EndsWith(s: string, suffix: string)
  {
    |suffix| <= |s| && s[|s| - |suffix|..] == suffix
  }

  /** The digits of `t` when it matches `^character varying\((\d+)\)` followed
      by `tail` and the end of the text. */
  function MatchVarchar(t: string, tail: string): (r: Option<string>)
    ensures r.Some? ==> |r.value| >= 1 && Decimal.AllDigits(r.value)
    ensures r.Some? ==> t == VarcharPrefix + r.value + ")" + tail
    ensures r.Some? ==> t[0] == 'c' && t[|VarcharPrefix|] == r.value[0]
    ensures r.Some? ==> t[|t| - 1] == (if tail == "" then ')' else tail[|tail| - 1])
  {
    var n := |VarcharPrefix|;
    if |t| >= n + 2 + |tail| && t[..n] == VarcharPrefix && t[|t| - |tail| - 1..] == ")" + tail then
      var digits := t[n..|t| - |tail| - 1];
      if Decimal.AllDigits(digits) then
        assert t == t[..n] + digits + t[|t| - |tail| - 1..];
        Some(digits)
      else None
    else None
  }

  /** `strconv.Atoi` of a digit string on a 64-bit platform: out of range
      gives the largest int together with the range error. */
  function Atoi(digits: string): (r: (int, Option<Error>))
    ensures Decimal.IsInt64(r.0)
  {
    Decimal.ParseInt64(digits)
  }

  /** `SetDBType(t)` on a receiver holding `cur`: the new receiver and the
      error. Only the fields a branch assigns change; NotNull never does. A
      varchar size that overflows still lands in MaxSize, clamped, and the
      error is returned. */
  function ApplyDBType(cur: TypeDesc, t: string): (r: (TypeDesc, Option<Error>))
  {
    if t == "text" then (cur.(Type := TypeString, MaxSize := 0), None)
    else if t == "text[]" then (cur.(Type := TypeStringSlice, MaxSize := 0), None)
    else if t == "boolean" then (cur.(Type := TypeBool), None)
    else if t == "boolean[]" then (cur.(Type := TypeBoolSlice), None)
    else if t == "bigint" then (cur.(Type := TypeInt64), None)
    else if t == "bigint[]" then (cur.(Type := TypeInt64Slice), None)
    else if t == "double precision" then (cur.(Type := TypeFloat64), None)
    else if t == "double precision[]" then (cur.(Type := TypeFloat64Slice), None)
    else if MatchVarchar(t, "").Some? then
      var n := Atoi(MatchVarchar(t, "").value);
      (cur.(Type := TypeString, MaxSize := n.0), n.1)
    else if MatchVarchar(t, "[]").Some? then
      var n := Atoi(MatchVarchar(t, "[]").value);
      (cur.(Type := TypeStringSlice, MaxSize := n.0), n.1)
    else if t == "timestamp without time zone" || t == "timestamp with time zone" || t == "date" then
      (cur.(Type := TypeTime), None)
    else if t == "timestamp without time zone[]" || t == "timestamp with time zone[]" || t == "date[]" then
      (cur.(Type := TypeTimeSlice), None)
    else if t == "bytea" then (cur.(Type := TypeBytea), None)
    else if t == "jsonb" || t == "json" then (cur.(Type := TypeJSON), None)
    else if t == "jsonb[]" || t == "json[]" then (cur.(Type := TypeJSONSlice), None)
    else (cur, Some(DataTypeInvalid(t)))
  }

  /** The names SetDBType accepts. */
  predicate KnownName(t: string)
  {
    t in {"text", "text[]", "boolean", "boolean[]", "bigint", "bigint[]",
          "double precision", "double precision[]",
          "timestamp without time zone", "timestamp with time zone", "date",
          "timestamp without time zone[]", "timestamp with time zone[]", "date[]",
          "bytea", "jsonb", "json", "jsonb[]", "json[]"}
    || MatchVarchar(t, "").Some? || MatchVarchar(t, "[]").Some?
  }

  /** The printed name ends in " NOT NULL" exactly when the column is NOT NULL. */
  lemma DBStringNotNull(p: TypeDesc)
    ensures EndsWith(DBString(p), " NOT NULL") <==> p.NotNull
  {
    var b := BaseName(p.Type, p.MaxSize);
    if p.NotNull {
      assert DBString(p)[|DBString(p)| - 9..] == " NOT NULL";
    } else {
      assert DBString(p) == b;
      BaseNameNotNullFree(p.Type, p.MaxSize);
    }
  }

  /** No base name ends in 'L' (so none ends in " NOT NULL"). */
  lemma BaseNameNotNullFree(k: Kind, maxSize: int)
    ensures |BaseName(k, maxSize)| >= 1
    ensures BaseName(k, maxSize)[|BaseName(k, maxSize)| - 1] != 'L'
  {
  }

  /** Strings and string arrays print `text`/`text[]` when MaxSize is 0 and
      the varchar form with the size otherwise. */
  lemma DBStringStringKinds(p: TypeDesc)
    requires p.Type == TypeString || p.Type == TypeStringSlice
    ensures p.MaxSize == 0 ==>
      DBString(p) == (if p.Type == TypeString then "text" else "text[]") + NotNullSuffix(p.NotNull)
    ensures p.MaxSize != 0 ==>
      DBString(p) == VarcharPrefix + Decimal.IntToString(p.MaxSize) + (if p.Type == TypeString then ")" else ")[]")
                     + NotNullSuffix(p.NotNull)
  {
  }

  /** The varchar matcher finds exactly the digits that were printed. */
  lemma MatchVarcharPrinted(n: int, tail: string)
    requires n > 0
    requires tail == "" || tail == "[]"
    ensures MatchVarchar(VarcharPrefix + Decimal.IntToString(n) + ")" + tail, tail) == Some(Decimal.IntToString(n))
  {
    var digits := Decimal.IntToString(n);
    var t := VarcharPrefix + digits + ")" + tail;
    var k := |VarcharPrefix|;
    assert t[..k] == VarcharPrefix;
    assert t[|t| - |tail| - 1..] == ")" + tail;
    assert t[k..|t| - |tail| - 1] == digits;
    assert digits[0] != '-';
    assert Decimal.AllDigits(digits);
  }

  /** A printed varchar name reads back as its kind and size. */
  lemma VarcharRoundTrip(n: int, tail: string, cur: TypeDesc)
    requires n > 0 && Decimal.IsInt64(n)
    requires tail == "" || tail == "[]"
    ensures ApplyDBType(cur, VarcharPrefix + Decimal.IntToString(n) + ")" + tail) ==
      (cur.(Type := if tail == "" then TypeString else TypeStringSlice, MaxSize := n), None)
  {
    var t := VarcharPrefix + Decimal.IntToString(n) + ")" + tail;
    MatchVarcharPrinted(n, tail);
    Decimal.IntRoundTrip(n);
    assert t[0] == 'c';
    assert t[|t| - 1] == (if tail == "" then ')' else ']');
  }

  /** Reading back the printed name of a nullable column restores its kind,
      and for the string kinds also their (non-negative) MaxSize. */
  lemma SetDBTypeRoundTrip(p: TypeDesc, cur: TypeDesc)
    requires !p.NotNull && Decimal.IsInt64(p.MaxSize)
    requires p.Type == TypeString || p.Type == TypeStringSlice ==> p.MaxSize >= 0
    ensures ApplyDBType(cur, DBString(p)).1 == None
    ensures ApplyDBType(cur, DBString(p)).0.Type == p.Type
    ensures p.Type == TypeString || p.Type == TypeStringSlice ==>
      ApplyDBType(cur, DBString(p)).0.MaxSize == p.MaxSize
  {
    if (p.Type == TypeString || p.Type == TypeStringSlice) && p.MaxSize != 0 {
      SizedNameRoundTrip(p, cur);
    } else {
      UnsizedName(p);
      FixedNameRoundTrip(p.Type, cur);
    }
  }

  lemma SizedNameRoundTrip(p: TypeDesc, cur: TypeDesc)
    requires !p.NotNull && Decimal.IsInt64(p.MaxSize) && p.MaxSize > 0
    requires p.Type == TypeString || p.Type == TypeStringSlice
    ensures ApplyDBType(cur, DBString(p)) == (cur.(Type := p.Type, MaxSize := p.MaxSize), None)
  {
    var tail := if p.Type == TypeString then "" else "[]";
    assert DBString(p) == VarcharPrefix + Decimal.IntToString(p.MaxSize) + ")" + tail;
    VarcharRoundTrip(p.MaxSize, tail, cur);
  }

  lemma UnsizedName(p: TypeDesc)
    requires !p.NotNull
    requires p.Type == TypeString || p.Type == TypeStringSlice ==> p.MaxSize == 0
    ensures DBString(p) == BaseName(p.Type, 0)
  {
  }

  /** The names without a size read back as their kind. */
  lemma FixedNameRoundTrip(k: Kind, cur: TypeDesc)
    ensures ApplyDBType(cur, BaseName(k, 0)).1 == None
    ensures ApplyDBType(cur, BaseName(k, 0)).0.Type == k
    ensures k == TypeString || k == TypeStringSlice ==> ApplyDBType(cur, BaseName(k, 0)).0.MaxSize == 0
  {
    if k in {TypeBool, TypeBytea, TypeFloat64, TypeInt64, TypeString, TypeTime, TypeJSON} {
      ScalarNameRoundTrip(k, cur);
    } else {
      ArrayNameRoundTrip(k, cur);
    }
  }

  lemma ScalarNameRoundTrip(k: Kind, cur: TypeDesc)
    requires k in {TypeBool, TypeBytea, TypeFloat64, TypeInt64, TypeString, TypeTime, TypeJSON}
    ensures ApplyDBType(cur, BaseName(k, 0)).1 == None
    ensures ApplyDBType(cur, BaseName(k, 0)).0.Type == k
    ensures k == TypeString ==> ApplyDBType(cur, BaseName(k, 0)).0.MaxSize == 0
  {
    var t := BaseName(k, 0);
    assert t[0] != 'c';
    NotVarchar(t);
  }

  lemma ArrayNameRoundTrip(k: Kind, cur: TypeDesc)
    requires k !in {TypeBool, TypeBytea, TypeFloat64, TypeInt64, TypeString, TypeTime, TypeJSON}
    ensures ApplyDBType(cur, BaseName(k, 0)).1 == None
    ensures ApplyDBType(cur, BaseName(k, 0)).0.Type == k
    ensures k == TypeStringSlice ==> ApplyDBType(cur, BaseName(k, 0)).0.MaxSize == 0
  {
    if k in {TypeBoolSlice, TypeInt64Slice, TypeStringSlice} {
      EarlyArrayNameRoundTrip(k, cur);
    } else {
      LateArrayNameRoundTrip(k, cur);
    }
  }

  lemma EarlyArrayNameRoundTrip(k: Kind, cur: TypeDesc)
    requires k in {TypeBoolSlice, TypeInt64Slice, TypeStringSlice}
    ensures ApplyDBType(cur, BaseName(k, 0)).1 == None
    ensures ApplyDBType(cur, BaseName(k, 0)).0.Type == k
    ensures k == TypeStringSlice ==> ApplyDBType(cur, BaseName(k, 0)).0.MaxSize == 0
  {
  }

  lemma LateArrayNameRoundTrip(k: Kind, cur: TypeDesc)
    requires k in {TypeFloat64Slice, TypeTimeSlice, TypeJSONSlice}
    ensures ApplyDBType(cur, BaseName(k, 0)).1 == None
    ensures ApplyDBType(cur, BaseName(k, 0)).0.Type == k
  {
    var t := BaseName(k, 0);
    assert t[0] != 'c';
    NotVarchar(t);
  }

  /** A name not starting with 'c' is no varchar name. */
  lemma NotVarchar(t: string)
    requires |t| > 0 && t[0] != 'c'
    ensures MatchVarchar(t, "").None? && MatchVarchar(t, "[]").None?
  {
  }

  /** A string column with a negative MaxSize prints a name that SetDBType
      rejects. */
  lemma NegativeSizeRejected(p: TypeDesc, cur: TypeDesc)
    requires !p.NotNull && p.MaxSize < 0
    requires p.Type == TypeString || p.Type == TypeStringSlice
    ensures ApplyDBType(cur, DBString(p)) == (cur, Some(DataTypeInvalid(DBString(p))))
  {
    var t := DBString(p);
    var digits := Decimal.IntToString(p.MaxSize);
    assert t == VarcharPrefix + digits + ")" + (if p.Type == TypeString then "" else "[]");
    assert digits[0] == '-';
    assert t[0] == 'c' && t[|VarcharPrefix|] == '-';
    SignedNameRejected(cur, t);
  }

  /** A name with a sign where the varchar size starts is rejected. */
  lemma SignedNameRejected(cur: TypeDesc, t: string)
    requires |t| > |VarcharPrefix| && t[0] == 'c' && t[|VarcharPrefix|] == '-'
    ensures ApplyDBType(cur, t) == (cur, Some(DataTypeInvalid(t)))
  {
    if MatchVarchar(t, "").Some? {
      assert false;
    }
    if MatchVarchar(t, "[]").Some? {
      assert false;
    }
  }

  /** SetDBType never touches NotNull, and leaves the receiver unchanged
      when it rejects the name. */
  lemma SetDBTypeKeepsNotNull(cur: TypeDesc, t: string)
    ensures ApplyDBType(cur, t).0.NotNull == cur.NotNull
    ensures !KnownName(t) <==> ApplyDBType(cur, t).1 == Some(DataTypeInvalid(t))
    ensures !KnownName(t) ==> ApplyDBType(cur, t).0 == cur
  {
    ApplyKeepsNotNull(cur, t);
    if KnownName(t) {
      KnownNameAccepted(cur, t);
    } else {
      UnknownNameRejected(cur, t);
    }
  }

  lemma ApplyKeepsNotNull(cur: TypeDesc, t: string)
    ensures ApplyDBType(cur, t).0.NotNull == cur.NotNull
  {
  }

  lemma UnknownNameRejected(cur: TypeDesc, t: string)
    requires !KnownName(t)
    ensures ApplyDBType(cur, t) == (cur, Some(DataTypeInvalid(t)))
  {
  }

  lemma KnownNameAccepted(cur: TypeDesc, t: string)
    requires KnownName(t)
    ensures ApplyDBType(cur, t).1 != Some(DataTypeInvalid(t))
  {
    if MatchVarchar(t, "").Some? || MatchVarchar(t, "[]").Some? {
      VarcharNameAccepted(cur, t);
    } else {
      FixedNameAccepted(cur, t);
    }
  }

  lemma VarcharNameAccepted(cur: TypeDesc, t: string)
    requires MatchVarchar(t, "").Some? || MatchVarchar(t, "[]").Some?
    ensures ApplyDBType(cur, t).1 != Some(DataTypeInvalid(t))
  {
    assert t[0] == 'c';
    if MatchVarchar(t, "").Some? {
      Decimal.DigitsNoSyntaxError(MatchVarchar(t, "").value);
    } else {
      Decimal.DigitsNoSyntaxError(MatchVarchar(t, "[]").value);
    }
  }

  lemma FixedNameAccepted(cur: TypeDesc, t: string)
    requires KnownName(t) && MatchVarchar(t, "").None? && MatchVarchar(t, "[]").None?
    ensures ApplyDBType(cur, t).1 == None
  {
  }

  /** Timestamps with or without time zone and dates read as Time; json and
      jsonb read as JSON; likewise for their array forms. */
  lemma SetDBTypeNormalises(cur: TypeDesc, t: string)
    ensures t == "timestamp without time zone" || t == "timestamp with time zone" || t == "date" ==>
      ApplyDBType(cur, t) == (cur.(Type := TypeTime), None)
    ensures t == "timestamp without time zone[]" || t == "timestamp with time zone[]" || t == "date[]" ==>
      ApplyDBType(cur, t) == (cur.(Type := TypeTimeSlice), None)
    ensures t == "json" || t == "jsonb" ==> ApplyDBType(cur, t) == (cur.(Type := TypeJSON), None)
    ensures t == "json[]" || t == "jsonb[]" ==> ApplyDBType(cur, t) == (cur.(Type := TypeJSONSlice), None)
  {
    if t == "timestamp without time zone" || t == "timestamp with time zone" || t == "date" {
      TimeNames(cur, t);
    } else if t == "timestamp without time zone[]" || t == "timestamp with time zone[]" || t == "date[]" {
      TimeArrayNames(cur, t);
    } else if t == "json" || t == "jsonb" {
      JsonNames(cur, t);
    } else if t == "json[]" || t == "jsonb[]" {
      JsonArrayNames(cur, t);
    }
  }

  lemma TimeNames(cur: TypeDesc, t: string)
    requires t == "timestamp without time zone" || t == "timestamp with time zone" || t == "date"
    ensures ApplyDBType(cur, t) == (cur.(Type := TypeTime), None)
  {
    NotVarchar(t);
  }

  lemma TimeArrayNames(cur: TypeDesc, t: string)
    requires t == "timestamp without time zone[]" || t == "timestamp with time zone[]" || t == "date[]"
    ensures ApplyDBType(cur, t) == (cur.(Type := TypeTimeSlice), None)
  {
    NotVarchar(t);
  }

  lemma JsonNames(cur: TypeDesc, t: string)
    requires t == "json" || t == "jsonb"
    ensures ApplyDBType(cur, t) == (cur.(Type := TypeJSON), None)
  {
    NotVarchar(t);
  }

  lemma JsonArrayNames(cur: TypeDesc, t: string)
    requires t == "json[]" || t == "jsonb[]"
    ensures ApplyDBType(cur, t) == (cur.(Type := TypeJSONSlice), None)
  {
    NotVarchar(t);
  }

}
