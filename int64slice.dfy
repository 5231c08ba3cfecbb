/** `Int64Slice` (a []int64 that reads and writes PostgreSQL bigint[]
    text) and its nullable wrapper `NullInt64Slice`. */
module Int64Slices {
  import opened Base
  import opened Strs
  import opened Values
  import opened Codec
  import opened Nullable
  import PgType
  import Decimal

  /** `Int64Slice.Value`: nil for an empty slice, otherwise `{a,b,...}`
      with the decimal elements. */
  method Value(xs: seq<int>) returns (r: Value)
    ensures r == SliceValue(xs)
  {
    if |xs| == 0 {
      return Nil;
    }
    var rev := new string[|xs|];
    for i := 0 to |xs|
      invariant forall j :: 0 <= j < i ==> rev[j] == Decimal.IntToString(xs[j])
    {
      rev[i] := Decimal.IntToString(xs[i]);
    }
    assert rev[..] == IntTexts(xs);
    r := Str("{" + Join(rev[..], ",") + "}");
  }

  /** `Int64Slice.Scan` into a slice holding `cur`: the slice afterwards and
      the error. Array text is parsed element by element and the slice is
      left alone if any element fails; an Int64Slice or []int64 is stored
      as it is; anything else is a conversion error. */
  function ScanResult(cur: seq<int>, value: Value, parseArray: string -> seq<string>): (r: (seq<int>, Option<Error>))
    ensures value.Bytes? ==>
      var parsed := ParseInts(parseArray(FromBytes(value.bytes)));
      (parsed.Ok? ==> r == (parsed.value, None)) &&
      (parsed.Err? ==> r == (cur, Some(parsed.error)))
    ensures value.Int64Slice? || value.Int64Array? ==> r == (value.ints, None)
    ensures !(value.Bytes? || value.Int64Slice? || value.Int64Array?) ==>
      r == (cur, Some(Convert("Int64Slice")))
  {
    match value
    case Bytes(t) =>
      var parsed := ParseInts(parseArray(FromBytes(t)));
      if parsed.Err? then (cur, Some(parsed.error)) else (parsed.value, None)
    case Int64Slice(t) => (t, None)
    case Int64Array(t) => (t, None)
    case _ => (cur, Some(Convert("Int64Slice")))
  }

  method Scan(cur: seq<int>, value: Value, parseArray: string -> seq<string>) returns (next: seq<int>, err: Option<Error>)
    ensures (next, err) == ScanResult(cur, value, parseArray)
  {
    match value
    case Bytes(t) =>
      var parsed := PgType.ParseIntSlice(parseArray(FromBytes(t)));
      if parsed.Err? {
        return cur, Some(parsed.error);
      }
      next, err := parsed.value, None;
    case Int64Slice(t) =>
      next, err := t, None;
    case Int64Array(t) =>
      next, err := t, None;
    case _ =>
      next, err := cur, Some(Convert("Int64Slice"));
  }

  /** `NullInt64Slice.Value`: nil when NULL, else the slice's Value(). */
  function NullValue(n: Nullable<seq<int>>): (r: Value)
    reads n
    ensures !n.Valid ==> r == Nil
    ensures n.Valid ==> r == SliceValue(n.Content)
  {
    if !n.Valid then Nil else SliceValue(n.Content)
  }

  /** `NullInt64Slice.GetValue`: the Int64Slice when Valid, nil otherwise. */
  function GetValue(n: Nullable<seq<int>>): (r: Value)
    reads n
    ensures r == (match n.GetValue() case Some(xs) => Int64Slice(xs) case None => Nil)
  {
    if n.Valid then Int64Slice(n.Content) else Nil
  }

  /** `NullInt64Slice.Scan`: another NullInt64Slice is copied; nil makes the
      wrapper NULL; anything else makes it Valid first and then scans into
      the slice, so a failed scan still leaves it Valid. */
  method ScanNull(n: Nullable<seq<int>>, value: Value, parseArray: string -> seq<string>) returns (err: Option<Error>)
    modifies n
    ensures value.Null? && value.kind == TypeInt64Slice && value.content.Int64Slice? ==>
      n.Content == value.content.ints && n.Valid == value.valid && err == None
    ensures value.Nil? ==> !n.Valid && n.Content == [] && err == None && NullValue(n) == Nil
    ensures !(value.Nil? || (value.Null? && value.kind == TypeInt64Slice && value.content.Int64Slice?)) ==>
      n.Valid && (n.Content, err) == ScanResult(old(n.Content), value, parseArray)
    ensures value.Int64Slice? ==> n.Content == value.ints && err == None && NullValue(n) == SliceValue(value.ints)
  {
    if value.Null? && value.kind == TypeInt64Slice && value.content.Int64Slice? {
      n.Content := value.content.ints;
      n.Valid := value.valid;
      err := None;
    } else if value.Nil? {
      n.Valid := false;
      n.Content := [];
      err := None;
    } else {
      n.Valid := true;
      var next;
      next, err := Scan(n.Content, value, parseArray);
      n.Content := next;
    }
  }

  /** `NullInt64Slice.SetValue`: nil makes the wrapper NULL, an Int64Slice
      makes it Valid with that slice; any other value fails the type
      assertion after Valid has already been set. */
  method SetValue(n: Nullable<seq<int>>, value: Value) returns (err: Option<Error>)
    modifies n
    requires n.Zero == []
    ensures value.Nil? ==> err == None && GetValue(n) == Nil && n.Content == []
    ensures value.Int64Slice? ==> err == None && GetValue(n) == value
    ensures !(value.Nil? || value.Int64Slice?) ==>
      n.Valid && n.Content == old(n.Content) && err.Some? && err.value.Panic?
  {
    if value.Nil? {
      n.SetValue(None);
      err := None;
    } else if value.Int64Slice? {
      n.SetValue(Some(value.ints));
      err := None;
    } else {
      n.Valid := true;
      err := Some(TypePanic);
    }
  }
}
