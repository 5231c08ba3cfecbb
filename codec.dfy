/** The text codec of a column type: `EncodeString` renders a value as the
    text PostgreSQL accepts for the column, `DecodeString` reads that text
    back, wrapping the result in the nullable form when the column may be
    NULL. Floating point, time and JSON values are not modelled: their
    formatting and parsing are parameters, as are the array-literal helpers
    `parsePGArray`/`encodePGArray` and the `Value()` methods of wrapper types
    whose source is not part of this model. */
module Codec {
  import opened Base
  import opened Strs
  import opened Values
  import opened TypeNames
  import Decimal

  /** Collaborators whose code is not modelled. */
  datatype Foreign = Foreign(
    parseArray: string -> seq<string>,               // parsePGArray
    encodeArray: seq<string> -> string,              // encodePGArray
    valueOf: Value -> Result<Value>,                 // Value() of the other Valuer types
    encodeOther: (Kind, Value) -> Result<string>,    // float, time and JSON kinds
    decodeOther: (Kind, string) -> (Value, Option<Error>))

  // ---------------------------------------------------------------- hex

  const HexDigits: string := "0123456789abcdef"

  predicate IsHexChar(c: char)
  {
    ('0' <= c <= '9') || ('a' <= c <= 'f') || ('A' <= c <= 'F')
  }

  function HexVal(c: char): (v: nat)
    requires IsHexChar(c)
    ensures v < 16
  {
    if '0' <= c <= '9' then (c as int) - ('0' as int)
    else if 'a' <= c <= 'f' then (c as int) - ('a' as int) + 10
    else (c as int) - ('A' as int) + 10
  }

  /** `%x` of a byte slice: two lower-case hex digits per byte. */
  function HexEncode(b: seq<byte>): (r: string)
    ensures |r| == 2 * |b|
  {
    if |b| == 0 then ""
    else [HexDigits[(b[0] as int) / 16], HexDigits[(b[0] as int) % 16]] + HexEncode(b[1..])
  }

  /** `hex.Decode`: fails on an odd length or a character that is not a hex digit. */
  function HexDecode(s: string): (r: Option<seq<byte>>)
    ensures r.Some? <==> |s| % 2 == 0 && forall k :: 0 <= k < |s| ==> IsHexChar(s[k])
    ensures r.Some? ==> 2 * |r.value| == |s|
    decreases |s|
  {
    if |s| == 0 then Some([])
    else if |s| == 1 then None
    else if !IsHexChar(s[0]) || !IsHexChar(s[1]) then None
    else
      match HexDecode(s[2..])
      case None =>
        assert !(forall k :: 0 <= k < |s[2..]| ==> IsHexChar(s[2..][k])) || |s[2..]| % 2 != 0;
        None
      case Some(rest) => Some([(HexVal(s[0]) * 16 + HexVal(s[1])) as byte] + rest)
  }

  lemma HexDigitValue(d: nat)
    requires d < 16
    ensures IsHexChar(HexDigits[d]) && HexVal(HexDigits[d]) == d
  {
  }

  /** The two digits `%x` prints for a byte read back as that byte. */
  lemma HexByte(x: byte)
    ensures IsHexChar(HexDigits[(x as int) / 16]) && IsHexChar(HexDigits[(x as int) % 16])
    ensures (HexVal(HexDigits[(x as int) / 16]) * 16 + HexVal(HexDigits[(x as int) % 16])) as byte == x
  {
    HexDigitValue((x as int) / 16);
    HexDigitValue((x as int) % 16);
  }

  lemma HexDecodeStep(s: string)
    requires |s| >= 2 && IsHexChar(s[0]) && IsHexChar(s[1]) && HexDecode(s[2..]).Some?
    ensures HexDecode(s) == Some([(HexVal(s[0]) * 16 + HexVal(s[1])) as byte] + HexDecode(s[2..]).value)
  {
  }

  lemma HexEncodeStep(b: seq<byte>)
    requires |b| > 0
    ensures HexEncode(b)[0] == HexDigits[(b[0] as int) / 16] && HexEncode(b)[1] == HexDigits[(b[0] as int) % 16]
    ensures HexEncode(b)[2..] == HexEncode(b[1..])
    ensures [b[0]] + b[1..] == b
  {
    var h := [HexDigits[(b[0] as int) / 16], HexDigits[(b[0] as int) % 16]];
    var rest := HexEncode(b[1..]);
    assert HexEncode(b) == h + rest;
    assert (h + rest)[2..] == rest;
  }

  lemma {:induction false} HexRoundTrip(b: seq<byte>)
    ensures HexDecode(HexEncode(b)) == Some(b)
  {
    if |b| > 0 {
      HexRoundTrip(b[1..]);
      HexByte(b[0]);
      HexEncodeStep(b);
      HexDecodeStep(HexEncode(b));
    }
  }

  // ---------------------------------------------------------------- slices

  function BoolChar(b: bool): string
  {
    if b then "t" else "f"
  }

  /** The element texts EncodeString builds for a BoolSlice. */
  function BoolTexts(xs: seq<bool>): (r: seq<string>)
    ensures |r| == |xs|
  {
    seq(|xs|, i requires 0 <= i < |xs| => BoolChar(xs[i]))
  }

  /** The element texts EncodeString builds for an Int64Slice. */
  function IntTexts(xs: seq<int>): (r: seq<string>)
    ensures |r| == |xs|
  {
    seq(|xs|, i requires 0 <= i < |xs| => Decimal.IntToString(xs[i]))
  }

  /** The element values DecodeString builds for a BoolSlice. */
  function ParseBools(ss: seq<string>): (r: seq<bool>)
    ensures |r| == |ss|
  {
    seq(|ss|, i requires 0 <= i < |ss| => ss[i] == "t")
  }

  /** Parsing each element with strconv.ParseInt, left to right; the first
      failure is the result. */
  function ParseInts(ss: seq<string>): (r: Result<seq<int>>)
    ensures r.Ok? ==> |r.value| == |ss|
    decreases |ss|
  {
    if |ss| == 0 then Ok([])
    else
      match ParseInts(ss[..|ss| - 1])
      case Err(e) => Err(e)
      case Ok(xs) =>
        var p := Decimal.ParseInt64(ss[|ss| - 1]);
        if p.1.Some? then Err(p.1.value) else Ok(xs + [p.0])
  }

  /** `Int64Slice.Value()`: nil for an empty slice, else `{a,b,...}`. */
  function SliceValue(xs: seq<int>): (r: Value)
    ensures |xs| == 0 <==> r == Nil
  {
    if |xs| == 0 then Nil else Str("{" + Join(IntTexts(xs), ",") + "}")
  }

  // ---------------------------------------------------------------- encode

  /** The kinds whose wrapper's Value() is part of this model. */
  predicate ModelledWrapper(k: Kind)
  {
    k == TypeString || k == TypeBool || k == TypeInt64 || k == TypeBytea || k == TypeInt64Slice
  }

  /** `value.(driver.Valuer).Value()`; a value that is no Valuer panics. */
  function Valuer(v: Value, f: Foreign): Result<Value>
  {
    match v
    case Null(k, valid, c) =>
      if !ModelledWrapper(k) then f.valueOf(v)
      else if !valid then Ok(Nil)
      else if k == TypeInt64Slice && c.Int64Slice? then Ok(SliceValue(c.ints))
      else Ok(c)
    case Bytea(b) => Ok(Bytes(b))
    case Int64Slice(xs) => Ok(SliceValue(xs))
    case StrSlice(_) => f.valueOf(v)
    case BoolSlice(_) => f.valueOf(v)
    case Opaque(_, _) => f.valueOf(v)
    case _ => Err(Panic("interface conversion: value is not driver.Valuer"))
  }

  /** A failed type assertion `value.(T)`. */
  const TypePanic: Error := Panic("interface conversion: wrong dynamic type for the column kind")

  /** The type switch of EncodeString on a value already unwrapped. */
  function EncodeBare(k: Kind, w: Value, f: Foreign): (r: Result<string>)
  {
    match k
    case TypeString => if w.Str? then Ok(w.s) else Err(TypePanic)
    case TypeBool => if w.Boolean? then Ok(BoolChar(w.b)) else Err(TypePanic)
    case TypeInt64 => if w.Int64? then Ok(Decimal.IntToString(w.i)) else Err(TypePanic)
    case TypeBytea =>
      if !w.Bytea? then Err(TypePanic)
      else if |w.bytes| == 0 then Ok("")
      else Ok("\\x" + HexEncode(w.bytes))
    case TypeStringSlice =>
      if !w.StrSlice? then Err(TypePanic)
      else if |w.strs| == 0 then Ok("")
      else Ok(f.encodeArray(w.strs))
    case TypeBoolSlice =>
      if !w.BoolSlice? then Err(TypePanic)
      else if |w.bools| == 0 then Ok("")
      else Ok(f.encodeArray(BoolTexts(w.bools)))
    case TypeInt64Slice =>
      if !w.Int64Slice? then Err(TypePanic)
      else if |w.ints| == 0 then Ok("")
      else Ok(f.encodeArray(IntTexts(w.ints)))
    case _ => f.encodeOther(k, w)
  }

  /** `PGType.EncodeString`. */
  function Encode(t: TypeDesc, v: Value, f: Foreign): Result<string>
  {
    if v.Nil? then Ok("")
    else if !t.NotNull then
      match Valuer(v, f)
      case Err(e) => Err(e)
      case Ok(w) => if w.Nil? then Ok("") else EncodeBare(t.Type, w, f)
    else EncodeBare(t.Type, v, f)
  }

  // ---------------------------------------------------------------- decode

  function StartsHex(s: string): bool
  {
    |s| >= 2 && s[..2] == "\\x"
  }

  /** The type switch of DecodeString, before nullable wrapping. A bad hex
      body yields neither a value nor an error: the error is assigned to a
      variable that shadows the result's. */
  function DecodeBare(k: Kind, s: string, f: Foreign): (Value, Option<Error>)
  {
    match k
    case TypeString => (Str(s), None)
    case TypeBool => (Boolean(s == "t"), None)
    case TypeInt64 =>
      var p := Decimal.ParseInt64(s);
      (Int64(p.0), p.1)
    case TypeBytea =>
      if StartsHex(s) then
        (match HexDecode(s[2..])
         case Some(b) => (Bytea(b), None)
         case None => (Nil, None))
      else (Nil, Some(InvalidHex(s)))
    case TypeStringSlice => (StrSlice(f.parseArray(s)), None)
    case TypeBoolSlice => (BoolSlice(ParseBools(f.parseArray(s))), None)
    case TypeInt64Slice =>
      (match ParseInts(f.parseArray(s))
       case Ok(xs) => (Int64Slice(xs), None)
       case Err(e) => (Nil, Some(e)))
    case _ => f.decodeOther(k, s)
  }

  /** The content the Null* wrapper stores for a decoded value (NullBytea
      keeps a plain []byte). */
  function ContentOf(k: Kind, r: Value): Value
  {
    if k == TypeBytea && r.Bytea? then Bytes(r.bytes) else r
  }

  /** Nullable wrapping: Valid iff there is a result. The JSONSlice branch
      never stores its wrapper, so that kind keeps the bare result. */
  function Wrap(k: Kind, r: Value): (w: Value)
  {
    if k == TypeJSONSlice then r
    else if r.Nil? then Null(k, false, ZeroOf(k))
    else Null(k, true, ContentOf(k, r))
  }

  /** `PGType.DecodeString`: Go returns the value together with the error. */
  function Decode(t: TypeDesc, s: string, f: Foreign): (Value, Option<Error>)
  {
    if s == "" then (Nil, None)
    else
      var d := DecodeBare(t.Type, s, f);
      if t.NotNull then d else (Wrap(t.Type, d.0), d.1)
  }

  // ---------------------------------------------------------------- properties

  /** The empty text is produced for nil, a NULL wrapper of a modelled kind,
      and an empty string, bytea or slice. */
  lemma EncodeEmptyCases(t: TypeDesc, v: Value, f: Foreign)
    ensures v == Nil ==> Encode(t, v, f) == Ok("")
    ensures !t.NotNull && v.Null? && ModelledWrapper(v.kind) && !v.valid ==> Encode(t, v, f) == Ok("")
    ensures t.NotNull && t.Type == TypeString && v == Str("") ==> Encode(t, v, f) == Ok("")
    ensures t.NotNull && t.Type == TypeBytea && v == Bytea([]) ==> Encode(t, v, f) == Ok("")
    ensures t.NotNull && t.Type == TypeStringSlice && v == StrSlice([]) ==> Encode(t, v, f) == Ok("")
    ensures t.NotNull && t.Type == TypeBoolSlice && v == BoolSlice([]) ==> Encode(t, v, f) == Ok("")
    ensures t.NotNull && t.Type == TypeInt64Slice && v == Int64Slice([]) ==> Encode(t, v, f) == Ok("")
    ensures !t.NotNull && t.Type == TypeInt64Slice && v == Null(TypeInt64Slice, true, Int64Slice([])) ==>
      Encode(t, v, f) == Ok("")
  {
  }

  /** Booleans encode as t/f, integers as decimal, in both column forms. */
  lemma EncodeScalars(t: TypeDesc, b: bool, n: int, f: Foreign)
    ensures t.Type == TypeBool ==>
      Encode(t, if t.NotNull then Boolean(b) else Null(TypeBool, true, Boolean(b)), f) == Ok(if b then "t" else "f")
    ensures t.Type == TypeInt64 ==>
      Encode(t, if t.NotNull then Int64(n) else Null(TypeInt64, true, Int64(n)), f) == Ok(Decimal.IntToString(n))
  {
  }

  /** Decoding the empty text gives nil and no error, for every column; in
      particular it never yields a NULL wrapper. */
  lemma DecodeEmpty(t: TypeDesc, f: Foreign)
    ensures Decode(t, "", f) == (Nil, None)
    ensures !Decode(t, "", f).0.Null?
  {
  }

  /** Decoding an int64's text gives the int64 back, bare or wrapped. */
  lemma Int64RoundTrip(t: TypeDesc, n: int, f: Foreign)
    requires t.Type == TypeInt64 && Decimal.IsInt64(n)
    ensures var v := if t.NotNull then Int64(n) else Null(TypeInt64, true, Int64(n));
      Encode(t, v, f).Ok? && Decode(t, Encode(t, v, f).value, f) == (v, None)
  {
    Decimal.IntRoundTrip(n);
  }

  /** Decoding a boolean's text gives the boolean back; any text other than
      `t` reads as false. */
  lemma BoolRoundTrip(t: TypeDesc, b: bool, s: string, f: Foreign)
    requires t.Type == TypeBool && t.NotNull
    ensures Encode(t, Boolean(b), f).Ok? && Decode(t, Encode(t, Boolean(b), f).value, f) == (Boolean(b), None)
    ensures s != "" ==> Decode(t, s, f) == (Boolean(s == "t"), None)
  {
  }

  /** A non-empty bytea encodes as `\x` and hex, and decodes back. */
  lemma ByteaRoundTrip(t: TypeDesc, b: seq<byte>, f: Foreign)
    requires t.Type == TypeBytea && t.NotNull && |b| > 0
    ensures Encode(t, Bytea(b), f) == Ok("\\x" + HexEncode(b))
    ensures Decode(t, "\\x" + HexEncode(b), f) == (Bytea(b), None)
  {
    HexRoundTrip(b);
    var s := "\\x" + HexEncode(b);
    assert s[2..] == HexEncode(b);
  }

  /** Bytea text without the `\x` prefix is an error; a malformed hex body
      after the prefix gives no value and no error (and, for a nullable
      column, a NULL wrapper). */
  lemma ByteaDecodeFailures(t: TypeDesc, s: string, f: Foreign)
    requires t.Type == TypeBytea && s != ""
    ensures !StartsHex(s) ==> Decode(t, s, f).1 == Some(InvalidHex(s))
    ensures StartsHex(s) && HexDecode(s[2..]).None? ==>
      Decode(t, s, f) == (if t.NotNull then Nil else Null(TypeBytea, false, Bytes([])), None)
  {
  }

  /** A valid NullBytea hands a []byte to the Bytea branch, whose type
      assertion fails: encoding it panics, whatever its bytes. */
  lemma ValidNullByteaEncodePanics(t: TypeDesc, b: seq<byte>, f: Foreign)
    requires t.Type == TypeBytea && !t.NotNull
    ensures Encode(t, Null(TypeBytea, true, Bytes(b)), f).Err?
    ensures Encode(t, Null(TypeBytea, true, Bytes(b)), f).error.Panic?
  {
  }

  /** A valid, non-empty NullInt64Slice hands its array text to the
      Int64Slice branch, whose type assertion fails: encoding it panics. */
  lemma ValidNullInt64SliceEncodePanics(t: TypeDesc, xs: seq<int>, f: Foreign)
    requires t.Type == TypeInt64Slice && !t.NotNull && |xs| > 0
    ensures Encode(t, Null(TypeInt64Slice, true, Int64Slice(xs)), f).Err?
    ensures Encode(t, Null(TypeInt64Slice, true, Int64Slice(xs)), f).error.Panic?
  {
  }

  /** ParseInts fails iff some element fails strconv.ParseInt, and then
      reports the first such element's error. */
  lemma {:induction false} ParseIntsFirstError(ss: seq<string>)
    ensures ParseInts(ss).Ok? <==> forall k :: 0 <= k < |ss| ==> Decimal.ParseInt64(ss[k]).1.None?
    ensures ParseInts(ss).Ok? ==> forall k :: 0 <= k < |ss| ==> ParseInts(ss).value[k] == Decimal.ParseInt64(ss[k]).0
    ensures ParseInts(ss).Err? ==>
      exists k :: (0 <= k < |ss| && Decimal.ParseInt64(ss[k]).1 == Some(ParseInts(ss).error) &&
                   forall j :: 0 <= j < k ==> Decimal.ParseInt64(ss[j]).1.None?)
    decreases |ss|
  {
    if |ss| > 0 {
      var init := ss[..|ss| - 1];
      ParseIntsFirstError(init);
      assert forall k :: 0 <= k < |init| ==> init[k] == ss[k];
      if ParseInts(init).Err? {
        var k :| 0 <= k < |init| && Decimal.ParseInt64(init[k]).1 == Some(ParseInts(init).error) &&
          forall j :: 0 <= j < k ==> Decimal.ParseInt64(init[j]).1.None?;
        assert Decimal.ParseInt64(ss[k]).1 == Some(ParseInts(ss).error);
      } else if Decimal.ParseInt64(ss[|ss| - 1]).1.Some? {
        assert Decimal.ParseInt64(ss[|ss| - 1]).1 == Some(ParseInts(ss).error);
      }
    }
  }

  /** Once a prefix fails, the whole list fails with the same error. */
  lemma {:induction false} ParseIntsErrPrefix(ss: seq<string>, n: nat)
    requires n <= |ss| && ParseInts(ss[..n]).Err?
    ensures ParseInts(ss) == ParseInts(ss[..n])
    decreases |ss| - n
  {
    if n < |ss| {
      assert ss[..n + 1][..n] == ss[..n];
      ParseIntsErrPrefix(ss, n + 1);
    } else {
      assert ss[..n] == ss;
    }
  }

  /** Decoding an Int64Slice column: the slice of the parsed elements, or
      the first element's error and no value. */
  lemma Int64SliceDecode(t: TypeDesc, s: string, f: Foreign)
    requires t.Type == TypeInt64Slice && t.NotNull && s != ""
    ensures var ss := f.parseArray(s);
      (forall k :: 0 <= k < |ss| ==> Decimal.ParseInt64(ss[k]).1.None?) <==> Decode(t, s, f).1.None?
    ensures Decode(t, s, f).1.None? ==>
      Decode(t, s, f).0.Int64Slice? && |Decode(t, s, f).0.ints| == |f.parseArray(s)|
    ensures Decode(t, s, f).1.Some? ==> Decode(t, s, f).0 == Nil
  {
    ParseIntsFirstError(f.parseArray(s));
  }

  /** Nullable columns (except JSONSlice) always decode non-empty text to a
      wrapper that is Valid exactly when the bare decode produced a value. */
  lemma DecodeWraps(t: TypeDesc, s: string, f: Foreign)
    requires !t.NotNull && s != ""
    ensures t.Type != TypeJSONSlice ==>
      Decode(t, s, f).0.Null? && Decode(t, s, f).0.kind == t.Type &&
      (Decode(t, s, f).0.valid <==> DecodeBare(t.Type, s, f).0 != Nil)
    ensures t.Type == TypeJSONSlice ==> Decode(t, s, f) == DecodeBare(t.Type, s, f)
    ensures Decode(t, s, f).1 == DecodeBare(t.Type, s, f).1
  {
  }

  /** strconv.ParseInt stores its (clamped or zero) value even on failure, so
      a nullable int64 column decodes bad text to a Valid wrapper together
      with the error. */
  lemma Int64ErrorStillValid(t: TypeDesc, s: string, f: Foreign)
    requires t.Type == TypeInt64 && !t.NotNull && s != ""
    ensures Decode(t, s, f).0 == Null(TypeInt64, true, Int64(Decimal.ParseInt64(s).0))
    ensures Decode(t, s, f).1 == Decimal.ParseInt64(s).1
  {
  }

  /** Parsing the decimal texts of int64s gives the int64s back. */
  lemma {:induction false} ParseIntTexts(xs: seq<int>)
    requires forall k :: 0 <= k < |xs| ==> Decimal.IsInt64(xs[k])
    ensures ParseInts(IntTexts(xs)) == Ok(xs)
    decreases |xs|
  {
    if |xs| > 0 {
      var init := xs[..|xs| - 1];
      assert IntTexts(xs)[..|xs| - 1] == IntTexts(init);
      ParseIntTexts(init);
      Decimal.IntRoundTrip(xs[|xs| - 1]);
      assert init + [xs[|xs| - 1]] == xs;
    }
  }

  /** A non-empty Int64Slice decodes back from its text whenever the array
      helpers invert each other on its element texts. */
  lemma Int64SliceRoundTrip(t: TypeDesc, xs: seq<int>, f: Foreign)
    requires t.Type == TypeInt64Slice && t.NotNull && |xs| > 0
    requires forall k :: 0 <= k < |xs| ==> Decimal.IsInt64(xs[k])
    requires f.encodeArray(IntTexts(xs)) != ""
    requires f.parseArray(f.encodeArray(IntTexts(xs))) == IntTexts(xs)
    ensures Encode(t, Int64Slice(xs), f) == Ok(f.encodeArray(IntTexts(xs)))
    ensures Decode(t, f.encodeArray(IntTexts(xs)), f) == (Int64Slice(xs), None)
  {
    ParseIntTexts(xs);
  }

  /** The array text of an Int64Slice (its Value()) splits at the commas
      into texts that parse back to the slice. */
  lemma SliceValueParses(xs: seq<int>)
    requires |xs| > 0
    requires forall k :: 0 <= k < |xs| ==> Decimal.IsInt64(xs[k])
    ensures SliceValue(xs).Str?
    ensures var text := SliceValue(xs).s;
      |text| >= 2 && text[0] == '{' && text[|text| - 1] == '}' &&
      ParseInts(Split(text[1..|text| - 1], ',')) == Ok(xs)
  {
    var parts := IntTexts(xs);
    forall k | 0 <= k < |parts|
      ensures ',' !in parts[k]
    {
      Decimal.IntToStringPlain(xs[k]);
    }
    SplitJoin(parts, ',');
    ParseIntTexts(xs);
    var text := SliceValue(xs).s;
    assert text[1..|text| - 1] == Join(parts, ",");
  }
}
