/** The column kinds (PGTypeType) and the dynamic values (Go `interface{}`)
    that the codec, the nullable wrappers and the table helpers pass around. */
module Values {
  import opened Strs
  import Decimal

  /** The thirteen PGTypeType constants, in declaration order. */
  datatype Kind =
    | TypeString | TypeBool | TypeInt64 | TypeFloat64 | TypeTime | TypeBytea
    | TypeStringSlice | TypeBoolSlice | TypeInt64Slice | TypeFloat64Slice | TypeTimeSlice
    | TypeJSON | TypeJSONSlice

  /** A Go value of one of the dynamic types the library handles. Float64,
      time and JSON values are not modelled: `Opaque` carries only their kind
      and the text `%v` prints for them. `Null` is the generic tri-state
      wrapper standing for the thirteen Null* structs (NullString, NullBool,
      NullInt64, NullBytea, NullInt64Slice, ...). */
  datatype Value =
    | Nil
    | Str(s: string)
    | Boolean(b: bool)
    | Int(n: int)                      // a Go int
    | Int64(i: int)
    | Bytes(bytes: seq<byte>)          // []byte
    | Bytea(bytes: seq<byte>)          // the named type Bytea
    | StrSlice(strs: seq<string>)      // StringSlice
    | BoolSlice(bools: seq<bool>)      // BoolSlice
    | Int64Slice(ints: seq<int>)       // Int64Slice
    | Int64Array(ints: seq<int>)       // []int64
    | Opaque(kind: Kind, text: string)
    | Null(kind: Kind, valid: bool, content: Value)

  predicate IsOpaqueKind(k: Kind)
  {
    k in {TypeFloat64, TypeTime, TypeFloat64Slice, TypeTimeSlice, TypeJSON, TypeJSONSlice}
  }

  /** The Go type of the content field of the Null* wrapper for kind `k`. */
  predicate Fits(k: Kind, content: Value)
  {
    match k
    case TypeString => content.Str?
    case TypeBool => content.Boolean?
    case TypeInt64 => content.Int64?
    case TypeBytea => content.Bytes?
    case TypeStringSlice => content.StrSlice?
    case TypeBoolSlice => content.BoolSlice?
    case TypeInt64Slice => content.Int64Slice?
    case _ => content.Opaque? && content.kind == k
  }

  /** The content of a freshly declared Null* wrapper of kind `k` (Go's zero value). */
  function ZeroOf(k: Kind): (r: Value)
    ensures Fits(k, r)
  {
    match k
    case TypeString => Str("")
    case TypeBool => Boolean(false)
    case TypeInt64 => Int64(0)
    case TypeBytea => Bytes([])
    case TypeStringSlice => StrSlice([])
    case TypeBoolSlice => BoolSlice([])
    case TypeInt64Slice => Int64Slice([])
    case _ => Opaque(k, "")
  }

  function BoolText(b: bool): string
  {
    if b then "true" else "false"
  }

  function JoinShown<T>(xs: seq<T>, show: T -> string): string
  {
    if |xs| == 0 then ""
    else if |xs| == 1 then show(xs[0])
    else show(xs[0]) + " " + JoinShown(xs[1..], show)
  }

  /** What `fmt.Sprintf("%v", v)` prints. NullFloat64 declares Valid before
      its content, so its fields print in that order. */
  function Show(v: Value): string
  {
    match v
    case Nil => "<nil>"
    case Str(s) => s
    case Boolean(b) => BoolText(b)
    case Int(n) => Decimal.IntToString(n)
    case Int64(i) => Decimal.IntToString(i)
    case Bytes(b) => "[" + JoinShown(b, (x: byte) => Decimal.IntToString(x as int)) + "]"
    case Bytea(b) => "[" + JoinShown(b, (x: byte) => Decimal.IntToString(x as int)) + "]"
    case StrSlice(ss) => "[" + JoinShown(ss, (x: string) => x) + "]"
    case BoolSlice(bs) => "[" + JoinShown(bs, BoolText) + "]"
    case Int64Slice(xs) => "[" + JoinShown(xs, Decimal.IntToString) + "]"
    case Int64Array(xs) => "[" + JoinShown(xs, Decimal.IntToString) + "]"
    case Opaque(_, text) => text
    case Null(k, valid, c) =>
      if k == TypeFloat64 then "{" + BoolText(valid) + " " + Show(c) + "}"
      else "{" + Show(c) + " " + BoolText(valid) + "}"
  }

  /** `safeToString`: nil is empty, a string is itself, a []byte is its
      bytes as a string (exactly when they are UTF-8, see `SafeToStringBytes`),
      anything else is printed with `%v`. */
  function SafeToString(v: Value): (r: string)
    ensures v == Nil ==> r == ""
    ensures v.Str? ==> r == v.s
    ensures v.Bytes? ==> |r| <= |v.bytes|
    ensures v.Bytes? && ValidUtf8(v.bytes) ==> ToBytes(r) == v.bytes
    ensures !(v.Nil? || v.Str? || v.Bytes?) ==> r == Show(v)
  {
    match v
    case Nil => ""
    case Str(s) => s
    case Bytes(b) => BytesRoundTrip(b); FromBytes(b)
    case _ => Show(v)
  }

  /** The []byte of any string converts back to that string. */
  lemma SafeToStringBytes(s: string)
    ensures SafeToString(Bytes(ToBytes(s))) == s
  {
    StringRoundTrip(s);
  }
}
