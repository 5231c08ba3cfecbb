/** `Bytea` (a []byte stored as PostgreSQL bytea) and its nullable wrapper
    `NullBytea`. */
module Byteas {
  import opened Base
  import opened Strs
  import opened Values
  import opened Nullable

  /** `Bytea.Scan` into a Bytea holding `cur`: the Bytea afterwards and the
      error. A []byte, a string or a Bytea is stored as the same bytes;
      anything else is a conversion error and leaves the Bytea alone. */
  function ScanResult(cur: seq<byte>, value: Value): (seq<byte>, Option<Error>)
  {
    match value
    case Bytes(t) => (t, None)
    case Str(t) => (ToBytes(t), None)
    case Bytea(t) => (t, None)
    case _ => (cur, Some(Convert("Bytea")))
  }

  method Scan(cur: seq<byte>, value: Value) returns (next: seq<byte>, err: Option<Error>)
    ensures (next, err) == ScanResult(cur, value)
  {
    match value
    case Bytes(t) =>
      next, err := t, None;
    case Str(t) =>
      next, err := ToBytes(t), None;
    case Bytea(t) =>
      next, err := t, None;
    case _ =>
      next, err := cur, Some(Convert("Bytea"));
  }

  /** `Bytea.Value`: the bytes, as a plain []byte. */
  function ByteaValue(b: seq<byte>): (r: Value)
    ensures r.Bytes? && r.bytes == b
  {
    Bytes(b)
  }

  /** Scanning a Bytea's Value() restores the Bytea, whatever it held
      before; scanning any string stores its UTF-8 bytes, which read back as
      the string; only the three byte-like types are accepted. */
  lemma ScanRoundTrip(cur: seq<byte>, b: seq<byte>, s: string, v: Value)
    ensures ScanResult(cur, ByteaValue(b)) == (b, None)
    ensures ScanResult(cur, Str(s)).1 == None && FromBytes(ScanResult(cur, Str(s)).0) == s
    ensures ValidUtf8(ScanResult(cur, Str(s)).0)
    ensures ScanResult(cur, v).1 == None <==> v.Bytes? || v.Str? || v.Bytea?
  {
    StringRoundTrip(s);
    EncodingIsValid(s);
  }

  /** `NullBytea.Value`: nil when NULL, else the stored bytes. */
  function NullValue(n: Nullable<seq<byte>>): (r: Value)
    reads n
    ensures !n.Valid <==> r == Nil
    ensures n.Valid ==> r == Bytes(n.Content)
  {
    if !n.Valid then Nil else Bytes(n.Content)
  }

  /** `NullBytea.GetValue`: the stored bytes as a []byte when Valid, nil
      otherwise. */
  function GetValue(n: Nullable<seq<byte>>): (r: Value)
    reads n
    ensures r == (match n.GetValue() case Some(b) => Bytes(b) case None => Nil)
  {
    if n.Valid then Bytes(n.Content) else Nil
  }

  /** `NullBytea.Scan`: nil makes the wrapper NULL; a []byte is stored and
      makes it Valid; any other value (a string, say) makes it NULL with no
      error, as the checked type assertion yields false. */
  method ScanNull(n: Nullable<seq<byte>>, value: Value) returns (err: Option<Error>)
    modifies n
    ensures err == None
    ensures value.Bytes? ==> n.Valid && n.Content == value.bytes && NullValue(n) == value
    ensures !value.Bytes? ==> !n.Valid && n.Content == [] && NullValue(n) == Nil
  {
    if value.Nil? {
      n.Valid := false;
      n.Content := [];
    } else if value.Bytes? {
      n.Content, n.Valid := value.bytes, true;
    } else {
      n.Content, n.Valid := [], false;
    }
    err := None;
  }

  /** `NullBytea.SetValue`: nil makes the wrapper NULL; a Bytea makes it Valid
      with those bytes, which GetValue then returns as a plain []byte; any
      other value fails the type assertion after Valid has been set. */
  method SetValue(n: Nullable<seq<byte>>, value: Value) returns (err: Option<Error>)
    modifies n
    requires n.Zero == []
    ensures value.Nil? ==> err == None && GetValue(n) == Nil && n.Content == []
    ensures value.Bytea? ==> err == None && GetValue(n) == Bytes(value.bytes)
    ensures !(value.Nil? || value.Bytea?) ==>
      n.Valid && n.Content == old(n.Content) && err.Some? && err.value.Panic?
  {
    if value.Nil? {
      n.SetValue(None);
      err := None;
    } else if value.Bytea? {
      n.SetValue(Some(value.bytes));
      err := None;
    } else {
      n.Valid := true;
      err := Some(Panic("interface conversion: value is not Bytea"));
    }
  }
}
