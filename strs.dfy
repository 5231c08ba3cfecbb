/** Go's `strings.Join` and `strings.Split` (with a one-character separator),
    the UTF-8 byte/string conversions, and the lemmas that relate them. */
module Strs {

  newtype byte = x: int | 0 <= x < 256

  /** `strings.Join(parts, sep)`. */
  function Join(parts: seq<string>, sep: string): string
  {
    if |parts| == 0 then ""
    else if |parts| == 1 then parts[0]
    else parts[0] + sep + Join(parts[1..], sep)
  }

  /** `strings.Split(s, string(c))`: the pieces between occurrences of `c`.
      Splitting the empty string gives one empty piece, as in Go. */
  function Split(s: string, c: char): (r: seq<string>)
    ensures |r| >= 1
    ensures forall k :: 0 <= k < |r| ==> c !in r[k]
    decreases |s|
  {
    if |s| == 0 then [""]
    else if s[0] == c then [""] + Split(s[1..], c)
    else
      var rest := Split(s[1..], c);
      [[s[0]] + rest[0]] + rest[1..]
  }

  /** `strings.Trim(s, " \t\n\r") == ""`. */
  predicate IsBlank(s: string)
  {
    forall k :: 0 <= k < |s| ==> s[k] in {' ', '\t', '\n', '\r'}
  }

  /** A continuation byte, 10xxxxxx. */
  predicate IsCont(x: byte) { 0x80 <= x < 0xC0 }

  /** The UTF-8 encoding of one character (RFC 3629, section 3). */
  function EncodeRune(c: char): (r: seq<byte>)
    ensures 1 <= |r| <= 4
  {
    var n := c as int;
    if n < 0x80 then [n as byte]
    else if n < 0x800 then [(0xC0 + n / 64) as byte, (0x80 + n % 64) as byte]
    else if n < 0x10000 then
      [(0xE0 + n / 4096) as byte, (0x80 + (n / 64) % 64) as byte, (0x80 + n % 64) as byte]
    else
      [(0xF0 + n / 262144) as byte, (0x80 + (n / 4096) % 64) as byte,
       (0x80 + (n / 64) % 64) as byte, (0x80 + n % 64) as byte]
  }

  /** `utf8.RuneError`, U+FFFD. */
  const RuneError: char := '\U{FFFD}'

  /** The code point spelled by a two-, three- or four-byte sequence. */
  function Decode2(b0: byte, b1: byte): int { (b0 as int - 0xC0) * 64 + (b1 as int - 0x80) }
  function Decode3(b0: byte, b1: byte, b2: byte): int
  { (b0 as int - 0xE0) * 4096 + (b1 as int - 0x80) * 64 + (b2 as int - 0x80) }
  function Decode4(b0: byte, b1: byte, b2: byte, b3: byte): int
  { (b0 as int - 0xF0) * 262144 + (b1 as int - 0x80) * 4096 + (b2 as int - 0x80) * 64 + (b3 as int - 0x80) }

  /** `utf8.DecodeRune`: the character at the head of `b` and the number of
      bytes it takes; a byte that does not start the shortest encoding of a
      character decodes as U+FFFD taking one byte. */
  function DecodeRune(b: seq<byte>): (r: (char, nat))
    requires |b| > 0
    ensures 1 <= r.1 <= |b| && r.1 <= 4
  {
    if b[0] < 0x80 then (b[0] as int as char, 1)
    else if 0xC0 <= b[0] < 0xE0 && |b| >= 2 && IsCont(b[1]) && Decode2(b[0], b[1]) >= 0x80 then
      (Decode2(b[0], b[1]) as char, 2)
    else if 0xE0 <= b[0] < 0xF0 && |b| >= 3 && IsCont(b[1]) && IsCont(b[2])
      && Decode3(b[0], b[1], b[2]) >= 0x800 && !(0xD800 <= Decode3(b[0], b[1], b[2]) < 0xE000) then
      (Decode3(b[0], b[1], b[2]) as char, 3)
    else if 0xF0 <= b[0] < 0xF8 && |b| >= 4 && IsCont(b[1]) && IsCont(b[2]) && IsCont(b[3])
      && 0x10000 <= Decode4(b[0], b[1], b[2], b[3]) < 0x110000 then
      (Decode4(b[0], b[1], b[2], b[3]) as char, 4)
    else (RuneError, 1)
  }

  /** `[]byte(s)`: the UTF-8 encoding of the string, character by character. */
  function ToBytes(s: string): (r: seq<byte>)
    ensures |s| <= |r| <= 4 * |s|
  {
    if |s| == 0 then [] else EncodeRune(s[0]) + ToBytes(s[1..])
  }

  /** `string(b)` read as characters, as `range` over a Go string reads it:
      one decoded character per encoding, U+FFFD per invalid byte. */
  function FromBytes(b: seq<byte>): (r: string)
    ensures |r| <= |b|
    decreases |b|
  {
    if |b| == 0 then [] else
      var d := DecodeRune(b);
      [d.0] + FromBytes(b[d.1..])
  }

  /** Decoding the head of an encoding gives back the character and its length. */
  lemma DecodeEncode(c: char, rest: seq<byte>)
    ensures DecodeRune(EncodeRune(c) + rest) == (c, |EncodeRune(c)|)
  {
    var n := c as int;
    if n < 0x80 {
    } else if n < 0x800 {
      DecodeEncode2(c, rest);
    } else if n < 0x10000 {
      DecodeEncode3(c, rest);
    } else {
      DecodeEncode4(c, rest);
    }
  }

  lemma DecodeEncode2(c: char, rest: seq<byte>)
    requires 0x80 <= c as int < 0x800
    ensures DecodeRune(EncodeRune(c) + rest) == (c, 2)
  {
    var n := c as int;
    var b0, b1 := (0xC0 + n / 64) as byte, (0x80 + n % 64) as byte;
    assert EncodeRune(c) + rest == [b0, b1] + rest;
    assert Decode2(b0, b1) == n;
  }

  lemma DecodeEncode3(c: char, rest: seq<byte>)
    requires 0x800 <= c as int < 0x10000
    ensures DecodeRune(EncodeRune(c) + rest) == (c, 3)
  {
    var n := c as int;
    var b0, b1, b2 := (0xE0 + n / 4096) as byte, (0x80 + (n / 64) % 64) as byte, (0x80 + n % 64) as byte;
    assert EncodeRune(c) + rest == [b0, b1, b2] + rest;
    assert Decode3(b0, b1, b2) == n;
  }

  lemma DecodeEncode4(c: char, rest: seq<byte>)
    requires 0x10000 <= c as int
    ensures DecodeRune(EncodeRune(c) + rest) == (c, 4)
  {
    var n := c as int;
    var b0, b1, b2, b3 := (0xF0 + n / 262144) as byte, (0x80 + (n / 4096) % 64) as byte,
      (0x80 + (n / 64) % 64) as byte, (0x80 + n % 64) as byte;
    assert EncodeRune(c) + rest == [b0, b1, b2, b3] + rest;
    Radix4(n);
    assert Decode4(b0, b1, b2, b3) == n;
  }

  /** `n` written in base 64, four digits. */
  lemma Radix4(n: nat)
    ensures n == (n / 262144) * 262144 + ((n / 4096) % 64) * 4096 + ((n / 64) % 64) * 64 + n % 64
  {
    var a := n / 64;
    var b := a / 64;
    assert n == a * 64 + n % 64;
    assert a == b * 64 + a % 64;
    assert b == (b / 64) * 64 + b % 64;
    assert b == n / 4096;
    assert b / 64 == n / 262144;
  }

  /** Every string survives `string([]byte(s))`. */
  lemma {:induction false} StringRoundTrip(s: string)
    ensures FromBytes(ToBytes(s)) == s
  {
    if |s| > 0 {
      DecodeEncode(s[0], ToBytes(s[1..]));
      StringRoundTrip(s[1..]);
      assert ToBytes(s)[|EncodeRune(s[0])|..] == ToBytes(s[1..]);
    }
  }

  /** Bytes that are a sequence of shortest encodings of characters. */
  predicate ValidUtf8(b: seq<byte>)
    decreases |b|
  {
    |b| == 0 || (DecodeRune(b) != (RuneError, 1) && ValidUtf8(b[DecodeRune(b).1..]))
  }

  /** A valid head re-encodes to the bytes it was decoded from. */
  lemma EncodeDecode(b: seq<byte>)
    requires |b| > 0 && DecodeRune(b) != (RuneError, 1)
    ensures EncodeRune(DecodeRune(b).0) == b[..DecodeRune(b).1]
  {
    if b[0] < 0x80 {
    } else if 0xC0 <= b[0] < 0xE0 && |b| >= 2 && IsCont(b[1]) && Decode2(b[0], b[1]) >= 0x80 {
      EncodeDecode2(b[0], b[1]);
    } else if 0xE0 <= b[0] < 0xF0 && |b| >= 3 && IsCont(b[1]) && IsCont(b[2])
      && Decode3(b[0], b[1], b[2]) >= 0x800 && !(0xD800 <= Decode3(b[0], b[1], b[2]) < 0xE000) {
      EncodeDecode3(b[0], b[1], b[2]);
    } else {
      EncodeDecode4(b[0], b[1], b[2], b[3]);
    }
  }

  lemma EncodeDecode2(b0: byte, b1: byte)
    requires 0xC0 <= b0 < 0xE0 && IsCont(b1) && Decode2(b0, b1) >= 0x80
    ensures EncodeRune(Decode2(b0, b1) as char) == [b0, b1]
  {
  }

  lemma EncodeDecode3(b0: byte, b1: byte, b2: byte)
    requires 0xE0 <= b0 < 0xF0 && IsCont(b1) && IsCont(b2)
    requires Decode3(b0, b1, b2) >= 0x800 && !(0xD800 <= Decode3(b0, b1, b2) < 0xE000)
    ensures EncodeRune(Decode3(b0, b1, b2) as char) == [b0, b1, b2]
  {
    var hi := (b0 as int - 0xE0) * 64 + (b1 as int - 0x80);
    assert Decode3(b0, b1, b2) == hi * 64 + (b2 as int - 0x80);
    DigitSplit(hi, b2 as int - 0x80);
    DigitSplit(b0 as int - 0xE0, b1 as int - 0x80);
  }

  lemma EncodeDecode4(b0: byte, b1: byte, b2: byte, b3: byte)
    requires 0xF0 <= b0 < 0xF8 && IsCont(b1) && IsCont(b2) && IsCont(b3)
    requires 0x10000 <= Decode4(b0, b1, b2, b3) < 0x110000
    ensures EncodeRune(Decode4(b0, b1, b2, b3) as char) == [b0, b1, b2, b3]
  {
    var n := Decode4(b0, b1, b2, b3);
    var hi := (b0 as int - 0xF0) * 64 + (b1 as int - 0x80);
    var mid := hi * 64 + (b2 as int - 0x80);
    assert n == mid * 64 + (b3 as int - 0x80);
    DigitSplit(mid, b3 as int - 0x80);
    DigitSplit(hi, b2 as int - 0x80);
    DigitSplit(b0 as int - 0xF0, b1 as int - 0x80);
    assert n / 4096 == hi;
    assert n / 262144 == b0 as int - 0xF0;
  }

  lemma DigitSplit(q: nat, d: int)
    requires 0 <= d < 64
    ensures (q * 64 + d) / 64 == q && (q * 64 + d) % 64 == d
  {
  }

  /** Valid UTF-8 survives `[]byte(string(b))`. */
  lemma {:induction false} BytesRoundTrip(b: seq<byte>)
    ensures ValidUtf8(b) ==> ToBytes(FromBytes(b)) == b
    decreases |b|
  {
    if |b| > 0 && ValidUtf8(b) {
      var d := DecodeRune(b);
      var t := FromBytes(b[d.1..]);
      assert FromBytes(b) == [d.0] + t;
      ToBytesCons(d.0, t);
      EncodeDecode(b);
      BytesRoundTrip(b[d.1..]);
      assert b == b[..d.1] + b[d.1..];
    }
  }

  lemma ToBytesCons(c: char, t: string)
    ensures ToBytes([c] + t) == EncodeRune(c) + ToBytes(t)
  {
    assert ([c] + t)[1..] == t;
  }

  /** `[]byte(s)` is always valid UTF-8. */
  lemma {:induction false} EncodingIsValid(s: string)
    ensures ValidUtf8(ToBytes(s))
  {
    if |s| > 0 {
      DecodeEncode(s[0], ToBytes(s[1..]));
      EncodingIsValid(s[1..]);
      assert ToBytes(s)[|EncodeRune(s[0])|..] == ToBytes(s[1..]);
    }
  }

  /** A piece without the separator splits to itself. */
  lemma {:induction false} SplitNoSep(p: string, c: char)
    requires c !in p
    ensures Split(p, c) == [p]
    decreases |p|
  {
    if |p| > 0 {
      assert c !in p[1..];
      SplitNoSep(p[1..], c);
      assert p[0] != c;
      assert [p[0]] + p[1..] == p;
    }
  }

  /** Splitting `p + c + rest` yields `p` and then the pieces of `rest`. */
  lemma {:induction false} SplitCons(p: string, c: char, rest: string)
    requires c !in p
    ensures Split(p + [c] + rest, c) == [p] + Split(rest, c)
    decreases |p|
  {
    if |p| == 0 {
      assert p + [c] + rest == [c] + rest;
      assert ([c] + rest)[1..] == rest;
    } else {
      var s := p + [c] + rest;
      assert s[0] == p[0] && s[0] != c;
      assert s[1..] == p[1..] + [c] + rest;
      assert c !in p[1..];
      SplitCons(p[1..], c, rest);
      assert [p[0]] + p[1..] == p;
    }
  }

  /** Split undoes Join when no part contains the separator. */
  lemma {:induction false} SplitJoin(parts: seq<string>, c: char)
    requires |parts| >= 1
    requires forall k :: 0 <= k < |parts| ==> c !in parts[k]
    ensures Split(Join(parts, [c]), c) == parts
  {
    if |parts| == 1 {
      SplitNoSep(parts[0], c);
    } else {
      SplitJoin(parts[1..], c);
      SplitCons(parts[0], c, Join(parts[1..], [c]));
      assert [parts[0]] + parts[1..] == parts;
    }
  }

  /** Join undoes Split. */
  lemma {:induction false} JoinSplit(s: string, c: char)
    ensures Join(Split(s, c), [c]) == s
    decreases |s|
  {
    if |s| > 0 {
      JoinSplit(s[1..], c);
      var rest := Split(s[1..], c);
      if s[0] == c {
        assert Split(s, c) == [""] + rest;
        assert s == [c] + s[1..];
      } else {
        var r := Split(s, c);
        assert r == [[s[0]] + rest[0]] + rest[1..];
        if |rest| == 1 {
          assert s == [s[0]] + s[1..];
        } else {
          assert r[1..] == rest[1..];
          assert Join(rest, [c]) == rest[0] + [c] + Join(rest[1..], [c]);
          assert s == [s[0]] + s[1..];
        }
      }
    }
  }

  /** The separator occurs in a join exactly |parts| - 1 times when no part
      holds it; stated as: the join contains the separator iff there are at
      least two parts. */
  lemma {:induction false} JoinHasSep(parts: seq<string>, c: char)
    requires forall k :: 0 <= k < |parts| ==> c !in parts[k]
    ensures c in Join(parts, [c]) <==> |parts| >= 2
  {
    if |parts| >= 2 {
      assert Join(parts, [c])[|parts[0]|] == c;
    } else if |parts| == 1 {
      assert Join(parts, [c]) == parts[0];
    }
  }
}
