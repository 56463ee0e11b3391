/** Bytes, the link-control codes, ASCII text and the few Python built-ins the
    protocol code leans on (`str.encode('ascii')`, `bytes.decode('ascii')`,
    `bytes.find`, slicing), together with the Python exceptions they raise. */
module Ascii {

  /** One octet on the serial line. */
  type byte = bv8

  // Link-control codes, one byte each.
  const EOT: byte := 0x04
  const ENQ: byte := 0x05
  const STX: byte := 0x02
  const ETX: byte := 0x03
  const ACK: byte := 0x06
  const NAK: byte := 0x15

  /** The Python exceptions that the modelled code can raise:
      `AttributeError` for a method the object does not have, and
      `SerialException` for a failure of the port itself. */
  datatype PyError = ValueError | TypeError | UnicodeEncodeError | UnicodeDecodeError
                   | AttributeError | SerialException

  /** A Python value that may be `None`. */
  datatype Option<T> = None | Some(value: T)

  /** What a Python call can end in: a returned value or a raised exception. */
  datatype Fallible<T> = Ok(value: T) | Raised(error: PyError)

  /** The character whose code point is the byte `b`. */
  function Char(b: byte): (c: char)
    ensures c as int == b as int
  {
    (b as int) as char
  }

  /** The byte that encodes the ASCII character `c`, counted up from NUL
      (which keeps the conversion in bit-vector addition). */
  function Byte(c: char): (b: byte)
    requires c as int < 0x80
    ensures b as int == c as int
    decreases c as int
  {
    if c as int == 0 then 0 else Byte((c as int - 1) as char) + 1
  }

  lemma ByteChar(b: byte)
    requires b < 0x80
    ensures Byte(Char(b)) == b
  {
  }

  lemma CharByte(c: char)
    requires c as int < 0x80
    ensures Char(Byte(c)) == c
  {
  }

  predicate IsAsciiText(s: string) {
    forall i :: 0 <= i < |s| ==> s[i] as int < 0x80
  }

  predicate IsAsciiBytes(b: seq<byte>) {
    forall i :: 0 <= i < |b| ==> b[i] < 0x80
  }

  /** `s.encode('ascii')`: one byte per character, UnicodeEncodeError on a
      character outside ASCII. */
  function Encode(s: string): (r: Fallible<seq<byte>>)
    ensures r.Ok? <==> IsAsciiText(s)
    ensures r.Raised? ==> r.error == UnicodeEncodeError
    ensures r.Ok? ==> |r.value| == |s|
  {
    EncodePrefix(s, |s|)
  }

  /** The encoding of the first `n` characters of `s`, character by
      character. */
  function EncodePrefix(s: string, n: nat): (r: Fallible<seq<byte>>)
    requires n <= |s|
    ensures r.Ok? <==> forall i :: 0 <= i < n ==> s[i] as int < 0x80
    ensures r.Raised? ==> r.error == UnicodeEncodeError
    ensures r.Ok? ==> |r.value| == n
  {
    if n == 0 then Ok([])
    else
      match EncodePrefix(s, n - 1)
      case Raised(e) => Raised(e)
      case Ok(b) => if s[n - 1] as int < 0x80 then Ok(b + [Byte(s[n - 1])]) else Raised(UnicodeEncodeError)
  }

  /** `b.decode('ascii')`: one character per byte, UnicodeDecodeError on a
      byte of 0x80 or above. */
  function Decode(b: seq<byte>): (r: Fallible<string>)
    ensures r.Ok? <==> IsAsciiBytes(b)
    ensures r.Raised? ==> r.error == UnicodeDecodeError
    ensures r.Ok? ==> |r.value| == |b|
  {
    DecodePrefix(b, |b|)
  }

  /** The decoding of the first `n` bytes of `b`, byte by byte. */
  function DecodePrefix(b: seq<byte>, n: nat): (r: Fallible<string>)
    requires n <= |b|
    ensures r.Ok? <==> forall i :: 0 <= i < n ==> b[i] < 0x80
    ensures r.Raised? ==> r.error == UnicodeDecodeError
    ensures r.Ok? ==> |r.value| == n
  {
    if n == 0 then Ok([])
    else
      match DecodePrefix(b, n - 1)
      case Raised(e) => Raised(e)
      case Ok(t) => if b[n - 1] < 0x80 then Ok(t + [Char(b[n - 1])]) else Raised(UnicodeDecodeError)
  }

  /** Each character is encoded by its own byte. */
  lemma EncodeAt(s: string, i: nat)
    requires IsAsciiText(s) && i < |s|
    ensures Encode(s).value[i] == Byte(s[i])
  {
    EncodePrefixAt(s, |s|, i);
  }

  lemma {:induction false} EncodePrefixAt(s: string, n: nat, i: nat)
    requires i < n <= |s| && EncodePrefix(s, n).Ok?
    ensures EncodePrefix(s, n).value[i] == Byte(s[i])
    decreases n
  {
    if i < n - 1 {
      EncodePrefixAt(s, n - 1, i);
    }
  }

  /** Each byte is decoded to its own character. */
  lemma DecodeAt(b: seq<byte>, i: nat)
    requires IsAsciiBytes(b) && i < |b|
    ensures Decode(b).value[i] == Char(b[i])
  {
    DecodePrefixAt(b, |b|, i);
  }

  lemma {:induction false} DecodePrefixAt(b: seq<byte>, n: nat, i: nat)
    requires i < n <= |b| && DecodePrefix(b, n).Ok?
    ensures DecodePrefix(b, n).value[i] == Char(b[i])
    decreases n
  {
    if i < n - 1 {
      DecodePrefixAt(b, n - 1, i);
    }
  }

  /** Encoded text is ASCII bytes. */
  lemma EncodeIsAscii(s: string)
    requires IsAsciiText(s)
    ensures IsAsciiBytes(Encode(s).value)
  {
    forall i | 0 <= i < |s| ensures Encode(s).value[i] < 0x80 {
      EncodeAt(s, i);
    }
  }

  /** Decoded bytes are ASCII text. */
  lemma DecodeIsAscii(b: seq<byte>)
    requires IsAsciiBytes(b)
    ensures IsAsciiText(Decode(b).value)
  {
    forall i | 0 <= i < |b| ensures Decode(b).value[i] as int < 0x80 {
      DecodeAt(b, i);
    }
  }

  /** Decoding what was encoded gives the text back. */
  lemma DecodeEncode(s: string)
    requires IsAsciiText(s)
    ensures Decode(Encode(s).value) == Ok(s)
  {
    var e := Encode(s).value;
    EncodeIsAscii(s);
    var d := Decode(e);
    assert d.value == s by {
      forall i | 0 <= i < |s| ensures d.value[i] == s[i] {
        DecodeAt(e, i);
        EncodeAt(s, i);
        CharByte(s[i]);
      }
    }
  }

  /** Encoding what was decoded gives the bytes back. */
  lemma EncodeDecode(b: seq<byte>)
    requires IsAsciiBytes(b)
    ensures Encode(Decode(b).value) == Ok(b)
  {
    var d := Decode(b).value;
    DecodeIsAscii(b);
    var e := Encode(d);
    assert e.value == b by {
      forall i | 0 <= i < |b| ensures e.value[i] == b[i] {
        EncodeAt(d, i);
        DecodeAt(b, i);
        ByteChar(b[i]);
      }
    }
  }

  /** ASCII encoding distributes over concatenation: an f-string's encoding
      is the concatenation of its pieces' encodings. */
  lemma EncodeAppend(s: string, t: string)
    requires IsAsciiText(s) && IsAsciiText(t)
    ensures IsAsciiText(s + t)
    ensures Encode(s + t) == Ok(Encode(s).value + Encode(t).value)
  {
    assert IsAsciiText(s + t) by {
      forall i | 0 <= i < |s + t| ensures (s + t)[i] as int < 0x80 {
        if i >= |s| { assert (s + t)[i] == t[i - |s|]; }
      }
    }
    var l, r := Encode(s + t).value, Encode(s).value + Encode(t).value;
    assert l == r by {
      forall i | 0 <= i < |l| ensures l[i] == r[i] {
        EncodeAt(s + t, i);
        if i >= |s| {
          assert (s + t)[i] == t[i - |s|];
          EncodeAt(t, i - |s|);
        } else {
          EncodeAt(s, i);
        }
      }
    }
  }

  /** `s.find(bytes([x]))`: the index of the first occurrence of `x`, or -1. */
  function Find(s: seq<byte>, x: byte): (r: int)
    ensures -1 <= r < |s|
    ensures r == -1 <==> x !in s
    ensures r >= 0 ==> s[r] == x && x !in s[..r]
  {
    if s == [] then -1
    else if s[0] == x then 0
    else
      var k := Find(s[1..], x);
      if k == -1 then -1 else k + 1
  }

  /** The first occurrence is determined by position: an index where `x`
      stands and that no earlier `x` precedes is what `Find` returns. */
  lemma FindAt(s: seq<byte>, x: byte, i: nat)
    requires i < |s| && s[i] == x && x !in s[..i]
    ensures Find(s, x) == i
  {
    assert x in s by { assert s[i] == x; }
  }

  /** Python's `s[lo:hi]` for non-negative bounds: both bounds are clamped
      to the length, and a slice whose start is not below its end is empty. */
  function Slice<T>(s: seq<T>, lo: nat, hi: nat): seq<T>
  {
    var b := if hi < |s| then hi else |s|;
    if lo < b then s[lo..b] else []
  }
}
