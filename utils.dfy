/** The block check character (BCC) of the RKC link protocol: the
    exclusive-or of every byte of the protected span. */
module Utils {
  import opened Ascii

  /** The exclusive-or of all bytes of `s`, folded left to right in the
      order the bytes are sent. */
  function XorFold(s: seq<byte>): byte {
    XorPrefix(s, |s|)
  }

  /** The exclusive-or of the first `n` bytes of `s`. */
  function XorPrefix(s: seq<byte>, n: nat): byte
    requires n <= |s|
  {
    if n == 0 then 0 else XorPrefix(s, n - 1) ^ s[n - 1]
  }

  /** The fold of a prefix depends on nothing but the bytes of that prefix. */
  lemma {:induction false} XorPrefixAgree(s: seq<byte>, t: seq<byte>, n: nat)
    requires n <= |s| && n <= |t|
    requires forall i :: 0 <= i < n ==> s[i] == t[i]
    ensures XorPrefix(s, n) == XorPrefix(t, n)
  {
    if n > 0 {
      XorPrefixAgree(s, t, n - 1);
    }
  }

  /** Appending one byte changes the checksum by exactly that byte. */
  lemma XorFoldPush(s: seq<byte>, c: byte)
    ensures XorFold(s + [c]) == XorFold(s) ^ c
  {
    XorPrefixAgree(s + [c], s, |s|);
  }

  /** The checksum of a concatenation is the exclusive-or of the parts'
      checksums. */
  lemma {:induction false} XorFoldAppend(a: seq<byte>, b: seq<byte>)
    ensures XorFold(a + b) == XorFold(a) ^ XorFold(b)
    decreases |b|
  {
    if b == [] {
      assert a + b == a;
    } else {
      var c := b[|b| - 1];
      var b' := b[..|b| - 1];
      assert a + b == (a + b') + [c];
      assert b == b' + [c];
      XorFoldPush(a + b', c);
      XorFoldPush(b', c);
      XorFoldAppend(a, b');
    }
  }

  /** The checksum does not depend on the order of the parts. */
  lemma XorFoldSwap(a: seq<byte>, b: seq<byte>)
    ensures XorFold(a + b) == XorFold(b + a)
  {
    XorFoldAppend(a, b);
    XorFoldAppend(b, a);
  }

  /** A span followed by its own checksum folds to zero: the receiver's
      check is the same fold taken one byte further. */
  lemma XorFoldSelfCheck(s: seq<byte>)
    ensures XorFold(s + [XorFold(s)]) == 0
  {
    XorFoldPush(s, XorFold(s));
  }

  /** The checksum of ASCII bytes is itself an ASCII byte, so decoding it
      as ASCII cannot fail. */
  lemma XorFoldAscii(s: seq<byte>)
    requires IsAsciiBytes(s)
    ensures XorFold(s) < 0x80
  {
    XorPrefixAscii(s, |s|);
  }

  lemma {:induction false} XorPrefixAscii(s: seq<byte>, n: nat)
    requires n <= |s| && IsAsciiBytes(s)
    ensures XorPrefix(s, n) < 0x80
  {
    if n > 0 {
      XorPrefixAscii(s, n - 1);
    }
  }

  /** The Python value handed to `calculate_bcc`: a `bytes` object, a `str`,
      or anything else. */
  datatype BccArg = Bytes(bytes: seq<byte>) | Str(text: string) | Other

  /** What `calculate_bcc` computes: a one-byte `bytes` object holding the
      fold of the argument's bytes (a `str` is ASCII-encoded first), or the
      exception the call raises. */
  function Bcc(data: BccArg): (r: Fallible<seq<byte>>)
    ensures r.Ok? <==> data.Bytes? || (data.Str? && IsAsciiText(data.text))
    ensures r.Ok? ==> |r.value| == 1
    ensures data.Other? ==> r == Raised(ValueError)
  {
    match data
    case Bytes(b) => Ok([XorFold(b)])
    case Str(s) =>
      (match Encode(s)
       case Ok(b) => Ok([XorFold(b)])
       case Raised(e) => Raised(e))
    case Other => Raised(ValueError)
  }

  /** A `str` argument gives the same checksum as its ASCII encoding passed
      as `bytes`. */
  lemma BccTextAsBytes(s: string)
    requires IsAsciiText(s)
    ensures Bcc(Str(s)) == Bcc(Bytes(Encode(s).value))
  {
  }

  /** `calculate_bcc`: type dispatch, then the byte-by-byte fold. */
  method CalculateBcc(data: BccArg) returns (r: Fallible<seq<byte>>)
    ensures r == Bcc(data)
    ensures r.Ok? ==> |r.value| == 1 && r.value[0] == XorFold(BytesOf(data))
    ensures data == Bytes([]) ==> r == Ok([0])
  {
    var bytes: seq<byte>;
    match data {
      case Bytes(b) =>
        bytes := b;
      case Str(s) =>
        var e := Encode(s);
        if e.Raised? {
          return Raised(e.error);
        }
        bytes := e.value;
      case Other =>
        return Raised(ValueError);
    }
    var bcc: byte := 0;
    for i := 0 to |bytes|
      invariant bcc == XorPrefix(bytes, i)
    {
      bcc := bcc ^ bytes[i];
    }
    r := Ok([bcc]);
  }

  /** The bytes a `calculate_bcc` argument stands for, when it has any. */
  function BytesOf(data: BccArg): seq<byte> {
    match data
    case Bytes(b) => b
    case Str(s) => if IsAsciiText(s) then Encode(s).value else []
    case Other => []
  }

  /** The checksum example of the unit tests: the span "M1-0120.9" ETX
      folds to 'F'. */
  lemma BccExample(s: seq<byte>)
    requires s == [0x4D, 0x31, 0x2D, 0x30, 0x31, 0x32, 0x30, 0x2E, 0x39, ETX]
    ensures XorFold(s) == 'F' as byte
  {
    assert XorPrefix([0x4D, 0x31, 0x2D, 0x30, 0x31, 0x32, 0x30, 0x2E, 0x39, 0x03], 10) == 0x46;
  }

  /** `calculate_bcc(b'M1-0120.9\x03') == b'F'`, the same for the text, and
      `calculate_bcc(1)` raises ValueError. */
  lemma CalculateBccExample(frame: seq<byte>)
    requires frame == [0x4D, 0x31, 0x2D, 0x30, 0x31, 0x32, 0x30, 0x2E, 0x39, ETX]
    ensures Bcc(Bytes(frame)) == Ok(['F' as byte])
    ensures Bcc(Str(Decode(frame).value)) == Ok(['F' as byte])
    ensures Bcc(Other) == Raised(ValueError)
  {
    BccExample(frame);
    assert IsAsciiBytes(frame);
    EncodeDecode(frame);
  }
}
