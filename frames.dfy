/** Frames of the RKC link protocol: the poll query, the select message, the
    check and the split of a poll response, and the fixed-point text of a
    value. */
module Frames {
  import opened Ascii
  import opened Utils

  /** The poll query `address ++ memory_area ++ identifier ++ ENQ`, encoded
      as ASCII; the encoding raises on non-ASCII text. */
  function PollQuery(address: string, memoryArea: string, identifier: string): (r: Fallible<seq<byte>>)
    ensures r.Ok? <==> IsAsciiText(address + memoryArea + identifier)
    ensures r.Raised? ==> r.error == UnicodeEncodeError
    ensures r.Ok? ==> r.value == Encode(address + memoryArea + identifier).value + [ENQ]
  {
    var text := address + memoryArea + identifier;
    if IsAsciiText(text) then
      EncodeAppend(text, [Char(ENQ)]);
      Encode(text + [Char(ENQ)])
    else
      assert !IsAsciiText(text + [Char(ENQ)]) by {
        var i :| 0 <= i < |text| && text[i] as int >= 0x80;
        assert (text + [Char(ENQ)])[i] == text[i];
      }
      Encode(text + [Char(ENQ)])
  }

  /** The select message `address ++ STX ++ identifier ++ data ++ ETX ++ BCC`,
      with the BCC taken over `identifier ++ data ++ ETX`: the checksum of the
      text, its ASCII decoding, and the encoding of the whole message, each of
      which can raise. */
  function SelectMessage(address: string, identifier: string, data: string): (r: Fallible<seq<byte>>)
    ensures r.Ok? <==> IsAsciiText(address) && IsAsciiText(identifier + data)
    ensures r.Raised? ==> r.error == UnicodeEncodeError
  {
    var body := identifier + data + [Char(ETX)];
    var message := address + [Char(STX)] + identifier + data + [Char(ETX)];
    match Bcc(Str(body))
    case Raised(e) =>
      assert !IsAsciiText(identifier + data) by {
        if IsAsciiText(identifier + data) { EncodeAppend(identifier + data, [Char(ETX)]); }
      }
      Raised(e)
    case Ok(bcc) =>
      AsciiPieces(identifier + data, [Char(ETX)]);
      EncodeAppend(identifier + data, [Char(ETX)]);
      EncodeIsAscii(body);
      XorFoldAscii(Encode(body).value);
      match Decode(bcc)
      case Raised(e) => Raised(e)
      case Ok(check) =>
        SelectTextAscii(address, identifier + data, check);
        assert message == address + [Char(STX)] + (identifier + data) + [Char(ETX)];
        Encode(message + check)
  }

  /** A text is ASCII exactly when both of its pieces are. */
  lemma AsciiPieces(s: string, t: string)
    ensures IsAsciiText(s + t) <==> IsAsciiText(s) && IsAsciiText(t)
  {
    if IsAsciiText(s + t) {
      forall i | 0 <= i < |s| ensures s[i] as int < 0x80 { assert (s + t)[i] == s[i]; }
      forall i | 0 <= i < |t| ensures t[i] as int < 0x80 { assert (s + t)[|s| + i] == t[i]; }
    }
    if IsAsciiText(s) && IsAsciiText(t) { EncodeAppend(s, t); }
  }

  lemma SelectTextAscii(address: string, payload: string, check: string)
    requires IsAsciiText(payload) && IsAsciiText(check)
    ensures IsAsciiText(address + [Char(STX)] + payload + [Char(ETX)] + check) <==> IsAsciiText(address)
  {
    AsciiPieces(address, [Char(STX)]);
    AsciiPieces(address + [Char(STX)], payload);
    AsciiPieces(address + [Char(STX)] + payload, [Char(ETX)]);
    AsciiPieces(address + [Char(STX)] + payload + [Char(ETX)], check);
  }

  /** A parsed poll response: the value alone, or the identifier and the
      value. */
  datatype Reply = Value(value: string) | Tagged(identifier: string, value: string)

  /** The split of the text between STX and ETX: its first two characters
      are the identifier, the rest is the value. */
  function Split(text: string, withIdentifier: bool): (r: Reply)
    ensures r.Tagged? <==> withIdentifier
    ensures r.Tagged? ==> r.identifier + r.value == text && |r.identifier| == (if |text| < 2 then |text| else 2)
    ensures r.Value? ==> r.value == (if |text| < 2 then [] else text[2..])
  {
    var identifier := Slice(text, 0, 2);
    var value := Slice(text, 2, |text|);
    assert |text| >= 2 ==> identifier == text[..2] && value == text[2..];
    assert |text| < 2 ==> identifier == text && value == [];
    if withIdentifier then Tagged(identifier, value) else Value(value)
  }

  /** `_validate_response`: find the first STX and the first ETX; without
      both the response is invalid; otherwise it is valid when the byte after
      ETX is the BCC of the bytes after STX up to and including ETX. The span
      is ASCII-decoded first, which raises on a byte of 0x80 or above. */
  function ValidateResponse(response: seq<byte>): (r: Fallible<bool>)
    ensures STX !in response || ETX !in response ==> r == Ok(false)
    ensures r.Raised? ==> r.error == UnicodeDecodeError
    ensures STX in response && ETX in response ==>
      var stx, etx := Find(response, STX), Find(response, ETX);
      var span := Slice(response, stx + 1, etx + 1);
      (r.Ok? <==> IsAsciiBytes(span)) &&
      (r == Ok(true) <==> IsAsciiBytes(span) && etx + 1 < |response| && response[etx + 1] == XorFold(span))
  {
    var stx := Find(response, STX);
    var etx := Find(response, ETX);
    if stx != -1 && etx != -1 then
      var data := Slice(response, stx + 1, etx + 1);
      CheckByte(response, etx, XorFold(data));
      CompareCheck(data, Slice(response, etx + 1, etx + 2))
    else
      Ok(false)
  }

  /** The comparison inside `_validate_response`: the span is decoded as
      ASCII, its BCC is computed from the text, and the received check
      bytes are compared with it. */
  function CompareCheck(data: seq<byte>, bcc: seq<byte>): (r: Fallible<bool>)
    ensures r.Ok? <==> IsAsciiBytes(data)
    ensures r.Raised? ==> r.error == UnicodeDecodeError
    ensures r.Ok? ==> r.value == (bcc == [XorFold(data)])
  {
    match Decode(data)
    case Raised(e) => Raised(e)
    case Ok(text) =>
      CheckOfDecoded(data);
      match Bcc(Str(text))
      case Ok(calculated) => Ok(bcc == calculated)
      case Raised(e) => Raised(e)
  }

  /** The one-byte slice after ETX equals a given byte exactly when that
      byte is present and is the given one. */
  lemma CheckByte(response: seq<byte>, etx: nat, c: byte)
    ensures Slice(response, etx + 1, etx + 2) == [c] <==> etx + 1 < |response| && response[etx + 1] == c
  {
    if etx + 1 < |response| {
      assert Slice(response, etx + 1, etx + 2) == [response[etx + 1]];
    }
  }

  /** The checksum of a decoded span is the fold of the span's own bytes. */
  lemma CheckOfDecoded(data: seq<byte>)
    requires IsAsciiBytes(data)
    ensures Bcc(Str(Decode(data).value)) == Ok([XorFold(data)])
  {
    EncodeDecode(data);
  }

  /** `_parse_response`: the ASCII text strictly between the first STX and
      the first ETX, split into identifier and value; `None` without both
      markers. */
  function ParseResponse(response: seq<byte>, withIdentifier: bool): (r: Fallible<Option<Reply>>)
    ensures r == Ok(None) <==> STX !in response || ETX !in response
    ensures r.Raised? ==> r.error == UnicodeDecodeError
    ensures r.Raised? <==>
      (STX in response && ETX in response &&
       !IsAsciiBytes(Slice(response, Find(response, STX) + 1, Find(response, ETX))))
    ensures r.Ok? && r.value.Some? ==>
      var inner := Slice(response, Find(response, STX) + 1, Find(response, ETX));
      IsAsciiBytes(inner) && r.value.value == Split(Decode(inner).value, withIdentifier)
  {
    var stx := Find(response, STX);
    var etx := Find(response, ETX);
    if stx != -1 && etx != -1 then
      match Decode(Slice(response, stx + 1, etx))
      case Raised(e) => Raised(e)
      case Ok(text) => Ok(Some(Split(text, withIdentifier)))
    else
      Ok(None)
  }

  /** A response that passes the check also parses: the parsed span lies
      inside the checked one, so its decoding cannot fail. */
  lemma ValidThenParses(response: seq<byte>, withIdentifier: bool)
    requires ValidateResponse(response) == Ok(true)
    ensures ParseResponse(response, withIdentifier).Ok?
    ensures ParseResponse(response, withIdentifier).value.Some?
  {
    var stx, etx := Find(response, STX), Find(response, ETX);
    var span := Slice(response, stx + 1, etx + 1);
    var inner := Slice(response, stx + 1, etx);
    assert IsAsciiBytes(inner) by {
      forall k | 0 <= k < |inner| ensures inner[k] < 0x80 { assert inner[k] == span[k]; }
    }
  }

  /** A response laid out as a frame: anything, STX, a body, ETX, and
      whatever follows (the check byte and more). */
  function Frame(lead: seq<byte>, body: seq<byte>, rest: seq<byte>): (r: seq<byte>)
    ensures |r| == |lead| + |body| + |rest| + 2
  {
    lead + [STX] + body + [ETX] + rest
  }

  /** In a frame, the first STX and the first ETX are the frame's own
      markers when nothing before them holds either byte. */
  lemma FrameMarkers(lead: seq<byte>, body: seq<byte>, rest: seq<byte>)
    requires STX !in lead && ETX !in lead && ETX !in body
    ensures Find(Frame(lead, body, rest), STX) == |lead|
    ensures Find(Frame(lead, body, rest), ETX) == |lead| + 1 + |body|
  {
    var response := Frame(lead, body, rest);
    var n := |lead|;
    var e := n + 1 + |body|;
    assert response[n] == STX && response[..n] == lead;
    FindAt(response, STX, n);
    assert response[e] == ETX && response[..e] == lead + [STX] + body;
    FindAt(response, ETX, e);
  }

  /** The spans of a frame that the check and the split work on: the body
      with its ETX, the body alone, and the byte after ETX. */
  lemma FrameSpans(lead: seq<byte>, body: seq<byte>, rest: seq<byte>)
    ensures var e := |lead| + 1 + |body|;
      Slice(Frame(lead, body, rest), |lead| + 1, e + 1) == body + [ETX] &&
      Slice(Frame(lead, body, rest), |lead| + 1, e) == body &&
      Slice(Frame(lead, body, rest), e + 1, e + 2) == (if rest == [] then [] else [rest[0]]) &&
      (rest != [] ==> Frame(lead, body, rest)[e + 1] == rest[0])
  {
    var response := Frame(lead, body, rest);
    var e := |lead| + 1 + |body|;
    assert response[|lead| + 1..e + 1] == body + [ETX];
    assert response[|lead| + 1..e] == body;
    if rest != [] {
      assert response[e + 1..e + 2] == [rest[0]];
    }
  }

  /** ASCII bytes followed by an ASCII byte. */
  lemma AsciiSnoc(body: seq<byte>, b: byte)
    requires IsAsciiBytes(body) && b < 0x80
    ensures IsAsciiBytes(body + [b])
  {
    forall k | 0 <= k < |body| + 1 ensures (body + [b])[k] < 0x80 {
      if k < |body| { assert (body + [b])[k] == body[k]; }
    }
  }

  /** A frame whose body is ASCII and free of ETX is valid exactly when the
      byte after ETX (its check byte) is the BCC of the body and ETX. */
  lemma FrameValid(lead: seq<byte>, body: seq<byte>, rest: seq<byte>)
    requires STX !in lead && ETX !in lead && ETX !in body && IsAsciiBytes(body) && rest != []
    ensures ValidateResponse(Frame(lead, body, rest)) == Ok(rest[0] == XorFold(body + [ETX]))
  {
    var response := Frame(lead, body, rest);
    var e := |lead| + 1 + |body|;
    FrameMarkers(lead, body, rest);
    FrameSpans(lead, body, rest);
    AsciiSnoc(body, ETX);
    assert ValidateResponse(response) == CompareCheck(body + [ETX], [rest[0]]);
  }

  /** Such a frame parses to the split of its body. */
  lemma FrameParses(lead: seq<byte>, body: seq<byte>, rest: seq<byte>, withIdentifier: bool)
    requires STX !in lead && ETX !in lead && ETX !in body && IsAsciiBytes(body)
    ensures ParseResponse(Frame(lead, body, rest), withIdentifier) == Ok(Some(Split(Decode(body).value, withIdentifier)))
  {
    var response := Frame(lead, body, rest);
    FrameMarkers(lead, body, rest);
    FrameSpans(lead, body, rest);
    var inner := Slice(response, Find(response, STX) + 1, Find(response, ETX));
    assert inner == body;
    assert Decode(inner).Ok?;
  }

  /** A frame that ends at ETX, without its check byte, is invalid. */
  lemma FrameWithoutCheck(lead: seq<byte>, body: seq<byte>)
    requires STX !in lead && ETX !in lead && ETX !in body
    ensures ValidateResponse(Frame(lead, body, [])) == Ok(false) || ValidateResponse(Frame(lead, body, [])).Raised?
  {
    FrameMarkers(lead, body, []);
    FrameSpans(lead, body, []);
  }

  /** The byte string of a one-character text. */
  lemma EncodeChar(b: byte)
    requires b < 0x80
    ensures Encode([Char(b)]) == Ok([b])
  {
    ByteChar(b);
    assert IsAsciiText([Char(b)]);
    assert Encode([Char(b)]).value == [b];
  }

  /** The select message, piece by piece: the address, STX, the payload,
      ETX, and the BCC of the payload and ETX. */
  lemma SelectMessageLayout(address: string, identifier: string, data: string)
    requires IsAsciiText(address) && IsAsciiText(identifier + data)
    ensures var payload := Encode(identifier + data).value;
      SelectMessage(address, identifier, data)
        == Ok(Encode(address).value + [STX] + payload + [ETX, XorFold(payload + [ETX])])
  {
    var payload := identifier + data;
    var p := Encode(payload).value;
    EncodeChar(ETX);
    EncodeChar(STX);
    EncodeAppend(payload, [Char(ETX)]);
    assert identifier + data + [Char(ETX)] == payload + [Char(ETX)];
    assert Encode(payload + [Char(ETX)]).value == p + [ETX];
    var bcc := XorFold(p + [ETX]);
    assert Bcc(Str(identifier + data + [Char(ETX)])) == Ok([bcc]);
    EncodeIsAscii(payload);
    AsciiSnoc(p, ETX);
    XorFoldAscii(p + [ETX]);
    assert Decode([bcc]).value == [Char(bcc)];
    EncodeChar(bcc);
    var m0 := address + [Char(STX)];
    var m1 := m0 + payload;
    var m2 := m1 + [Char(ETX)];
    var m3 := m2 + [Char(bcc)];
    EncodeAppend(address, [Char(STX)]);
    AsciiPieces(address, [Char(STX)]);
    assert Encode(m0).value == Encode(address).value + [STX];
    EncodeAppend(m0, payload);
    AsciiPieces(m0, payload);
    assert Encode(m1).value == Encode(address).value + [STX] + p;
    EncodeAppend(m1, [Char(ETX)]);
    AsciiPieces(m1, [Char(ETX)]);
    assert Encode(m2).value == Encode(address).value + [STX] + p + [ETX];
    EncodeAppend(m2, [Char(bcc)]);
    assert Encode(m3).value == Encode(address).value + [STX] + p + [ETX] + [bcc];
    assert address + [Char(STX)] + identifier + data + [Char(ETX)] + [Char(bcc)] == m3;
    assert Encode(address).value + [STX] + p + [ETX] + [bcc] == Encode(address).value + [STX] + p + [ETX, bcc];
  }

  /** The span "M1-0120.0" ETX folds to 'O' (0x4F), so a check byte 'Q'
      does not match it. */
  lemma ChecksumOfCorruptReply(s: seq<byte>)
    requires s == [0x4D, 0x31, 0x2D, 0x30, 0x31, 0x32, 0x30, 0x2E, 0x30, ETX]
    ensures XorFold(s) == 0x4F
  {
    assert XorPrefix([0x4D, 0x31, 0x2D, 0x30, 0x31, 0x32, 0x30, 0x2E, 0x30, 0x03], 10) == 0x4F;
  }

  /** `RKCCommunication(address="01").poll("M1")` sends `b'01M1\x05'`. */
  lemma PollQueryExample()
    ensures PollQuery("01", "", "M1") == Ok([0x30, 0x31, 0x4D, 0x31, ENQ])
  {
    assert "01" + "" + "M1" == "01M1";
    assert EncodePrefix("01M1", 4).value == [0x30, 0x31, 0x4D, 0x31];
    assert PollQuery("01", "", "M1").value == [0x30, 0x31, 0x4D, 0x31, ENQ];
  }

  /** `select("S1", "-0150.0")` at address "01" sends
      `b'01\x02S1-0150.0\x03V'`. */
  lemma SelectMessageExample(address: string, identifier: string, data: string, message: seq<byte>)
    requires address == "01" && identifier == "S1" && data == "-0150.0"
    requires message == [0x30, 0x31, STX, 0x53, 0x31, 0x2D, 0x30, 0x31, 0x35, 0x30, 0x2E, 0x30, ETX, 0x56]
    ensures SelectMessage(address, identifier, data) == Ok(message)
  {
    var a: seq<byte> := [0x30, 0x31];
    var payload: seq<byte> := [0x53, 0x31, 0x2D, 0x30, 0x31, 0x35, 0x30, 0x2E, 0x30];
    assert EncodePrefix("01", 2).value == a;
    assert identifier + data == "S1-0150.0";
    assert EncodePrefix("S1-0150.0", 9).value == payload;
    ChecksumOfS1Message(payload + [ETX]);
    SelectMessageLayout(address, identifier, data);
    assert a + [STX] + payload + [ETX, 0x56] == message;
  }

  /** The span "S1-0150.0" ETX of the select message folds to 'V' (0x56). */
  lemma ChecksumOfS1Message(s: seq<byte>)
    requires s == [0x53, 0x31, 0x2D, 0x30, 0x31, 0x35, 0x30, 0x2E, 0x30, ETX]
    ensures XorFold(s) == 0x56
  {
    assert XorPrefix([0x53, 0x31, 0x2D, 0x30, 0x31, 0x35, 0x30, 0x2E, 0x30, 0x03], 10) == 0x56;
  }

  /** The first check of the unit tests: `b'\x02M1-0120.9\x03F'` is valid. */
  lemma ValidateGoodExample(good: seq<byte>)
    requires good == [0x4D, 0x31, 0x2D, 0x30, 0x31, 0x32, 0x30, 0x2E, 0x39]
    ensures ValidateResponse(Frame([], good, ['F' as byte])) == Ok(true)
  {
    assert ETX !in good && IsAsciiBytes(good);
    BccExample(good + [ETX]);
    FrameValid([], good, ['F' as byte]);
  }

  /** The second check of the unit tests: a wrong check byte
      (`b'\x02M1-0120.0\x03Q'`) makes the frame invalid. */
  lemma ValidateWrongCheckExample(bad: seq<byte>)
    requires bad == [0x4D, 0x31, 0x2D, 0x30, 0x31, 0x32, 0x30, 0x2E, 0x30]
    ensures ValidateResponse(Frame([], bad, ['Q' as byte])) == Ok(false)
  {
    CorruptReplyFacts(bad);
    FrameMismatch([], bad, 'Q' as byte);
  }

  /** A frame whose check byte is not the BCC of its body and ETX is
      invalid. */
  lemma FrameMismatch(lead: seq<byte>, body: seq<byte>, c: byte)
    requires STX !in lead && ETX !in lead && ETX !in body && IsAsciiBytes(body)
    requires c != XorFold(body + [ETX])
    ensures ValidateResponse(Frame(lead, body, [c])) == Ok(false)
  {
    FrameValid(lead, body, [c]);
  }

  /** The body of the corrupted reply is ASCII, holds no ETX, and its span
      folds to 0x4F. */
  lemma CorruptReplyFacts(bad: seq<byte>)
    requires bad == [0x4D, 0x31, 0x2D, 0x30, 0x31, 0x32, 0x30, 0x2E, 0x30]
    ensures ETX !in bad && IsAsciiBytes(bad) && XorFold(bad + [ETX]) == 0x4F && 'Q' as byte != 0x4F
  {
    assert ETX !in bad && IsAsciiBytes(bad);
    ChecksumOfCorruptReply(bad + [ETX]);
  }

  /** The third check of the unit tests: text without STX and ETX
      (`b'M1-0120.0'`) is invalid. */
  lemma ValidateUnframedExample(bad: seq<byte>)
    requires bad == [0x4D, 0x31, 0x2D, 0x30, 0x31, 0x32, 0x30, 0x2E, 0x30]
    ensures ValidateResponse(bad) == Ok(false)
  {
    assert STX !in bad;
  }

  /** The two parses of the unit tests: `b'\x02M1-0150.0\x03'` gives the
      value "-0150.0", and `b'M1-0150.0'` gives `None`. */
  lemma ParseExamples(body: seq<byte>)
    requires body == [0x4D, 0x31, 0x2D, 0x30, 0x31, 0x35, 0x30, 0x2E, 0x30]
    ensures ParseResponse(Frame([], body, []), false) == Ok(Some(Value("-0150.0")))
    ensures ParseResponse(body, false) == Ok(None)
  {
    assert DecodePrefix([0x4D, 0x31, 0x2D, 0x30, 0x31, 0x35, 0x30, 0x2E, 0x30], 9).value == "M1-0150.0";
    assert ETX !in body && STX !in body && IsAsciiBytes(body);
    FrameParses([], body, [], false);
    assert Split("M1-0150.0", false) == Value("-0150.0");
  }
}
