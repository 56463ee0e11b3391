/** The unit tests of the protocol engine, replayed on the model: each
    lemma scripts the serial port as the test's mock does and states the
    exact writes and the result. The controller is at address "01" and
    `max_retries` keeps its default of 3. */
module Scenarios {
  import opened Ascii
  import opened Utils
  import opened Frames
  import opened FixedPoint
  import opened Transport
  import opened RkcCommunication

  /** `M1-0150.0`, the text of the M1 replies in the tests. */
  function Body(): seq<byte> {
    [0x4D, 0x31, 0x2D, 0x30, 0x31, 0x35, 0x30, 0x2E, 0x30]
  }

  /** What `read_until(ETX)` returns in the tests: `b'\x02M1-0150.0\x03'`. */
  function Reply(): seq<byte> {
    [STX] + Body() + [ETX]
  }

  /** `b'01M1\x05'`, the poll query of `read_value`. */
  function M1Query(): seq<byte> {
    [0x30, 0x31, 0x4D, 0x31, ENQ]
  }

  /** `b'01\x02S1-0150.0\x03V'`, the select message of `set_value(-150)`. */
  function S1Message(): seq<byte> {
    [0x30, 0x31, STX, 0x53, 0x31, 0x2D, 0x30, 0x31, 0x35, 0x30, 0x2E, 0x30, ETX, 0x56]
  }

  /** The check byte of the M1 reply is 'H'. */
  lemma ChecksumOfM1Reply(s: seq<byte>)
    requires s == Body() + [ETX]
    ensures XorFold(s) == 0x48
  {
    assert s == [0x4D, 0x31, 0x2D, 0x30, 0x31, 0x35, 0x30, 0x2E, 0x30, 0x03];
    assert XorPrefix([0x4D, 0x31, 0x2D, 0x30, 0x31, 0x35, 0x30, 0x2E, 0x30, 0x03], 10) == 0x48;
  }

  /** The M1 reply followed by the check byte `c`: accepted exactly when
      `c` is 'H', and then read as `("M1", "-0150.0")`. */
  lemma M1Verdict(c: byte)
    ensures Judge(Reply() + [c], true) == if c == 0x48 then Settled(Ok(Some(Tagged("M1", "-0150.0")))) else Rejected
  {
    var body := Body();
    assert ETX !in body && STX !in [] && ETX !in [] && IsAsciiBytes(body);
    assert Reply() + [c] == Frame([], body, [c]);
    ChecksumOfM1Reply(body + [ETX]);
    FrameValid([], body, [c]);
    if c == 0x48 {
      FrameParses([], body, [c], true);
      BodyText();
      SplitM1();
    }
  }

  lemma BodyText()
    ensures Decode(Body()) == Ok("M1-0150.0")
  {
    assert DecodePrefix([0x4D, 0x31, 0x2D, 0x30, 0x31, 0x35, 0x30, 0x2E, 0x30], 9).value == "M1-0150.0";
  }

  lemma SplitM1()
    ensures Split("M1-0150.0", true) == Tagged("M1", "-0150.0")
  {
  }

  /** The query of `read_value` at address "01". */
  lemma M1QueryOf()
    ensures PollQuery("01", "", "M1") == Ok(M1Query())
  {
    PollQueryExample();
  }

  /** `read_value` reads -150.0 from a good reply, after two writes: EOT
      and `b'01M1\x05'`. */
  lemma ReadValueSucceeds(frames: seq<seq<byte>>, singles: seq<seq<byte>>)
    requires frames == [Reply()] && singles == [[0x48]]
    ensures var x := PollExchange("01", 3, "M1", "", true, frames, singles);
            ReadResult(x.result) == Ok(Some(Decimal(-1500, 1))) && x.writes == [[EOT], M1Query()]
  {
    M1QueryOf();
    M1Verdict(0x48);
    assert Round(frames, singles, 0, Decide(true)) == Judge(Reply() + [0x48], true);
    PollReturnsFirstValid("01", 3, "M1", "", true, frames, singles, 0);
    ParseExample();
  }

  /** A reply with a wrong check byte is answered with a NAK, and the
      next, good one is read: three writes. */
  lemma ReadValueFailedOnce(frames: seq<seq<byte>>, singles: seq<seq<byte>>)
    requires frames == [Reply(), Reply()] && singles == [[0x4B], [0x48]]
    ensures var x := PollExchange("01", 3, "M1", "", true, frames, singles);
            ReadResult(x.result) == Ok(Some(Decimal(-1500, 1))) && x.writes == [[EOT], M1Query(), [NAK]]
  {
    M1QueryOf();
    PollOf("01", 3, "M1", "", true, frames, singles, M1Query());
    OnceVerdicts(frames, singles);
    SettlesSecond(frames, singles, Attempts(3), Decide(true), Ok(Some(Tagged("M1", "-0150.0"))));
    OneNak(M1Query());
    ParseExample();
  }

  lemma OneNak(q: seq<byte>)
    ensures [[EOT], q] + Naks(1) == [[EOT], q, [NAK]]
  {
  }

  /** The verdicts on the rounds of the second read test. */
  lemma OnceVerdicts(frames: seq<seq<byte>>, singles: seq<seq<byte>>)
    requires |frames| == 2 && frames[0] == frames[1] == Reply()
    requires |singles| == 2 && singles[0] == [0x4B] && singles[1] == [0x48]
    ensures Round(frames, singles, 0, Decide(true)) == Rejected
    ensures Round(frames, singles, 1, Decide(true)) == Settled(Ok(Some(Tagged("M1", "-0150.0"))))
  {
    M1Round(frames, singles, 0, 0x4B);
    M1Round(frames, singles, 1, 0x48);
  }

  /** `poll` with a query that encodes to `q`, in terms of its read loop. */
  lemma PollOf(address: string, maxRetries: int, identifier: string, memoryArea: string,
               withIdentifier: bool, frames: seq<seq<byte>>, singles: seq<seq<byte>>, q: seq<byte>)
    requires PollQuery(address, memoryArea, identifier) == Ok(q)
    ensures var x := PollExchange(address, maxRetries, identifier, memoryArea, withIdentifier, frames, singles);
            var t := PollLoop(frames, singles, Attempts(maxRetries), Decide(withIdentifier));
            x.result == t.result && x.writes == [[EOT], q] + Naks(t.naks)
  {
  }

  /** A first round rejected and a second one settled: one NAK, and the
      second round's result. */
  lemma SettlesSecond(frames: seq<seq<byte>>, singles: seq<seq<byte>>, left: nat, decide: Decision,
                      v: Fallible<Option<Reply>>)
    requires 2 <= left
    requires Round(frames, singles, 0, decide) == Rejected && Round(frames, singles, 1, decide) == Settled(v)
    ensures PollLoop(frames, singles, left, decide).result == v && PollLoop(frames, singles, left, decide).naks == 1
  {
    assert Unsettled(frames, singles, 1, decide) && Rejections(frames, singles, 1, decide) == 1;
    PollFirstSettled(frames, singles, left, decide, 1);
  }

  /** Round `j` of a script whose `j`-th reads are the M1 reply and the
      check byte `c`. */
  lemma M1Round(frames: seq<seq<byte>>, singles: seq<seq<byte>>, j: nat, c: byte)
    requires j < |frames| && j < |singles| && frames[j] == Reply() && singles[j] == [c]
    ensures Round(frames, singles, j, Decide(true))
            == if c == 0x48 then Settled(Ok(Some(Tagged("M1", "-0150.0")))) else Rejected
  {
    SkipIsSuffix(frames, j);
    SkipIsSuffix(singles, j);
    assert Response(Skip(frames, j), Skip(singles, j)) == Reply() + [c];
    M1Verdict(c);
  }

  /** The rounds of the third read test: three rejections, then silence. */
  lemma FailingRounds(frames: seq<seq<byte>>, singles: seq<seq<byte>>)
    requires frames == [Reply(), Reply(), Reply(), []] && singles == [[0x4B], [0x4C], [0x4D], []]
    ensures Unsettled(frames, singles, 4, Decide(true))
    ensures Rejections(frames, singles, 4, Decide(true)) == 3
  {
    FailingVerdicts(frames, singles);
    CountRounds(frames, singles, Decide(true));
  }

  /** The verdicts on those rounds, one by one. */
  lemma FailingVerdicts(frames: seq<seq<byte>>, singles: seq<seq<byte>>)
    requires |frames| == 4 && frames[0] == frames[1] == frames[2] == Reply() && frames[3] == []
    requires |singles| == 4 && singles[0] == [0x4B] && singles[1] == [0x4C] && singles[2] == [0x4D] && singles[3] == []
    ensures Round(frames, singles, 0, Decide(true)) == Rejected && Round(frames, singles, 1, Decide(true)) == Rejected
    ensures Round(frames, singles, 2, Decide(true)) == Rejected && Round(frames, singles, 3, Decide(true)) == Silent
  {
    M1Round(frames, singles, 0, 0x4B);
    M1Round(frames, singles, 1, 0x4C);
    M1Round(frames, singles, 2, 0x4D);
    SilentRound(frames, singles, 3);
  }

  /** Round `j` of a script whose `j`-th reads are both empty: silence. */
  lemma SilentRound(frames: seq<seq<byte>>, singles: seq<seq<byte>>, j: nat)
    requires j < |frames| && j < |singles| && frames[j] == [] && singles[j] == []
    ensures Round(frames, singles, j, Decide(true)) == Silent
  {
    SkipIsSuffix(frames, j);
    SkipIsSuffix(singles, j);
    assert Response(Skip(frames, j), Skip(singles, j)) == [];
  }

  /** Three rejected rounds and a silent one, counted. */
  lemma CountRounds(frames: seq<seq<byte>>, singles: seq<seq<byte>>, decide: Decision)
    requires Round(frames, singles, 0, decide) == Rejected && Round(frames, singles, 1, decide) == Rejected
    requires Round(frames, singles, 2, decide) == Rejected && Round(frames, singles, 3, decide) == Silent
    ensures Unsettled(frames, singles, 4, decide) && Rejections(frames, singles, 4, decide) == 3
  {
    assert Unsettled(frames, singles, 1, decide) && Rejections(frames, singles, 1, decide) == 1;
    assert Unsettled(frames, singles, 2, decide) && Rejections(frames, singles, 2, decide) == 2;
    assert Unsettled(frames, singles, 3, decide) && Rejections(frames, singles, 3, decide) == 3;
  }

  /** Three replies with wrong check bytes and then silence: three NAKs,
      five writes in all, and `None`. */
  lemma ReadValueFails(frames: seq<seq<byte>>, singles: seq<seq<byte>>)
    requires frames == [Reply(), Reply(), Reply(), []] && singles == [[0x4B], [0x4C], [0x4D], []]
    ensures var x := PollExchange("01", 3, "M1", "", true, frames, singles);
            ReadResult(x.result) == Ok(None) && x.writes == [[EOT], M1Query(), [NAK], [NAK], [NAK]]
  {
    M1QueryOf();
    FailingRounds(frames, singles);
    assert Attempts(3) == 4;
    PollGivesUp("01", 3, "M1", "", true, frames, singles);
  }

  /** The select message of `set_value(-150)`. */
  lemma S1MessageOf()
    ensures SelectMessage("01", "S1", FormatTenths(-1500)) == Ok(S1Message())
  {
    FormatNegativeExample();
    SelectMessageExample("01", "S1", "-0150.0", S1Message());
  }

  /** `set_value(-150)` answered with ACK: EOT, the message, EOT. */
  lemma SetValueWithAck()
    ensures SetExchange("01", Number(-1500), [], [[ACK]])
            == Exchange(Ok(()), [[EOT], S1Message(), [EOT]], [], [])
  {
    S1MessageOf();
    SetValueOutcome("01", Number(-1500), [], [[ACK]]);
    SelectRunShape(S1Message(), [[ACK]]);
    assert LeadingNaks([[ACK]]) == 0;
    assert Cycles(S1Message(), 1) == [[EOT], S1Message()];
  }

  /** `set_value(-150)` answered with NAK and then ACK: the exchange is
      repeated, five writes in all. */
  lemma SetValueWithNak()
    ensures var x := SetExchange("01", Number(-1500), [], [[NAK], [ACK]]);
            x.result == Ok(()) && x.writes == [[EOT], S1Message(), [EOT], S1Message(), [EOT]]
  {
    S1MessageOf();
    SetValueOutcome("01", Number(-1500), [], [[NAK], [ACK]]);
    assert LeadingNaks([[NAK], [ACK]]) == 1;
    assert Cycles(S1Message(), 2) == [[EOT], S1Message(), [EOT], S1Message()];
  }

  /** `set_value(-150)` answered with `aaa`: `None` all the same, after EOT
      and the message; and `set_value('a')` raises ValueError. */
  lemma SetValueAbnormal()
    ensures var x := SetExchange("01", Number(-1500), [], [[0x61, 0x61, 0x61]]);
            x.result == Ok(()) && x.writes == [[EOT], S1Message()]
    ensures SetExchange("01", NonNumber, [], []).result == Raised(ValueError)
  {
    S1MessageOf();
    SetValueOutcome("01", Number(-1500), [], [[0x61, 0x61, 0x61]]);
    assert LeadingNaks([[0x61, 0x61, 0x61]]) == 0;
    assert Cycles(S1Message(), 1) == [[EOT], S1Message()];
  }

  /** `select("M1", "1")` answered with `aaa` returns `False`. */
  lemma SelectAbnormal()
    ensures SelectExchange("01", "M1", "1", [], [[0x61, 0x61, 0x61]]).result == Ok(false)
  {
    assert IsAsciiText("01") && IsAsciiText("M1" + "1");
    var message := SelectMessage("01", "M1", "1").value;
    SelectRunShape(message, [[0x61, 0x61, 0x61]]);
    assert LeadingNaks([[0x61, 0x61, 0x61]]) == 0;
  }
}
