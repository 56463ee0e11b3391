/** The RKC protocol engine: the polling procedure that reads a value from
    the controller and the selecting procedure that sends one, run over the
    scripted serial port of `Transport`. */
module RkcCommunication {
  import opened Ascii
  import opened Transport
  import opened Frames
  import opened FixedPoint

  /** How many responses `poll` reads at most: one per value of `retries`
      from 0 to `max_retries`. */
  function Attempts(maxRetries: int): nat {
    if maxRetries < 0 then 0 else maxRetries + 1
  }

  /** `n` NAK writes. */
  function Naks(n: nat): (r: seq<seq<byte>>)
    ensures |r| == n && forall i :: 0 <= i < n ==> r[i] == [NAK]
  {
    seq(n, _ => [NAK])
  }

  /** One more NAK on a log that ends in `n` of them. */
  lemma NakAppend(log: seq<seq<byte>>, n: nat)
    ensures log + Naks(n) + [[NAK]] == log + Naks(n + 1)
  {
    assert Naks(n) + [[NAK]] == Naks(n + 1);
  }

  /** What one round of `poll` reads: the bytes up to ETX, then one more. */
  function Response(frames: seq<seq<byte>>, singles: seq<seq<byte>>): seq<byte> {
    NextRead(frames) + NextRead(singles)
  }

  /** The outcome of the read loop of `poll`: its result, how many NAKs it
      sent, and the reads left over. */
  datatype PollTrace = PollTrace(result: Fallible<Option<Reply>>, naks: nat,
                                 frames: seq<seq<byte>>, singles: seq<seq<byte>>)

  /** How one round of `poll` ends: nothing was read, the response failed
      the check (and is answered with a NAK), or the loop stops with a result. */
  datatype Verdict = Silent | Rejected | Settled(result: Fallible<Option<Reply>>)

  /** The decision `poll` takes on one response. */
  function Judge(response: seq<byte>, withIdentifier: bool): (v: Verdict)
    ensures v == Silent <==> response == []
    ensures v == Rejected <==> response != [] && ValidateResponse(response) == Ok(false)
    ensures v.Settled? && v.result.Ok? ==> ValidateResponse(response) == Ok(true)
  {
    if response == [] then Silent
    else
      match ValidateResponse(response)
      case Raised(e) => Settled(Raised(e))
      case Ok(valid) =>
        if valid then Settled(ParseResponse(response, withIdentifier)) else Rejected
  }

  /** A way of deciding on the response of one round. The read loop and
      its lemmas are stated for any decision; `poll` uses `Decide`. */
  type Decision = seq<byte> -> Verdict

  /** The decision `poll` takes, for a given `return_with_identifier`. */
  function Decide(withIdentifier: bool): Decision {
    response => Judge(response, withIdentifier)
  }

  /** The read loop of `poll` with `left` attempts to go: an empty response
      costs an attempt and nothing else; a response that fails the check
      costs an attempt and a NAK; the first one that passes is parsed and
      returned; with no attempt left the result is `None`. */
  function PollLoop(frames: seq<seq<byte>>, singles: seq<seq<byte>>, left: nat, decide: Decision): PollTrace
    decreases left, 1
  {
    if left == 0 then PollTrace(Ok(None), 0, frames, singles)
    else PollAttempt(frames, singles, left, decide)
  }

  /** One round of the read loop and whatever follows it. */
  function PollAttempt(frames: seq<seq<byte>>, singles: seq<seq<byte>>, left: nat, decide: Decision): PollTrace
    requires left > 0
    decreases left, 0
  {
    var frames', singles' := AfterRead(frames), AfterRead(singles);
    match decide(Response(frames, singles))
    case Silent => PollLoop(frames', singles', left - 1, decide)
    case Rejected => Shift(PollLoop(frames', singles', left - 1, decide), 1)
    case Settled(result) => PollTrace(result, 0, frames', singles')
  }

  /** One round of the read loop, verdict by verdict. */
  lemma PollRound(frames: seq<seq<byte>>, singles: seq<seq<byte>>, left: nat, decide: Decision)
    requires left > 0
    ensures var v := decide(Response(frames, singles));
            var t := PollLoop(frames, singles, left, decide);
            var next := PollLoop(AfterRead(frames), AfterRead(singles), left - 1, decide);
            (v == Silent ==> t == next) &&
            (v == Rejected ==> t == Shift(next, 1)) &&
            (v.Settled? ==> t == PollTrace(v.result, 0, AfterRead(frames), AfterRead(singles)))
  {
  }

  /** The read loop after one more round, with `naks` NAKs sent before it. */
  lemma LoopStep(frames: seq<seq<byte>>, singles: seq<seq<byte>>, left: nat, decide: Decision, naks: nat, total: PollTrace)
    requires left > 0 && total == Shift(PollLoop(frames, singles, left, decide), naks)
    ensures var v := decide(Response(frames, singles));
            (v.Settled? ==> total == PollTrace(v.result, naks, AfterRead(frames), AfterRead(singles))) &&
            (!v.Settled? ==> total == Shift(PollLoop(AfterRead(frames), AfterRead(singles), left - 1, decide),
                                            if v == Rejected then naks + 1 else naks))
  {
    PollRound(frames, singles, left, decide);
    ShiftAdd(PollLoop(AfterRead(frames), AfterRead(singles), left - 1, decide), 1, naks);
  }

  /** Two writes followed by more, as one log. */
  lemma WriteLog(log: seq<seq<byte>>, a: seq<byte>, b: seq<byte>, rest: seq<seq<byte>>)
    ensures log + [a] + [b] + rest == log + ([a, b] + rest)
  {
  }

  /** A trace with `n` more NAKs to its name. */
  function Shift(t: PollTrace, n: nat): PollTrace {
    t.(naks := t.naks + n)
  }

  lemma ShiftZero(t: PollTrace)
    ensures Shift(t, 0) == t
  {
  }

  lemma ShiftAdd(t: PollTrace, m: nat, n: nat)
    ensures Shift(Shift(t, m), n) == Shift(t, m + n)
  {
  }

  /** The effect of one call on the port: its result, what it wrote, and
      the reads left over. */
  datatype Exchange<T> = Exchange(result: Fallible<T>, writes: seq<seq<byte>>,
                                  frames: seq<seq<byte>>, singles: seq<seq<byte>>)

  /** `poll`: EOT, the query once, then the read loop. A query that is not
      ASCII raises after the EOT. */
  function PollExchange(address: string, maxRetries: int, identifier: string, memoryArea: string,
                        withIdentifier: bool, frames: seq<seq<byte>>, singles: seq<seq<byte>>): Exchange<Option<Reply>>
  {
    match PollQuery(address, memoryArea, identifier)
    case Raised(e) => Exchange(Raised(e), [[EOT]], frames, singles)
    case Ok(query) =>
      var t := PollLoop(frames, singles, Attempts(maxRetries), Decide(withIdentifier));
      Exchange(t.result, [[EOT], query] + Naks(t.naks), t.frames, t.singles)
  }

  /** The verdict on round `j` (counted from 0) of the read loop, from the
      scripted reads alone. */
  function Round(frames: seq<seq<byte>>, singles: seq<seq<byte>>, j: nat, decide: Decision): Verdict {
    decide(Response(Skip(frames, j), Skip(singles, j)))
  }

  /** None of the first `k` rounds ends the loop. */
  predicate Unsettled(frames: seq<seq<byte>>, singles: seq<seq<byte>>, k: nat, decide: Decision) {
    k == 0 || (Unsettled(frames, singles, k - 1, decide) && !Round(frames, singles, k - 1, decide).Settled?)
  }

  /** How many of the first `k` rounds are rejected. */
  function Rejections(frames: seq<seq<byte>>, singles: seq<seq<byte>>, k: nat, decide: Decision): nat {
    if k == 0 then 0
    else Rejections(frames, singles, k - 1, decide) + (if Round(frames, singles, k - 1, decide) == Rejected then 1 else 0)
  }

  /** There are never more rejections than rounds. */
  lemma {:induction false} RejectionsBound(frames: seq<seq<byte>>, singles: seq<seq<byte>>, k: nat, decide: Decision)
    ensures Rejections(frames, singles, k, decide) <= k
  {
    if k > 0 {
      RejectionsBound(frames, singles, k - 1, decide);
    }
  }

  /** After `j` rounds that do not settle, the read loop goes on from the
      reads left over, with one NAK per rejected round behind it. */
  lemma {:induction false} PollPrefix(frames: seq<seq<byte>>, singles: seq<seq<byte>>, left: nat, decide: Decision, j: nat)
    requires j <= left && Unsettled(frames, singles, j, decide)
    ensures PollLoop(frames, singles, left, decide)
            == Shift(PollLoop(Skip(frames, j), Skip(singles, j), left - j, decide), Rejections(frames, singles, j, decide))
  {
    if j == 0 {
      ShiftZero(PollLoop(frames, singles, left, decide));
    } else {
      PollPrefix(frames, singles, left, decide, j - 1);
      PrefixStep(frames, singles, left - j + 1, decide, j - 1);
    }
  }

  /** Round `j` of the read loop when it does not settle. */
  lemma PrefixStep(frames: seq<seq<byte>>, singles: seq<seq<byte>>, left: nat, decide: Decision, j: nat)
    requires left > 0 && !Round(frames, singles, j, decide).Settled?
    ensures Shift(PollLoop(Skip(frames, j), Skip(singles, j), left, decide), Rejections(frames, singles, j, decide))
            == Shift(PollLoop(Skip(frames, j + 1), Skip(singles, j + 1), left - 1, decide), Rejections(frames, singles, j + 1, decide))
  {
    var f, s := Skip(frames, j), Skip(singles, j);
    LoopStep(f, s, left, decide, Rejections(frames, singles, j, decide),
             Shift(PollLoop(f, s, left, decide), Rejections(frames, singles, j, decide)));
    SkipNext(frames, j);
    SkipNext(singles, j);
  }

  /** A decision that never settles on `None`. */
  ghost predicate NeverNone(decide: Decision) {
    forall response :: decide(response).Settled? ==> decide(response).result != Ok(None)
  }

  /** `poll`'s decision settles on `None` for no response: a response that
      passes the check always has its STX and ETX. */
  lemma DecideNeverNone(withIdentifier: bool)
    ensures NeverNone(Decide(withIdentifier))
  {
    forall response | Judge(response, withIdentifier).Settled?
      ensures Judge(response, withIdentifier).result != Ok(None)
    {
      if ValidateResponse(response) == Ok(true) {
        ValidThenParses(response, withIdentifier);
      }
    }
  }

  /** When no round settles, the read loop uses up all its rounds, sends one
      NAK per rejected round and gives `None`. */
  lemma PollExhausts(frames: seq<seq<byte>>, singles: seq<seq<byte>>, left: nat, decide: Decision)
    requires Unsettled(frames, singles, left, decide)
    ensures PollLoop(frames, singles, left, decide)
            == PollTrace(Ok(None), Rejections(frames, singles, left, decide), Skip(frames, left), Skip(singles, left))
  {
    PollPrefix(frames, singles, left, decide, left);
  }

  /** When round `k` is the first to settle, the read loop returns that
      round's result, after one NAK per rejected round before it, having
      made `k + 1` reads of each kind. */
  lemma PollFirstSettled(frames: seq<seq<byte>>, singles: seq<seq<byte>>, left: nat, decide: Decision, k: nat)
    requires k < left && Unsettled(frames, singles, k, decide) && Round(frames, singles, k, decide).Settled?
    ensures PollLoop(frames, singles, left, decide)
            == PollTrace(Round(frames, singles, k, decide).result, Rejections(frames, singles, k, decide),
                         Skip(frames, k + 1), Skip(singles, k + 1))
  {
    PollPrefix(frames, singles, left, decide, k);
    PollRound(Skip(frames, k), Skip(singles, k), left - k, decide);
    SkipNext(frames, k);
    SkipNext(singles, k);
  }

  /** For a decision that never settles on `None`, the read loop gives
      `None` only when none of its rounds settles. */
  lemma {:induction false} PollNoneUnsettled(frames: seq<seq<byte>>, singles: seq<seq<byte>>, left: nat, decide: Decision, j: nat)
    requires NeverNone(decide) && PollLoop(frames, singles, left, decide).result == Ok(None)
    requires j <= left && Unsettled(frames, singles, j, decide)
    ensures Unsettled(frames, singles, left, decide)
    decreases left - j
  {
    if j < left {
      if Round(frames, singles, j, decide).Settled? {
        PollFirstSettled(frames, singles, left, decide, j);
        assert false;
      }
      PollNoneUnsettled(frames, singles, left, decide, j + 1);
    }
  }

  /** `poll` that gets no acceptable response writes EOT, the query once
      and then only NAKs, one per rejected response, and returns `None`. */
  lemma PollGivesUp(address: string, maxRetries: int, identifier: string, memoryArea: string,
                    withIdentifier: bool, frames: seq<seq<byte>>, singles: seq<seq<byte>>)
    requires PollQuery(address, memoryArea, identifier).Ok?
    requires Unsettled(frames, singles, Attempts(maxRetries), Decide(withIdentifier))
    ensures var x := PollExchange(address, maxRetries, identifier, memoryArea, withIdentifier, frames, singles);
            var n := Rejections(frames, singles, Attempts(maxRetries), Decide(withIdentifier));
            x.result == Ok(None) && |x.writes| == 2 + n && n <= Attempts(maxRetries) &&
            x.writes[0] == [EOT] && x.writes[1] == PollQuery(address, memoryArea, identifier).value &&
            (forall i :: 2 <= i < |x.writes| ==> x.writes[i] == [NAK])
  {
    var q := PollQuery(address, memoryArea, identifier).value;
    var t := PollLoop(frames, singles, Attempts(maxRetries), Decide(withIdentifier));
    assert PollExchange(address, maxRetries, identifier, memoryArea, withIdentifier, frames, singles)
           == Exchange(t.result, [[EOT], q] + Naks(t.naks), t.frames, t.singles);
    PollExhausts(frames, singles, Attempts(maxRetries), Decide(withIdentifier));
    RejectionsBound(frames, singles, Attempts(maxRetries), Decide(withIdentifier));
    PollLog(q, t.naks);
  }

  /** `Unsettled` is the statement that none of the first `k` rounds settles. */
  lemma {:induction false} UnsettledAll(frames: seq<seq<byte>>, singles: seq<seq<byte>>, k: nat, decide: Decision)
    ensures Unsettled(frames, singles, k, decide) <==> forall j :: 0 <= j < k ==> !Round(frames, singles, j, decide).Settled?
  {
    if k > 0 {
      UnsettledAll(frames, singles, k - 1, decide);
    }
  }

  /** `poll` returns `None` exactly when none of its rounds settles. */
  lemma PollNoneIff(address: string, maxRetries: int, identifier: string, memoryArea: string,
                    withIdentifier: bool, frames: seq<seq<byte>>, singles: seq<seq<byte>>)
    requires PollQuery(address, memoryArea, identifier).Ok?
    ensures PollExchange(address, maxRetries, identifier, memoryArea, withIdentifier, frames, singles).result == Ok(None)
            <==> Unsettled(frames, singles, Attempts(maxRetries), Decide(withIdentifier))
  {
    var left, decide := Attempts(maxRetries), Decide(withIdentifier);
    if PollLoop(frames, singles, left, decide).result == Ok(None) {
      DecideNeverNone(withIdentifier);
      PollNoneUnsettled(frames, singles, left, decide, 0);
    }
    if Unsettled(frames, singles, left, decide) {
      PollExhausts(frames, singles, left, decide);
    }
  }

  /** When round `k` is the first that settles, `poll` returns that round's
      outcome: the parse of the response, which has a value, if it passes
      the check. Only the NAKs of the rounds before it follow the query. */
  lemma PollReturnsFirstValid(address: string, maxRetries: int, identifier: string, memoryArea: string,
                              withIdentifier: bool, frames: seq<seq<byte>>, singles: seq<seq<byte>>, k: nat)
    requires PollQuery(address, memoryArea, identifier).Ok?
    requires k < Attempts(maxRetries) && Unsettled(frames, singles, k, Decide(withIdentifier))
    requires Round(frames, singles, k, Decide(withIdentifier)).Settled?
    ensures var x := PollExchange(address, maxRetries, identifier, memoryArea, withIdentifier, frames, singles);
            var response := Response(Skip(frames, k), Skip(singles, k));
            var n := Rejections(frames, singles, k, Decide(withIdentifier));
            (ValidateResponse(response) == Ok(true) ==>
               x.result == ParseResponse(response, withIdentifier) && x.result.Ok? && x.result.value.Some?) &&
            (ValidateResponse(response) != Ok(true) ==> x.result == Raised(UnicodeDecodeError)) &&
            |x.writes| == 2 + n && n <= k &&
            x.writes[0] == [EOT] && x.writes[1] == PollQuery(address, memoryArea, identifier).value &&
            (forall i :: 2 <= i < |x.writes| ==> x.writes[i] == [NAK]) &&
            x.frames == Skip(frames, k + 1) && x.singles == Skip(singles, k + 1)
  {
    var decide := Decide(withIdentifier);
    var response := Response(Skip(frames, k), Skip(singles, k));
    var q := PollQuery(address, memoryArea, identifier).value;
    var t := PollLoop(frames, singles, Attempts(maxRetries), decide);
    assert PollExchange(address, maxRetries, identifier, memoryArea, withIdentifier, frames, singles)
           == Exchange(t.result, [[EOT], q] + Naks(t.naks), t.frames, t.singles);
    PollFirstSettled(frames, singles, Attempts(maxRetries), decide, k);
    RejectionsBound(frames, singles, k, decide);
    PollLog(q, t.naks);
    assert Round(frames, singles, k, decide) == Judge(response, withIdentifier);
    JudgeSettled(response, withIdentifier);
  }

  /** The log `poll` leaves: EOT, the query, then `n` NAKs. */
  lemma PollLog(query: seq<byte>, n: nat)
    ensures var w := [[EOT], query] + Naks(n);
            |w| == 2 + n && w[0] == [EOT] && w[1] == query && forall i :: 2 <= i < |w| ==> w[i] == [NAK]
  {
  }

  /** A response `poll` stops at either passes the check and parses to a
      value, or could not be decoded. */
  lemma JudgeSettled(response: seq<byte>, withIdentifier: bool)
    requires Judge(response, withIdentifier).Settled?
    ensures var r := Judge(response, withIdentifier).result;
            (ValidateResponse(response) == Ok(true) ==> r == ParseResponse(response, withIdentifier) && r.Ok? && r.value.Some?) &&
            (ValidateResponse(response) != Ok(true) ==> r == Raised(UnicodeDecodeError))
  {
    if ValidateResponse(response) == Ok(true) {
      ValidThenParses(response, withIdentifier);
    }
  }

  /** The outcome of the selecting procedure for an encoded message. */
  datatype SelectTrace = SelectTrace(result: Fallible<bool>, writes: seq<seq<byte>>, singles: seq<seq<byte>>)

  /** The selecting procedure: EOT and the message, then one byte is read;
      ACK is answered with EOT and `True`, NAK starts the procedure again,
      anything else (including a timeout) gives `False`. */
  function SelectRun(message: seq<byte>, singles: seq<seq<byte>>): SelectTrace
    decreases |singles|
  {
    var reply := NextRead(singles);
    var rest := AfterRead(singles);
    if reply == [ACK] then SelectTrace(Ok(true), [[EOT], message, [EOT]], rest)
    else if reply == [NAK] then
      var t := SelectRun(message, rest);
      SelectTrace(t.result, [[EOT], message] + t.writes, t.singles)
    else SelectTrace(Ok(false), [[EOT], message], rest)
  }

  /** How many NAK replies the script starts with. */
  function LeadingNaks(singles: seq<seq<byte>>): (k: nat)
    ensures k <= |singles|
    ensures forall i :: 0 <= i < k ==> singles[i] == [NAK]
    ensures k < |singles| ==> singles[k] != [NAK]
  {
    if singles != [] && singles[0] == [NAK] then 1 + LeadingNaks(singles[1..]) else 0
  }

  /** `n` rounds of EOT followed by the message. */
  function Cycles(message: seq<byte>, n: nat): (r: seq<seq<byte>>)
    ensures |r| == 2 * n
    ensures forall i :: 0 <= i < 2 * n ==> r[i] == if i % 2 == 0 then [EOT] else message
  {
    if n == 0 then [] else [[EOT], message] + Cycles(message, n - 1)
  }

  /** The selecting procedure sends EOT and the message once more for every
      leading NAK; after them, ACK gives `True` and a final EOT, anything
      else (or no reply) gives `False` and nothing more. */
  lemma {:induction false} SelectRunShape(message: seq<byte>, singles: seq<seq<byte>>)
    ensures var k := LeadingNaks(singles);
            var acked := k < |singles| && singles[k] == [ACK];
            var t := SelectRun(message, singles);
            t.result == Ok(acked) &&
            t.writes == Cycles(message, k + 1) + (if acked then [[EOT]] else []) &&
            t.singles == Skip(singles, k + 1)
    decreases |singles|
  {
    var rest := AfterRead(singles);
    if singles != [] && singles[0] == [NAK] {
      var k := LeadingNaks(rest);
      var acked := k < |rest| && rest[k] == [ACK];
      var t := SelectRun(message, rest);
      SelectRunShape(message, rest);
      assert LeadingNaks(singles) == k + 1 && (acked <==> k + 1 < |singles| && singles[k + 1] == [ACK]) by {
        assert rest == singles[1..];
      }
      assert SelectRun(message, singles) == SelectTrace(t.result, [[EOT], message] + t.writes, t.singles);
      CyclesStep(message, k + 1, if acked then [[EOT]] else []);
      assert Skip(singles, k + 2) == Skip(rest, k + 1);
    } else {
      assert Cycles(message, 1) == [[EOT], message];
      assert Skip(singles, 1) == rest;
    }
  }

  /** One more round in front of `n` of them. */
  lemma CyclesStep(message: seq<byte>, n: nat, tail: seq<seq<byte>>)
    ensures [[EOT], message] + (Cycles(message, n) + tail) == Cycles(message, n + 1) + tail
  {
  }

  /** `select`: a message that cannot be encoded raises after the EOT. */
  function SelectExchange(address: string, identifier: string, data: string,
                          frames: seq<seq<byte>>, singles: seq<seq<byte>>): Exchange<bool>
  {
    match SelectMessage(address, identifier, data)
    case Raised(e) => Exchange(Raised(e), [[EOT]], frames, singles)
    case Ok(message) =>
      var t := SelectRun(message, singles);
      Exchange(t.result, t.writes, frames, t.singles)
  }

  /** `read_value` after its poll: no reply gives `None`; a reply's value
      goes through `float`, which raises ValueError on text that is not a
      number. */
  function ReadResult(polled: Fallible<Option<Reply>>): Fallible<Option<Decimal>> {
    match polled
    case Raised(e) => Raised(e)
    case Ok(None) => Ok(None)
    case Ok(Some(reply)) =>
      match ParseDecimal(reply.value)
      case None => Raised(ValueError)
      case Some(d) => Ok(Some(d))
  }

  /** The argument of `set_value`: an `int` or `float` (in tenths), or
      anything else. */
  datatype PyNumber = Number(tenths: int) | NonNumber

  /** `set_value`: a number is formatted and selected under "S1", and the
      call returns `None` whatever the select answers; anything else raises
      ValueError before any write. */
  function SetExchange(address: string, value: PyNumber,
                       frames: seq<seq<byte>>, singles: seq<seq<byte>>): Exchange<()>
  {
    match value
    case NonNumber => Exchange(Raised(ValueError), [], frames, singles)
    case Number(t) =>
      var x := SelectExchange(address, "S1", FormatTenths(t), frames, singles);
      Exchange(if x.result.Raised? then Raised(x.result.error) else Ok(()), x.writes, x.frames, x.singles)
  }

  /** `set_value` raises ValueError on a non-number before any write; a
      number is always formatted as ASCII, so it raises only when the
      address is not ASCII, and otherwise returns `None` after the select
      exchange, whatever the controller replied. */
  lemma SetValueOutcome(address: string, value: PyNumber, frames: seq<seq<byte>>, singles: seq<seq<byte>>)
    ensures var x := SetExchange(address, value, frames, singles);
            (value.NonNumber? ==> x.result == Raised(ValueError) && x.writes == [] && x.singles == singles) &&
            (value.Number? && !IsAsciiText(address) ==> x.result == Raised(UnicodeEncodeError) && x.writes == [[EOT]]) &&
            (value.Number? && IsAsciiText(address) ==>
               var message := SelectMessage(address, "S1", FormatTenths(value.tenths)).value;
               var k := LeadingNaks(singles);
               x.result == Ok(()) &&
               x.writes == Cycles(message, k + 1) + (if k < |singles| && singles[k] == [ACK] then [[EOT]] else []))
  {
    if value.Number? {
      var data := FormatTenths(value.tenths);
      FormatIsAscii(value.tenths);
      assert IsAsciiText("S1");
      AsciiPieces("S1", data);
      if IsAsciiText(address) {
        SelectRunShape(SelectMessage(address, "S1", data).value, singles);
      }
    }
  }

  class Comm {
    /** The controller's address, sent in front of every query and message. */
    const address: string
    const maxRetries: int
    /** The open port, once the context has been entered. */
    var ser: Serial?

    /** `RKCCommunication(port, address, ..., max_retries)`: no port is open
        yet. */
    constructor (address: string, maxRetries: int)
      ensures this.address == address && this.maxRetries == maxRetries && ser == null
    {
      this.address, this.maxRetries := address, maxRetries;
      ser := null;
    }

    /** `__enter__`: the port it opens is given. */
    method Enter(port: Serial)
      modifies this
      ensures ser == port
    {
      ser := port;
    }

    /** `__exit__`: closes the port if there is one and it is open. */
    method Exit()
      modifies ser
      ensures ser != null ==> ser.frames == old(ser.frames) && ser.singles == old(ser.singles) && ser.written == old(ser.written)
      ensures ser != null && old(ser.isOpen) ==> !ser.isOpen && ser.closeCount == old(ser.closeCount) + 1
      ensures ser != null && !old(ser.isOpen) ==> !ser.isOpen && ser.closeCount == old(ser.closeCount)
    {
      if ser != null && ser.isOpen {
        ser.Close();
      }
    }

    method Close()
      requires ser != null
      modifies ser
      ensures !ser.isOpen && ser.closeCount == old(ser.closeCount) + 1
      ensures ser.frames == old(ser.frames) && ser.singles == old(ser.singles) && ser.written == old(ser.written)
    {
      ser.Close();
    }

    method SendEot()
      requires ser != null
      modifies ser
      ensures ser.written == old(ser.written) + [[EOT]]
      ensures ser.frames == old(ser.frames) && ser.singles == old(ser.singles)
      ensures ser.isOpen == old(ser.isOpen) && ser.closeCount == old(ser.closeCount)
    {
      ser.Write([EOT]);
    }

    method SendEnq()
      requires ser != null
      modifies ser
      ensures ser.written == old(ser.written) + [[ENQ]]
      ensures ser.frames == old(ser.frames) && ser.singles == old(ser.singles)
      ensures ser.isOpen == old(ser.isOpen) && ser.closeCount == old(ser.closeCount)
    {
      ser.Write([ENQ]);
    }

    method SendAck()
      requires ser != null
      modifies ser
      ensures ser.written == old(ser.written) + [[ACK]]
      ensures ser.frames == old(ser.frames) && ser.singles == old(ser.singles)
      ensures ser.isOpen == old(ser.isOpen) && ser.closeCount == old(ser.closeCount)
    {
      ser.Write([ACK]);
    }

    method SendNak()
      requires ser != null
      modifies ser
      ensures ser.written == old(ser.written) + [[NAK]]
      ensures ser.frames == old(ser.frames) && ser.singles == old(ser.singles)
      ensures ser.isOpen == old(ser.isOpen) && ser.closeCount == old(ser.closeCount)
    {
      ser.Write([NAK]);
    }

    /** One round of the `poll` loop: read up to ETX and one more byte; an
        empty response ends the round; otherwise the response is checked, a
        valid one is parsed and a rejected one answered with a NAK. */
    method Attempt(withIdentifier: bool, ghost left: nat, ghost sent: seq<seq<byte>>, ghost naks: nat, ghost total: PollTrace)
      returns (v: Verdict)
      requires ser != null && left > 0
      requires ser.written == sent + Naks(naks)
      requires total == Shift(PollLoop(ser.frames, ser.singles, left, Decide(withIdentifier)), naks)
      modifies ser
      ensures v.Settled? ==> total == PollTrace(v.result, naks, ser.frames, ser.singles)
      ensures !v.Settled? ==> total == Shift(PollLoop(ser.frames, ser.singles, left - 1, Decide(withIdentifier)),
                                             if v == Rejected then naks + 1 else naks)
      ensures ser.frames == AfterRead(old(ser.frames)) && ser.singles == AfterRead(old(ser.singles))
      ensures ser.written == sent + Naks(if v == Rejected then naks + 1 else naks)
      ensures ser.isOpen == old(ser.isOpen) && ser.closeCount == old(ser.closeCount)
    {
      LoopStep(ser.frames, ser.singles, left, Decide(withIdentifier), naks, total);
      var head := ser.ReadUntil();
      var tail := ser.ReadByte();
      var response := head + tail;
      if response == [] {
        return Silent;
      }
      var valid := ValidateResponse(response);
      if valid.Raised? {
        return Settled(Raised(valid.error));
      }
      if valid.value {
        return Settled(ParseResponse(response, withIdentifier));
      }
      SendNak();
      NakAppend(sent, naks);
      return Rejected;
    }

    /** `poll`: the write log grows by exactly what `PollExchange` says, and
        the reads it consumes are those of `PollLoop`. */
    method Poll(identifier: string, memoryArea: string, withIdentifier: bool) returns (r: Fallible<Option<Reply>>)
      requires ser != null
      modifies ser
      ensures var x := PollExchange(address, maxRetries, identifier, memoryArea, withIdentifier, old(ser.frames), old(ser.singles));
              r == x.result && ser.written == old(ser.written) + x.writes && ser.frames == x.frames && ser.singles == x.singles
      ensures ser.isOpen == old(ser.isOpen) && ser.closeCount == old(ser.closeCount)
    {
      SendEot();
      var query := PollQuery(address, memoryArea, identifier);
      if query.Raised? {
        return Raised(query.error);
      }
      ser.Write(query.value);
      ghost var sent := ser.written;
      r := ReadResponses(withIdentifier);
      ghost var t := PollLoop(old(ser.frames), old(ser.singles), Attempts(maxRetries), Decide(withIdentifier));
      assert sent + Naks(t.naks) == old(ser.written) + ([[EOT], query.value] + Naks(t.naks));
    }

    /** The read loop of `poll`: at most `max_retries + 1` responses are read;
        the first valid one is parsed and returned, each rejected one is
        answered with a NAK, and `None` is returned when the attempts run out. */
    method ReadResponses(withIdentifier: bool) returns (r: Fallible<Option<Reply>>)
      requires ser != null
      modifies ser
      ensures var t := PollLoop(old(ser.frames), old(ser.singles), Attempts(maxRetries), Decide(withIdentifier));
              r == t.result && ser.written == old(ser.written) + Naks(t.naks) && ser.frames == t.frames && ser.singles == t.singles
      ensures ser.isOpen == old(ser.isOpen) && ser.closeCount == old(ser.closeCount)
    {
      ghost var total := PollLoop(ser.frames, ser.singles, Attempts(maxRetries), Decide(withIdentifier));
      ghost var sent := ser.written;
      ghost var naks: nat := 0;
      ghost var left: nat := Attempts(maxRetries);
      var retries := 0;
      while retries <= maxRetries
        invariant 0 <= retries <= Attempts(maxRetries) && left == Attempts(maxRetries) - retries
        invariant ser.written == sent + Naks(naks)
        invariant total == Shift(PollLoop(ser.frames, ser.singles, left, Decide(withIdentifier)), naks)
        invariant ser.isOpen == old(ser.isOpen) && ser.closeCount == old(ser.closeCount)
        decreases left
      {
        var verdict := Attempt(withIdentifier, left, sent, naks, total);
        if verdict.Settled? {
          return verdict.result;
        }
        if verdict == Rejected {
          naks := naks + 1;
        }
        left := left - 1;
        retries := retries + 1;
      }
      return Ok(None);
    }

    /** `select`: re-entered on every NAK; each call consumes one single
        read, so the recursion ends when the scripted replies do. */
    method Select(identifier: string, data: string) returns (r: Fallible<bool>)
      requires ser != null
      modifies ser
      decreases |ser.singles|
      ensures var x := SelectExchange(address, identifier, data, old(ser.frames), old(ser.singles));
              r == x.result && ser.written == old(ser.written) + x.writes && ser.frames == x.frames && ser.singles == x.singles
      ensures ser.isOpen == old(ser.isOpen) && ser.closeCount == old(ser.closeCount)
    {
      SendEot();
      var message := SelectMessage(address, identifier, data);
      if message.Raised? {
        return Raised(message.error);
      }
      ser.Write(message.value);
      var reply := ser.ReadByte();
      if reply == [ACK] {
        SendEot();
        return Ok(true);
      }
      if reply == [NAK] {
        r := Select(identifier, data);
        WriteLog(old(ser.written), [EOT], message.value, SelectRun(message.value, AfterRead(old(ser.singles))).writes);
        return;
      }
      return Ok(false);
    }

    /** `read_value`: poll "M1" with the identifier, then `float` of the
        value. */
    method ReadValue() returns (r: Fallible<Option<Decimal>>)
      requires ser != null
      modifies ser
      ensures var x := PollExchange(address, maxRetries, "M1", "", true, old(ser.frames), old(ser.singles));
              r == ReadResult(x.result) && ser.written == old(ser.written) + x.writes && ser.frames == x.frames && ser.singles == x.singles
      ensures ser.isOpen == old(ser.isOpen) && ser.closeCount == old(ser.closeCount)
    {
      var result := Poll("M1", "", true);
      match result {
        case Raised(e) =>
          return Raised(e);
        case Ok(None) =>
          return Ok(None);
        case Ok(Some(reply)) =>
          var value := ParseDecimal(reply.value);
          if value.None? {
            return Raised(ValueError);
          }
          return Ok(Some(value.value));
      }
    }

    /** `set_value`. */
    method SetValue(value: PyNumber) returns (r: Fallible<()>)
      requires ser != null
      modifies ser
      ensures var x := SetExchange(address, value, old(ser.frames), old(ser.singles));
              r == x.result && ser.written == old(ser.written) + x.writes && ser.frames == x.frames && ser.singles == x.singles
      ensures ser.isOpen == old(ser.isOpen) && ser.closeCount == old(ser.closeCount)
    {
      match value {
        case NonNumber =>
          return Raised(ValueError);
        case Number(t) =>
          var formatted := FormatTenths(t);
          var success := Select("S1", formatted);
          if success.Raised? {
            return Raised(success.error);
          }
          return Ok(());
      }
    }
  }
}
