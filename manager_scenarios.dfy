/** Runs of the connection manager from a fresh start, over handles with
    given scripts: what `connect` does with the handle the source actually
    builds, and how the cache evolves over `get_status`, `set_temperature`
    and `disconnect`. */
module ManagerScenarios {
  import opened Ascii
  import opened FixedPoint
  import opened RkcCommunication
  import opened RkcManager

  /** The handle `connect` builds is an `RKCCommunication`, which has no
      `open` method: whatever the controller would answer, `connect` fails
      before the test read and returns `False`, and afterwards `get_status`
      gives three `None`s and `set_temperature` gives `False` without a
      single call on the handle. */
  method ConnectAsWritten(values: seq<Fallible<Option<Decimal>>>, polls: seq<Fallible<Option<string>>>,
                          sets: seq<Fallible<()>>, temperature: PyNumber)
    returns (connected: bool, status: Status, accepted: bool, calls: seq<Call>)
    ensures !connected && status == Status(None, None, None) && !accepted && calls == []
  {
    var link := new Link(false, [Ok(())], values, polls, sets, []);
    var manager := new Manager(link);
    connected := manager.Connect();
    status := manager.GetStatus();
    accepted := manager.SetTemperature(temperature);
    calls := link.calls;
  }

  /** With a handle that can be opened, a controller that answers the test
      read connects the manager and its reading becomes the current
      temperature; one that answers `None` still connects it, with nothing
      cached. */
  method ConnectWithOpen(pv: Decimal) returns (connected: bool, current: Option<Decimal>,
                                               silentConnected: bool, silentCurrent: Option<Decimal>)
    ensures connected && current == Some(pv)
    ensures silentConnected && silentCurrent == None
  {
    var link := new Link(true, [Ok(())], [Ok(Some(pv))], [], [], []);
    var manager := new Manager(link);
    connected := manager.Connect();
    current := manager.currentTemperature;
    var silent := new Link(true, [Ok(())], [Ok(None)], [], [], []);
    var other := new Manager(silent);
    silentConnected := other.Connect();
    silentCurrent := other.currentTemperature;
  }

  /** A failing open leaves the manager disconnected, and connecting again
      is a fresh attempt that can succeed. */
  method ReconnectAfterFailure(pv: Decimal) returns (first: bool, second: bool, calls: seq<Call>)
    ensures !first && second
    ensures calls == [OpenCall, OpenCall, ReadValueCall]
  {
    var link := new Link(true, [Raised(SerialException), Ok(())], [Ok(Some(pv))], [], [], []);
    var manager := new Manager(link);
    first := manager.Connect();
    second := manager.Connect();
    calls := link.calls;
  }

  /** A status read that fails at the setpoint: the current temperature is
      fresh, the target and the output keep their cached values, and the
      output is never polled. */
  method StatusFailsAtSetpoint(pv: Decimal, reading: Decimal) returns (status: Status, calls: seq<Call>)
    ensures status == Status(Some(reading), None, None)
    ensures calls == [OpenCall, ReadValueCall, ReadValueCall, PollCall("S1")]
  {
    var link := new Link(true, [Ok(())], [Ok(Some(pv)), Ok(Some(reading))], [Ok(None)], [], []);
    var manager := new Manager(link);
    var connected := manager.Connect();
    status := manager.GetStatus();
    calls := link.calls;
  }

  /** A `None` reading replaces the cached current temperature, and the
      sequence goes on: the setpoint "00100.0" is read as 100.0, and an
      output that is not a number leaves the output unknown. */
  method StatusWithNoneReading(pv: Decimal) returns (status: Status)
    ensures status == Status(None, Some(Decimal(1000, 1)), None)
  {
    var link := new Link(true, [Ok(())], [Ok(Some(pv)), Ok(None)], [Ok(Some("00100.0")), Ok(Some("x"))], [], []);
    var manager := new Manager(link);
    var connected := manager.Connect();
    ReadingsOfStatusTest();
    status := manager.GetStatus();
  }

  /** The setpoint "00100.0" converts to 100.0 and the output "x" does not
      convert. */
  lemma ReadingsOfStatusTest()
    ensures AsFloat(Ok(Some("00100.0"))) == Ok(Decimal(1000, 1))
    ensures AsFloat(Ok(Some("x"))) == Raised(ValueError)
  {
    FormatPositiveExample();
    FormatRoundTrip(1000);
    assert ParseDecimal("x") == None;
  }

  /** Setting the temperature: a number is stored as the target, a
      non-number is refused and leaves it; after `disconnect`, setting is
      refused without a call, the status is three `None`s, and the cache
      still holds the last values. */
  method SetThenDisconnect(pv: Decimal) returns (accepted: bool, refused: bool, afterwards: bool,
                                                 status: Status, cached: Status, calls: seq<Call>)
    ensures accepted && !refused && !afterwards
    ensures status == Status(None, None, None)
    ensures cached == Status(Some(pv), Some(Decimal(-1500, 1)), None)
    ensures calls == [OpenCall, ReadValueCall, SetValueCall(Number(-1500)), SetValueCall(NonNumber), CloseCall]
  {
    var link := new Link(true, [Ok(())], [Ok(Some(pv))], [], [Ok(())], [Raised(SerialException)]);
    var manager := new Manager(link);
    var connected := manager.Connect();
    accepted := manager.SetTemperature(Number(-1500));
    refused := manager.SetTemperature(NonNumber);
    manager.Disconnect();
    afterwards := manager.SetTemperature(Number(1000));
    status := manager.GetStatus();
    cached := manager.Cached();
    calls := link.calls;
  }
}
