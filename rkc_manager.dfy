/** The connection manager: it owns the one controller handle, knows whether
    it is connected, and caches the last current temperature, target
    temperature and output value it saw. The handle is abstract here: each of
    its operations returns the next outcome of its own script (a value,
    `None`, or an exception), and every call is logged. */
module RkcManager {
  import opened Ascii
  import opened FixedPoint
  import opened RkcCommunication

  /** A call the manager makes on its controller handle. */
  datatype Call = OpenCall | ReadValueCall | PollCall(identifier: string) | SetValueCall(value: PyNumber) | CloseCall

  /** The outcome of the next call on a script; a used-up script stands for
      a port that fails. */
  function Next<T>(script: seq<Fallible<T>>): (r: Fallible<T>)
    ensures script != [] ==> r == script[0]
    ensures script == [] ==> r == Raised(SerialException)
  {
    if script == [] then Raised(SerialException) else script[0]
  }

  /** The script left after one call. */
  function Rest<T>(script: seq<Fallible<T>>): (r: seq<Fallible<T>>)
    ensures script != [] ==> script == [script[0]] + r
    ensures script == [] ==> r == []
  {
    if script == [] then [] else script[1..]
  }

  /** `self.comm.open()`: a handle without an `open` method raises
      AttributeError at the attribute lookup, before any call. */
  function OpenResult(hasOpen: bool, opens: seq<Fallible<()>>): Fallible<()> {
    if hasOpen then Next(opens) else Raised(AttributeError)
  }

  /** `set_value(value)`: a non-number raises ValueError before the port
      is touched; a number gets the outcome of the select exchange. */
  function SetResult(value: PyNumber, sets: seq<Fallible<()>>): Fallible<()> {
    if value.NonNumber? then Raised(ValueError) else Next(sets)
  }

  /** `float(x)` on what `poll` returned: `None` raises TypeError, text that
      is not a decimal literal raises ValueError. */
  function AsFloat(polled: Fallible<Option<string>>): (r: Fallible<Decimal>)
    ensures polled.Raised? ==> r == Raised(polled.error)
    ensures polled == Ok(None) ==> r == Raised(TypeError)
    ensures r.Ok? <==> polled.Ok? && polled.value.Some? && ParseDecimal(polled.value.value).Some?
    ensures r.Ok? ==> Some(r.value) == ParseDecimal(polled.value.value)
  {
    match polled
    case Raised(e) => Raised(e)
    case Ok(None) => Raised(TypeError)
    case Ok(Some(text)) =>
      match ParseDecimal(text)
      case None => Raised(ValueError)
      case Some(d) => Ok(d)
  }

  /** The controller handle `connect` builds from the configured port,
      address, baud rate and timeout. */
  class Link {
    /** Whether the handle has an `open` method at all. */
    const hasOpen: bool
    /** The outcomes still to come of `open`, `read_value`, `poll`,
        `set_value` (for a number) and `close`, in order. */
    var opens: seq<Fallible<()>>
    var values: seq<Fallible<Option<Decimal>>>
    var polls: seq<Fallible<Option<string>>>
    var sets: seq<Fallible<()>>
    var closes: seq<Fallible<()>>
    /** Every call made on the handle, in order. */
    var calls: seq<Call>

    constructor (hasOpen: bool, opens: seq<Fallible<()>>, values: seq<Fallible<Option<Decimal>>>,
                 polls: seq<Fallible<Option<string>>>, sets: seq<Fallible<()>>, closes: seq<Fallible<()>>)
      ensures this.hasOpen == hasOpen && this.opens == opens && this.values == values
      ensures this.polls == polls && this.sets == sets && this.closes == closes && calls == []
    {
      this.hasOpen, this.opens, this.values := hasOpen, opens, values;
      this.polls, this.sets, this.closes := polls, sets, closes;
      calls := [];
    }

    method Open() returns (r: Fallible<()>)
      modifies this`opens, this`calls
      ensures r == OpenResult(hasOpen, old(opens))
      ensures hasOpen ==> opens == Rest(old(opens)) && calls == old(calls) + [OpenCall]
      ensures !hasOpen ==> opens == old(opens) && calls == old(calls)
    {
      if !hasOpen {
        return Raised(AttributeError);
      }
      r := Next(opens);
      opens := Rest(opens);
      calls := calls + [OpenCall];
    }

    method ReadValue() returns (r: Fallible<Option<Decimal>>)
      modifies this`values, this`calls
      ensures r == Next(old(values)) && values == Rest(old(values))
      ensures calls == old(calls) + [ReadValueCall]
    {
      r := Next(values);
      values := Rest(values);
      calls := calls + [ReadValueCall];
    }

    method Poll(identifier: string) returns (r: Fallible<Option<string>>)
      modifies this`polls, this`calls
      ensures r == Next(old(polls)) && polls == Rest(old(polls))
      ensures calls == old(calls) + [PollCall(identifier)]
    {
      r := Next(polls);
      polls := Rest(polls);
      calls := calls + [PollCall(identifier)];
    }

    method SetValue(value: PyNumber) returns (r: Fallible<()>)
      modifies this`sets, this`calls
      ensures r == SetResult(value, old(sets))
      ensures sets == if value.NonNumber? then old(sets) else Rest(old(sets))
      ensures calls == old(calls) + [SetValueCall(value)]
    {
      calls := calls + [SetValueCall(value)];
      if value.NonNumber? {
        return Raised(ValueError);
      }
      r := Next(sets);
      sets := Rest(sets);
    }

    method Close() returns (r: Fallible<()>)
      modifies this`closes, this`calls
      ensures r == Next(old(closes)) && closes == Rest(old(closes))
      ensures calls == old(calls) + [CloseCall]
    {
      r := Next(closes);
      closes := Rest(closes);
      calls := calls + [CloseCall];
    }
  }

  /** A status triple: current temperature, target temperature, output
      value, each possibly unknown. */
  datatype Status = Status(current: Option<Decimal>, target: Option<Decimal>, output: Option<Decimal>)

  class Manager {
    /** The handle every `connect` builds: the settings do not change, so
        neither does the controller it reaches. */
    const device: Link
    var comm: Link?
    var isConnected: bool
    var currentTemperature: Option<Decimal>
    var targetTemperature: Option<Decimal>
    var outputValue: Option<Decimal>

    /** A handle is held exactly while the manager is connected, and it is
        the configured one. */
    ghost predicate Valid()
      reads this
    {
      (comm != null <==> isConnected) && (comm != null ==> comm == device)
    }

    /** The cached triple. */
    function Cached(): Status
      reads this
    {
      Status(currentTemperature, targetTemperature, outputValue)
    }

    /** `RKCManager()`: not connected, nothing cached. */
    constructor (device: Link)
      ensures Valid() && this.device == device
      ensures !isConnected && comm == null && Cached() == Status(None, None, None)
    {
      this.device := device;
      comm, isConnected := null, false;
      currentTemperature, targetTemperature, outputValue := None, None, None;
    }

    /** `connect`: when already connected, `True` and nothing changes.
        Otherwise the handle is built, opened and tested with `read_value`;
        if either step raises, the manager ends disconnected without a
        handle; otherwise it is connected, and a reading other than `None`
        becomes the current temperature. The result is the final
        `is_connected`. */
    method Connect() returns (connected: bool)
      requires Valid()
      modifies this, device
      ensures Valid() && connected == isConnected
      ensures targetTemperature == old(targetTemperature) && outputValue == old(outputValue)
      ensures old(isConnected) ==> connected && unchanged(this) && unchanged(device)
      ensures !old(isConnected) ==>
        var opening := OpenResult(device.hasOpen, old(device.opens));
        var pv := Next(old(device.values));
        if opening.Raised? then
          !connected && currentTemperature == old(currentTemperature) &&
          device.values == old(device.values) &&
          device.calls == old(device.calls) + (if device.hasOpen then [OpenCall] else [])
        else
          device.values == Rest(old(device.values)) &&
          device.calls == old(device.calls) + [OpenCall, ReadValueCall] &&
          connected == pv.Ok? &&
          currentTemperature == (if pv.Ok? && pv.value.Some? then pv.value else old(currentTemperature))
      ensures !old(isConnected) ==> device.opens == if device.hasOpen then Rest(old(device.opens)) else old(device.opens)
      ensures device.polls == old(device.polls) && device.sets == old(device.sets) && device.closes == old(device.closes)
    {
      if isConnected && comm != null {
        return true;
      }
      comm := device;
      var opening := comm.Open();
      if opening.Raised? {
        isConnected, comm := false, null;
        return isConnected;
      }
      var pvTest := comm.ReadValue();
      if pvTest.Raised? {
        isConnected, comm := false, null;
        return isConnected;
      }
      if pvTest.value.Some? {
        isConnected := true;
        currentTemperature := pvTest.value;
      } else {
        isConnected := true;
      }
      return isConnected;
    }

    /** `disconnect`: a connected manager closes its handle, and an error
        from `close` is swallowed; in every case it ends disconnected
        without a handle, with the cache as it was. */
    method Disconnect()
      requires Valid()
      modifies this, device
      ensures Valid() && !isConnected && comm == null && Cached() == old(Cached())
      ensures old(isConnected) ==> device.closes == Rest(old(device.closes)) && device.calls == old(device.calls) + [CloseCall]
      ensures !old(isConnected) ==> device.closes == old(device.closes) && device.calls == old(device.calls)
      ensures device.opens == old(device.opens) && device.values == old(device.values)
      ensures device.polls == old(device.polls) && device.sets == old(device.sets)
    {
      if comm != null && isConnected {
        var closed := comm.Close();
      }
      isConnected := false;
      comm := null;
    }

    /** `get_status`: when not connected, three `None`s and no call. When
        connected, `read_value` and then `float` of `poll("S1")` and
        `poll("O1")`, each stored as it arrives; the first step that raises
        stops the sequence, and the cache is returned as it stands: fields
        stored before the failure are fresh (a `None` reading included),
        the rest keep their old values. It never raises. */
    method GetStatus() returns (status: Status)
      requires Valid()
      modifies this, device
      ensures Valid() && isConnected == old(isConnected) && comm == old(comm)
      ensures !old(isConnected) ==> status == Status(None, None, None) && unchanged(this) && unchanged(device)
      ensures old(isConnected) ==>
        var c := Next(old(device.values));
        var s := AsFloat(Next(old(device.polls)));
        var o := AsFloat(Next(Rest(old(device.polls))));
        status == Cached() &&
        currentTemperature == (if c.Ok? then c.value else old(currentTemperature)) &&
        targetTemperature == (if c.Ok? && s.Ok? then Some(s.value) else old(targetTemperature)) &&
        outputValue == (if c.Ok? && s.Ok? && o.Ok? then Some(o.value) else old(outputValue)) &&
        device.values == Rest(old(device.values)) &&
        device.polls == (if c.Raised? then old(device.polls)
                         else if s.Raised? then Rest(old(device.polls))
                         else Rest(Rest(old(device.polls)))) &&
        device.calls == old(device.calls) + [ReadValueCall] +
                        (if c.Raised? then [] else [PollCall("S1")] + (if s.Raised? then [] else [PollCall("O1")]))
      ensures device.opens == old(device.opens) && device.sets == old(device.sets) && device.closes == old(device.closes)
    {
      if !isConnected || comm == null {
        return Status(None, None, None);
      }
      var current := comm.ReadValue();
      if current.Raised? {
        return Cached();
      }
      currentTemperature := current.value;
      var sv := comm.Poll("S1");
      var target := AsFloat(sv);
      if target.Raised? {
        return Cached();
      }
      targetTemperature := Some(target.value);
      var ov := comm.Poll("O1");
      var output := AsFloat(ov);
      if output.Raised? {
        return Cached();
      }
      outputValue := Some(output.value);
      return Cached();
    }

    /** `set_temperature`: when not connected, `False` and no call. When
        connected, `set_value`; if it raises, `False` and the target is
        unchanged; otherwise `True` and the value becomes the target, even
        when the controller refused it (`set_value` does not report that). */
    method SetTemperature(temperature: PyNumber) returns (ok: bool)
      requires Valid()
      modifies this, device
      ensures Valid() && isConnected == old(isConnected) && comm == old(comm)
      ensures currentTemperature == old(currentTemperature) && outputValue == old(outputValue)
      ensures !old(isConnected) ==> !ok && unchanged(this) && unchanged(device)
      ensures old(isConnected) ==>
        var r := SetResult(temperature, old(device.sets));
        ok == r.Ok? &&
        (ok ==> temperature.Number? && targetTemperature == Some(Decimal(temperature.tenths, 1))) &&
        (!ok ==> targetTemperature == old(targetTemperature)) &&
        device.calls == old(device.calls) + [SetValueCall(temperature)] &&
        device.sets == (if temperature.NonNumber? then old(device.sets) else Rest(old(device.sets)))
      ensures device.opens == old(device.opens) && device.values == old(device.values)
      ensures device.polls == old(device.polls) && device.closes == old(device.closes)
    {
      if !isConnected || comm == null {
        return false;
      }
      var r := comm.SetValue(temperature);
      if r.Raised? {
        return false;
      }
      targetTemperature := Some(Decimal(temperature.tenths, 1));
      return true;
    }
  }
}
