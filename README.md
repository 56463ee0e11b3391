# RKC FB-series controller link: a verified model

This project models the core of a Python driver for RKC FB-series temperature
controllers, together with the connection manager built on it:

- **Block check character** (`fb_controller/utils.py`). `calculate_bcc` XORs
  the bytes of a `bytes` or ASCII `str` argument into one byte and raises
  `ValueError` for any other type. It is modelled as a method with the
  source's loop, proved equal to a recursive fold (`Utils.XorFold`).
- **Frame codec** (`fb_controller/rkc_communication.py`). This covers the
  poll query `address ++ memory_area ++ identifier ++ ENQ` and the select
  message `address ++ STX ++ identifier ++ data ++ ETX ++ BCC`. It also
  covers `_validate_response` (first STX, first ETX, the BCC of the span
  after STX up to and including ETX, compared with the byte after ETX) and
  `_parse_response` (the text between STX and ETX, split after two
  characters). All of these are pure functions over bytes.
- **Protocol engine** (`RKCCommunication`). `poll`, `select`, `read_value`,
  `set_value`, the `_send_*` helpers, `close` and the context-manager exit
  are methods of the class `RkcCommunication.Comm`. They run over
  `Transport.Serial`, a serial port whose `read_until` and `read` calls
  return scripted results and whose writes are appended to a log. Each
  method is proved against a specification function of the scripts
  (`PollExchange`, `SelectRun`, `SetExchange`). Lemmas about those
  functions state the write log and the result that the source promises.
  The unit tests are replayed as lemmas in `Scenarios`.
- **Connection manager** (`RKCManager`). This is the class
  `RkcManager.Manager`, which holds the flag `is_connected`, the handle
  `comm` and the three cached readings. Its methods are `connect`,
  `disconnect`, `get_status` and `set_temperature`. The controller handle is
  abstract (`RkcManager.Link`): each of its operations returns the next
  outcome of its own script (a value, `None` or an exception), and each call
  is logged.

Temperatures are exact decimals (`FixedPoint.Decimal`, a mantissa and a count
of fraction digits). A value sent with `set_value` is a whole number of
tenths. `f"{value:07.1f}"` is `FixedPoint.FormatTenths`, and it is proved to
read back under `float` (`FixedPoint.FormatRoundTrip`). The control codes
are the ASCII ones: EOT 0x04, ENQ 0x05, STX 0x02, ETX 0x03, ACK 0x06,
NAK 0x15. `fb_controller/constants.py` is not part of this model. The
values of STX, ETX and ENQ agree with the bytes in `tests/test_rkc.py`.

Behaviours of the code a reader might not expect:

- `poll` returns the value alone unless `return_with_identifier` is set.
- `select` retransmits on NAK by calling itself, with no retry count; only
  the interpreter's recursion limit stops a controller that keeps NAKing.
- `connect` counts a test read that returns `None` as connected.
- `get_status` returns the fields it refreshed before a failure, not the
  values as they were before the call.
- `set_temperature` reports success when the controller refused the value
  with a reply that is neither ACK nor NAK, because `set_value` never
  reports the select outcome.

## Model

| member | source | states |
|---|---|---|
| `Utils.CalculateBcc` | fb_controller/utils.py:1-13 | The loop's result is always exactly one byte. That byte is the XOR fold of the argument's bytes, and `b''` gives `b'\x00'`. A `str` is ASCII-encoded first, and any other type raises ValueError. |
| `Utils.XorFoldPush` | fb_controller/utils.py:10-12 | Appending a byte `c` to the input changes the BCC by XOR with `c`. |
| `Utils.XorFoldAppend` | fb_controller/utils.py:10-12 | The BCC of a concatenation is the XOR of the parts' BCCs. |
| `Utils.XorFoldSwap` | fb_controller/utils.py:10-12 | The BCC of two parts does not depend on their order. |
| `Utils.XorFoldSelfCheck` | fb_controller/utils.py:10-12 | A span followed by its own BCC folds to zero. |
| `Utils.XorFoldAscii` | fb_controller/rkc_communication.py:121-122 | The BCC of ASCII bytes is an ASCII byte, so `bcc.decode('ascii')` in `select` cannot raise. |
| `Utils.BccTextAsBytes` | fb_controller/utils.py:3-6 | A `str` argument gives the same result as its ASCII encoding passed as `bytes`. |
| `Utils.Bcc` | fb_controller/utils.py:3-13 | The call succeeds exactly for `bytes` and for ASCII `str`, the result has one byte, and any other type raises ValueError. |
| `Utils.CalculateBccExample` | tests/test_rkc.py:226-230 | `calculate_bcc(b'M1-0120.9\x03') == b'F'`, the same holds for the text, and `calculate_bcc(1)` raises ValueError. |
| `Ascii.Find` | fb_controller/rkc_communication.py:139-140 | `bytes.find` gives -1 exactly when the byte is absent. Otherwise it gives an index holding the byte with no earlier occurrence. |
| `Ascii.Encode` | fb_controller/rkc_communication.py:85-86 | `str.encode('ascii')` succeeds exactly on ASCII text, gives one byte per character, and raises UnicodeEncodeError otherwise. |
| `Ascii.Decode` | fb_controller/rkc_communication.py:173 | `bytes.decode('ascii')` succeeds exactly on bytes below 0x80, gives one character per byte, and raises UnicodeDecodeError otherwise. |
| `Frames.PollQuery` | fb_controller/rkc_communication.py:85-86 | The query is the ASCII encoding of `address ++ memory_area ++ identifier` followed by ENQ. It raises exactly when that text is not ASCII. |
| `Frames.PollQueryExample` | tests/test_rkc.py:96-98 | The query of `read_value` at address "01" is `b'01M1\x05'`. |
| `Frames.SelectMessage` | fb_controller/rkc_communication.py:120-123 | Building the message raises UnicodeEncodeError exactly when the address or `identifier ++ data` is not ASCII. |
| `Frames.SelectMessageLayout` | fb_controller/rkc_communication.py:120-123 | The message is `address ++ STX ++ identifier ++ data ++ ETX ++ BCC(identifier ++ data ++ ETX)`. |
| `Frames.SelectMessageExample` | tests/test_rkc.py:28-31 | `select("S1", "-0150.0")` at address "01" sends `b'01\x02S1-0150.0\x03V'`. |
| `Frames.ValidateResponse` | fb_controller/rkc_communication.py:137-156 | The result is false when STX or ETX is absent. Otherwise it is true iff a byte follows the first ETX and that byte equals the BCC of the bytes after the first STX up to and including the first ETX. A non-ASCII span raises UnicodeDecodeError. |
| `Frames.FrameValid` | fb_controller/rkc_communication.py:137-156 | A well-formed frame is valid exactly when its trailing byte is the BCC of its body and ETX. |
| `Frames.CompareCheck` | fb_controller/rkc_communication.py:148-153 | Decoding the span as ASCII fails with UnicodeDecodeError exactly when it holds a byte above 127. Otherwise the result is true iff the received check bytes are the one byte equal to the XOR of the span. |
| `Frames.FrameMismatch` | fb_controller/rkc_communication.py:137-156 | A well-formed frame whose trailing byte differs from the BCC of its body and ETX is rejected without raising. |
| `Frames.FrameWithoutCheck` | fb_controller/rkc_communication.py:145 | A frame that ends at ETX, without its trailing byte, is never valid. |
| `Frames.ParseResponse` | fb_controller/rkc_communication.py:158-182 | The result is `None` exactly when STX or ETX is missing. Otherwise it raises UnicodeDecodeError exactly when the bytes strictly between the first STX and the first ETX are not all ASCII, and else it is the split of their text. |
| `Frames.Split` | fb_controller/rkc_communication.py:174-179 | With the identifier, the first two characters and the rest together make up the text. Without it, the result is the text without its first two characters. |
| `Frames.ValidThenParses` | fb_controller/rkc_communication.py:96-97 | A response that passes validation always parses to a value: never `None`, and no decode error. |
| `Frames.FrameParses` | fb_controller/rkc_communication.py:168-179 | A well-formed frame parses to the split of its body. |
| `Frames.ValidateGoodExample` | tests/test_rkc.py:206-207 | `b'\x02M1-0120.9\x03F'` is valid. |
| `Frames.ValidateWrongCheckExample` | tests/test_rkc.py:209-210 | `b'\x02M1-0120.0\x03Q'` is invalid. |
| `Frames.ValidateUnframedExample` | tests/test_rkc.py:212-213 | `b'M1-0120.0'` is invalid. |
| `Frames.ParseExamples` | tests/test_rkc.py:219-223 | `b'\x02M1-0150.0\x03'` parses to "-0150.0", and `b'M1-0150.0'` parses to `None`. |
| `FixedPoint.FormatRoundTrip` | fb_controller/rkc_communication.py:200 | `float(f"{t/10:07.1f}")` is `t` tenths, for every integer `t`. |
| `FixedPoint.FormatWidth` | fb_controller/rkc_communication.py:200 | `07.1f` gives at least seven characters, and exactly seven iff the value lies in [-9999.9, 99999.9]. |
| `FixedPoint.FormatIsAscii` | fb_controller/rkc_communication.py:200-201 | The formatted value is ASCII, so it never makes the select message fail to encode. |
| `FixedPoint.FormatNegativeExample` | tests/test_rkc.py:25-30 | -150 is formatted as "-0150.0". |
| `FixedPoint.FormatPositiveExample` | fb_controller/rkc_communication.py:199 | 100 is formatted as "00100.0". |
| `FixedPoint.ParseExample` | tests/test_rkc.py:92-93 | "-0150.0" reads back as -150.0. |
| `RkcCommunication.Judge` | fb_controller/rkc_communication.py:96-104 | Each response gets one decision. An empty response means silence. A non-empty response that fails validation is rejected, which means a NAK. A response that passes validation settles the loop with its parse. |
| `RkcCommunication.RejectionsBound` | fb_controller/rkc_communication.py:89-104 | A run sends no more NAKs than it has rounds. |
| `RkcCommunication.PollExhausts` | fb_controller/rkc_communication.py:89-107 | If no round settles, the loop reads all its rounds, sends one NAK per rejected round, and returns `None`. |
| `RkcCommunication.PollFirstSettled` | fb_controller/rkc_communication.py:89-101 | The loop returns the outcome of the first round that settles. Only the rounds before it send NAKs. |
| `RkcCommunication.PollNoneIff` | fb_controller/rkc_communication.py:89-107 | `poll` returns `None` exactly when none of its `max_retries + 1` rounds settles, that is, none gets a valid frame or one whose STX…ETX span cannot be decoded as ASCII (such a round ends `poll` with UnicodeDecodeError). |
| `RkcCommunication.PollGivesUp` | fb_controller/rkc_communication.py:84-107 | With no acceptable response, the writes are EOT, the query once, and then only NAKs, one per non-empty invalid response. That makes 2 + #NAKs writes, and the result is `None`. |
| `RkcCommunication.PollReturnsFirstValid` | fb_controller/rkc_communication.py:84-101 | `poll` returns the parse of the first valid response. The log is EOT, the query, and one NAK per earlier rejected response. Exactly that many reads are consumed. |
| `RkcCommunication.Comm.Poll` | fb_controller/rkc_communication.py:73-107 | The loop's result, its additions to the write log and the reads it consumes are those of `PollExchange`. |
| `RkcCommunication.Comm.ReadResponses` | fb_controller/rkc_communication.py:89-107 | The while loop over `retries` does what the recursive `PollLoop` says for `max_retries + 1` rounds. |
| `RkcCommunication.Comm.Attempt` | fb_controller/rkc_communication.py:92-104 | One round reads the frame and one more byte, answers a rejected response with exactly one NAK, and makes no write otherwise. |
| `RkcCommunication.SelectRunShape` | fb_controller/rkc_communication.py:119-135 | After k leading NAKs the writes are k + 1 copies of EOT and the identical message. An ACK then adds one EOT and gives `True`, which is 2k + 3 writes. Any other reply gives `False` with no further write. |
| `RkcCommunication.Comm.Select` | fb_controller/rkc_communication.py:109-135 | The recursive method's result, write log and consumed reads are those of `SelectExchange`. |
| `RkcCommunication.Comm.ReadValue` | fb_controller/rkc_communication.py:184-194 | The method polls M1 with the identifier and returns `float` of the value. `None` is returned when the poll gave nothing. |
| `RkcCommunication.Comm.SetValue` | fb_controller/rkc_communication.py:196-208 | The method's result, write log and consumed reads are those of `SetExchange`. |
| `RkcCommunication.SetValueOutcome` | fb_controller/rkc_communication.py:196-208 | A non-number raises ValueError before any write. A number is sent as "S1" with its `07.1f` text, and the call returns `None` whatever the controller replied. |
| `RkcCommunication.Comm.SendEot` | fb_controller/rkc_communication.py:53-56 | Exactly one write, `b'\x04'`. |
| `RkcCommunication.Comm.SendEnq` | fb_controller/rkc_communication.py:58-61 | Exactly one write, `b'\x05'`. |
| `RkcCommunication.Comm.SendAck` | fb_controller/rkc_communication.py:63-66 | Exactly one write, `b'\x06'`. |
| `RkcCommunication.Comm.SendNak` | fb_controller/rkc_communication.py:68-71 | Exactly one write, `b'\x15'`. |
| `RkcCommunication.Comm.Close` | fb_controller/rkc_communication.py:210-212 | The port is closed once. |
| `RkcCommunication.Comm.Exit` | fb_controller/rkc_communication.py:48-51 | The port is closed once if it is open. Otherwise nothing happens. |
| `RkcCommunication.Comm.Enter` | fb_controller/rkc_communication.py:37-46 | The given port becomes the handle's port. |
| `RkcCommunication.Comm.constructor` | fb_controller/rkc_communication.py:23-35 | The address and retry budget are kept, and no port is open yet. |
| `Scenarios.ReadValueSucceeds` | tests/test_rkc.py:77-98 | A good reply gives -150.0 after exactly two writes, EOT and `b'01M1\x05'`. |
| `Scenarios.ReadValueFailedOnce` | tests/test_rkc.py:100-122 | One bad check byte, then a good reply, gives -150.0 after the writes EOT, query and NAK. |
| `Scenarios.ReadValueFails` | tests/test_rkc.py:124-146 | Three bad replies and then silence give `None` after five writes. |
| `Scenarios.SetValueWithAck` | tests/test_rkc.py:11-31 | ACK gives the writes EOT, `b'01\x02S1-0150.0\x03V'`, EOT. |
| `Scenarios.SetValueWithNak` | tests/test_rkc.py:33-55 | NAK and then ACK give five writes with the same message twice. |
| `Scenarios.SetValueAbnormal` | tests/test_rkc.py:57-74 | An unexpected reply still makes `set_value` return `None`, and `set_value('a')` raises ValueError. |
| `Scenarios.SelectAbnormal` | tests/test_rkc.py:148-165 | `select` answered with `aaa` returns `False`. |
| `RkcManager.AsFloat` | src/rkc_controller_api/core/rkc_manager.py:100-101 | `float(poll(...))` succeeds exactly on a decimal literal. `None` raises TypeError, and an exception from `poll` passes through. |
| `RkcManager.Link.Open` | src/rkc_controller_api/core/rkc_manager.py:46 | A handle without `open` raises AttributeError before any call. Otherwise the result is the scripted outcome. |
| `RkcManager.Link.SetValue` | fb_controller/rkc_communication.py:196-208 | A non-number raises ValueError without using the script. |
| `RkcManager.Manager.constructor` | src/rkc_controller_api/core/rkc_manager.py:15-20 | The manager starts disconnected, with no handle and nothing cached. |
| `RkcManager.Manager.Connect` | src/rkc_controller_api/core/rkc_manager.py:22-79 | When already connected it returns `True` and changes nothing. If open or the test read raises, it ends disconnected with no handle and the cache untouched. Otherwise it ends connected, and a non-`None` reading becomes the current temperature. The result always equals the final `is_connected`, and the invariant `Valid` is kept. |
| `RkcManager.Manager.Disconnect` | src/rkc_controller_api/core/rkc_manager.py:81-90 | It always ends disconnected with no handle. It calls `close` only if it was connected, and a failure of `close` is swallowed. The cache is unchanged. |
| `RkcManager.Manager.GetStatus` | src/rkc_controller_api/core/rkc_manager.py:92-108 | When not connected it returns three `None`s and touches nothing. When connected it reads M1, S1 and O1 in that order and stops at the first step that raises. Fields stored before the failure are fresh, including a `None` reading, and the others keep their old values. It returns the cache and never raises. |
| `RkcManager.Manager.SetTemperature` | src/rkc_controller_api/core/rkc_manager.py:110-129 | When not connected it returns `False` with no call. When connected it returns `True` and stores the target unless `set_value` raises. In that case it returns `False` and leaves the target unchanged. |
| `ManagerScenarios.ConnectAsWritten` | src/rkc_controller_api/core/rkc_manager.py:40-46 | With the handle the source builds, which has no `open`, `connect` always returns `False`. Afterwards `get_status` gives three `None`s and `set_temperature` gives `False`, with no call on the handle. |
| `ManagerScenarios.ConnectWithOpen` | src/rkc_controller_api/core/rkc_manager.py:57-73 | With a handle that opens, a reading connects the manager and is cached. A `None` reading connects it with nothing cached. |
| `ManagerScenarios.ReconnectAfterFailure` | src/rkc_controller_api/core/rkc_manager.py:75-79 | A failed `connect` leaves the manager disconnected, and the next `connect` is a fresh attempt. |
| `ManagerScenarios.StatusFailsAtSetpoint` | src/rkc_controller_api/core/rkc_manager.py:99-108 | If the S1 poll returns `None`, the current value is fresh, the target and output are stale, and O1 is never polled. |
| `ManagerScenarios.StatusWithNoneReading` | src/rkc_controller_api/core/rkc_manager.py:99-104 | A `None` reading replaces the cached current value, the setpoint "00100.0" is read as 100.0, and an output that is not a number leaves the output stale. |
| `ManagerScenarios.SetThenDisconnect` | src/rkc_controller_api/core/rkc_manager.py:110-129 | A number becomes the target, and a non-number is refused. After `disconnect`, setting is refused without a call and the status is three `None`s, while the cache keeps its values. |

## Left out

- The serial port itself (pyserial, baud rate, byte size, parity, stop bits, timeouts): `Transport.Serial` replaces it with scripted reads and a write log. A read past the end of its script returns `b''`, which is what a timeout returns.
- `src/rkc_controller_api/core/poller.py` (the periodic asyncio sampler and its CSV log), the HTTP routers, the application wiring, the schemas, configuration loading, `example.py` and all logging. These are concurrency and I/O around the core.
- The module-level `rkc_handler` / `get_rkc_manager` lookup: it is ambient state with no behaviour to prove.
- Mutual exclusion between concurrent callers of the manager: the source has none, and the model is sequential.
- `RkcCommunication.Comm.Select`: the source retransmits on NAK by calling `select` again (`fb_controller/rkc_communication.py:130-132`), so each NAK adds a Python stack frame. A controller that keeps answering NAK drives the call into the interpreter's recursion limit, where it raises RecursionError; `set_temperature` catches that as an `Exception` and returns `False`. The model has no call-stack depth: `Comm.Select` and `RkcCommunication.SelectRunShape` give 2k + 3 writes and a normal return for every number k of NAKs, and the recursion ends only because each NAK uses up one scripted reply. The depth at which the RecursionError occurs depends on the caller's stack and is not modelled.
- `RkcCommunication.SelectRunShape`: states the outcome for any number of leading NAKs, without the RecursionError the source raises once the NAKs exhaust the recursion limit (see the line above).
- `RkcCommunication.Comm.Poll`: it, like every port operation of `Comm`, requires that a port has been set (`__enter__` or direct assignment). Before that the source raises AttributeError on `None`.
- `RkcCommunication.Comm.ReadValue`: `float` is modelled on plain decimal literals (an optional sign, then digits with at most one point). Python also accepts exponents, surrounding whitespace, underscores, `inf` and `nan`, which the model reads as ValueError. Values are exact decimals, not binary floats.
- `RkcCommunication.Comm.SetValue`: the argument is a whole number of tenths. Finer floats, their rounding by `.1f`, and `bool` (which `isinstance` counts as `int`) are not modelled.
- `RkcManager.AsFloat`: it uses the same restricted `float` as `read_value`.
- `RkcManager.Link`: the manager's handle is abstract. Its outcomes are scripted, and they are not derived from `RkcCommunication.Comm` over a port. The attributes `hasattr(self.comm, 'close')` checks and the truthiness of `self.comm` are taken as always true, which holds for an `RKCCommunication`.
- A string returned where bytes are expected (the `'aaa'` reply of one unit test) is modelled as the bytes `aaa`.

## Findings

| source | as written | input that shows it | evidently intended | confidence | as-written member | corrected member |
|---|---|---|---|---|---|---|
| src/rkc_controller_api/core/rkc_manager.py:46 | `connect` calls `self.comm.open()`, but `RKCCommunication` defines no `open`. The AttributeError is caught, so `connect` always returns `False` and never tries the test read. | Any call of `connect` on a disconnected manager, whatever the controller answers. | Open the port, then take the test read and connect. | high; not executed | `ManagerScenarios.ConnectAsWritten` | `ManagerScenarios.ConnectWithOpen` |
