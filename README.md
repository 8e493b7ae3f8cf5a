# Modbus/TCP PLC honeypot and NTP log parser — a Dafny model

This project models the protocol core of a Siemens-flavoured Modbus/TCP
honeypot and the line filter of the NTP peer-statistics parser, a separate
program that upserts request and attacker records into MongoDB.

**The honeypot** (`honeypots/Siemens/honeypot.py`) is modelled in four modules:

- `ModbusFrame`: the reply framing, i.e. the MBAP header written by `build_response`, exception replies and the big-endian register list.
- `ModbusRequest`: how `start_server` decodes a received frame and chooses a handler, including the frames it answers with nothing.
- `Handlers`: each handler's reply as a pure function of the store, plus the effect of the writes and of one tick of the ramp updater.
- `Honeypot`: the `Plc` class holding the mutable state (holding registers, coils, session history, audit log). Its handler methods update that state in place. `Tick` runs the updater loop over the ramp rules, and `StoreBlock` runs the loop of the multiple write. `Dispatch` is one pass of the accept loop's body.

**The test client** (`honeypots/Siemens/test.py`) is `ModbusClient`. It
contains the request encoder `build_modbus_request` and its round trip
through the server's decoding.

**The NTP parser** (`ntp-parser/parse_ntplogs_loop.py`) is `NtpParser`. It
covers Python's `str.split`/`str.strip`, `int(s, 16)` and `int(float(s))` for
the fields the parser reads, and the filters of `parse_and_store_line`. The
two MongoDB `update_one` upserts become map updates: pure functions, and the
`NtpStore` class whose method performs them in the source's order.

A Python exception inside a handler is caught by the accept loop, which then
sends nothing. The model therefore gives every such reply as `Option`, with
`None` meaning "no reply". Examples of such exceptions: a value that
`to_bytes` or `bytes([...])` refuses, an `IndexError`, `int('', 2)`.

Where the code departs from the Modbus application protocol, or from what its own names suggest, the model follows the code:

- The Read Device Identification header is `2B 0E 01 00 00 03`. There is no "next object id" byte before the object count.
- Read Input Registers reads the holding registers.
- A Read Coils request for 0 coils raises (`int('', 2)`) and gets no reply.
- Ramp rules are not validated. A rule with `start_value > max` keeps stepping from a low current value until it passes max and is then reset to start_value; from start_value with a step >= 0 it stays at start_value on every tick. A negative step counts down. The bound lemma assumes `start_value <= max` only where it needs it.
- A 0x2B frame whose byte 8 is not 0x0E falls through to the "unsupported" branch and gets no reply. A 0x10 frame without byte 12, or a 0x2B frame without byte 8, raises `IndexError`, which the accept loop swallows; it gets no reply either.

## Model

| member | source | states |
|---|---|---|
| `Bytes.Slice` | honeypots/Siemens/honeypot.py:141-142 | Python slicing clamps to the sequence: the length is the clamped width and element k is `s[lo + k]` |
| `Bytes.ToBytes2` | honeypots/Siemens/honeypot.py:47 | `to_bytes(2, 'big')` exists exactly for 0 <= v < 65536 and decodes back to v |
| `Bytes.PackedFlags` | honeypots/Siemens/honeypot.py:73 | `int(bits[::-1], 2).to_bytes(n, 'little')` puts flag k at bit k mod 8 of byte k / 8, and every bit past the last flag is zero |
| `ModbusFrame.BuildResponse` | honeypots/Siemens/honeypot.py:45-48 | the frame is tid, a zero protocol id, a length field decoding to len(payload)+1, the unit id, then the payload; there is no frame when that length does not fit in 16 bits |
| `ModbusFrame.ExceptionFunction` | honeypots/Siemens/honeypot.py:51 | fc with bit 0x80 set has the high bit set and keeps the low seven bits of fc |
| `ModbusFrame.BuildException` | honeypots/Siemens/honeypot.py:50-51 | an exception frame is always built, is 7 bytes past the tid, has a zero protocol id and length field 3, and its payload is exactly [fc with bit 0x80 set, code] |
| `ModbusFrame.EncodeWordsLayout` | honeypots/Siemens/honeypot.py:57 | the joined `to_bytes(2, 'big')` list exists exactly when every value fits in 16 bits, is two bytes per value, and each pair decodes back to its value |
| `ModbusRequest.ParseRequest` | honeypots/Siemens/honeypot.py:134-179 | no handler for a frame under 8 bytes or an unsupported code; the tid, unit id and code are bytes 0-1, 6 and 7; codes 01/03/04/06/11 always reach their handler; 0x10 does so iff byte 12 exists; 0x2B does so iff byte 8 exists and is 0x0E |
| `ModbusRequest.ParsedFields` | honeypots/Siemens/honeypot.py:141-167 | for every frame that reaches a handler, start is `data[8:10]` and quantity or value `data[10:12]`, big-endian over Python's clamped slices (so 8 to 11-byte frames decode from short slices); a 0x10 block is the byte-count bytes after byte 12, cut short at the end of the frame |
| `ModbusRequest.ShortFrameExample` | honeypots/Siemens/honeypot.py:140-143 | the 9-byte Read Holding Registers frame 00 01 00 00 00 03 01 03 07 decodes to start 7 and quantity 0 |
| `Handlers.RegisterValues` | honeypots/Siemens/honeypot.py:56 | the value list has qty entries, entry k being address start+k with absent addresses read as 0 |
| `Handlers.ReadRegistersReply` | honeypots/Siemens/honeypot.py:54-64 | the 0x03/0x04 reply exists exactly when qty <= 127 and every value read fits in 16 bits (otherwise the handler raises); it is 7 + 2*qty bytes past the tid and answers the request's tid, unit id and code |
| `Handlers.ReadRegistersLayout` | honeypots/Siemens/honeypot.py:54-64 | a 0x03/0x04 reply exists iff qty <= 127 and every value read lies in 0..65535; it then has byte count 2*qty and, at bytes 9+2k..10+2k, the big-endian value of address start+k |
| `Handlers.UnsetRegistersReadZero` | honeypots/Siemens/honeypot.py:56-58 | reading addresses never written returns qty zero words |
| `Handlers.CoilBits` | honeypots/Siemens/honeypot.py:68-71 | the coil string has qty flags, flag k being coil start+k with absent coils read as 0 |
| `Handlers.ReadCoilsReply` | honeypots/Siemens/honeypot.py:66-75 | the coil reply exists exactly when 1 <= qty <= 2040 (otherwise the handler raises); it is 7 + ceil(qty/8) bytes past the tid and answers the request's tid, unit id and code 0x01 |
| `Handlers.ReadCoilsLayout` | honeypots/Siemens/honeypot.py:66-75 | a coil reply exists iff 1 <= qty <= 2040; its byte count is ceil(qty/8); coil start+k is bit k mod 8 of data byte k/8, LSB first; unused high bits are zero |
| `Handlers.WriteSingleReply` | honeypots/Siemens/honeypot.py:78-87 | a locked address gets exception 0x86/0x02; any other gets an echo of 0x06, address and value |
| `Handlers.BlockWords` | honeypots/Siemens/honeypot.py:91 | the blocked-value list has qty entries, entry i being the big-endian word read from bytes 2i and 2i+1 of the block (a short or empty slice read as such) |
| `Handlers.WriteWords` | honeypots/Siemens/honeypot.py:95-97 | storing words one address at a time from start: address start+i holds word i, and every other address keeps its entry or its absence |
| `Handlers.WriteWordsStep` | honeypots/Siemens/honeypot.py:95-97 | one more pass of the loop changes the store only at address start+i, which receives word i |
| `Handlers.WriteBlock` | honeypots/Siemens/honeypot.py:94-97 | after the loop, address start+i holds the big-endian word i of the block for every i < qty, and every other address is unchanged |
| `Handlers.WriteMultipleRegs` | honeypots/Siemens/honeypot.py:89-97 | all or nothing: a range containing any locked address leaves the store unchanged, a range with none gets the whole block written; a locked register is never added, removed or changed |
| `Handlers.WriteMultipleAllOrNothing` | honeypots/Siemens/honeypot.py:89-97 | in the code's own terms (`start + i` locked for some i < qty): any such offset leaves the store unchanged; with none the block is written |
| `Handlers.WriteMultipleReply` | honeypots/Siemens/honeypot.py:89-101 | a range containing a locked address gets exception 0x90/0x02; otherwise the reply echoes 0x10, start and qty |
| `Handlers.DeviceObjectsPrefixNone` | honeypots/Siemens/honeypot.py:110-112 | once one identity value is longer than 255 bytes, the loop raises and there are no objects |
| `Handlers.DeviceObjectsAppend` | honeypots/Siemens/honeypot.py:110-112 | each loop pass appends one (id, length, bytes) triple, or raises for a value over 255 bytes |
| `Handlers.DeviceObjects` | honeypots/Siemens/honeypot.py:109-112 | the object list exists exactly when every value is at most 255 bytes long, and is at most 257 bytes per object |
| `Handlers.DeviceIdReply` | honeypots/Siemens/honeypot.py:103-113 | the 0x2B reply exists exactly when each of the three identity values is at most 255 bytes; it starts with the six-byte header and answers the request's tid, unit id and code 0x2B |
| `Handlers.DeviceIdLayout` | honeypots/Siemens/honeypot.py:103-113 | the 0x2B reply is header 2B 0E 01 00 00 03 then objects 0x00, 0x01, 0x02 from vendor, model and firmware (defaults "Unknown", "Unknown", "0.0.0") as id, length, bytes; no reply iff a value exceeds 255 bytes |
| `Handlers.SlaveIdReply` | honeypots/Siemens/honeypot.py:115-120 | the 0x11 reply is 0x11, byte count 2+len(id), slave id 1, status 0xFF, then "vendor model" (a missing field printing as "None"); no reply iff the string exceeds 253 bytes |
| `Handlers.WriteSingleEffect` | honeypots/Siemens/honeypot.py:78-83 | a single write changes exactly its own address, unless the address is locked, when nothing changes |
| `Handlers.Respond` | honeypots/Siemens/honeypot.py:140-176 | every reply the dispatcher sends echoes the request's transaction id and unit id, has a zero protocol id, and carries the request's function code or its exception form (fc with bit 0x80 set) |
| `Handlers.RegsAfter` | honeypots/Siemens/honeypot.py:140-176 | only the two write requests change the holding registers, and no request adds, removes or changes a locked register |
| `Handlers.DroppedFrames` | honeypots/Siemens/honeypot.py:134-179 | a frame under 8 bytes, an unsupported code, or 0x2B without 0x0E in byte 8 gets no handler |
| `Handlers.RampNext` | honeypots/Siemens/honeypot.py:29-31 | the next ramp value is current+step unless that exceeds max, when it is start_value; it never exceeds max when start_value <= max |
| `Handlers.TickRegs` | honeypots/Siemens/honeypot.py:26-32 | after a tick every ramp address holds its next value from the current one (start_value when unset), and every other address is unchanged |
| `Handlers.TickBounded` | honeypots/Siemens/honeypot.py:22-32 | after any tick every ramp register whose start_value <= max is at most max |
| `Handlers.RampExample` | honeypots/Siemens/honeypot.py:29-31 | for rule {10, 5, 20}: 18 resets to 10, 15 steps to 20 (equal to max is kept), 20 resets to 10 |
| `Handlers.UnvalidatedRamp` | honeypots/Siemens/honeypot.py:29-31 | a rule with start_value above max and a step >= 0 keeps start_value on every tick (it is reset to itself) |
| `Handlers.UnvalidatedRampExample` | honeypots/Siemens/honeypot.py:29-31 | with start_value above max a low value still steps up (5 to 10 for {30, 5, 20}) and a negative step counts down (30 to 15 for {30, -15, 20}) |
| `Honeypot.AppendSession` | honeypots/Siemens/honeypot.py:39-42 | one entry is appended to that IP's history (created empty when new); earlier entries and other IPs are kept |
| `Honeypot.SessionsAfter` | honeypots/Siemens/honeypot.py:78-99 | reads and identification requests leave the sessions unchanged; a request only ever adds the peer's IP, every history only grows (the old one is a prefix), and other IPs' histories are kept |
| `Honeypot.AuditFor` | honeypots/Siemens/honeypot.py:80-175 | a read writes no audit line and every other request exactly one, stamped with the time, the peer and the request's function code, and for a write with its start address (the write handlers log at lines 80-99; the identification requests log at lines 171 and 175, before their handlers run) |
| `Honeypot.Plc.constructor` | honeypots/Siemens/honeypot.py:11-19 | the store starts from the configured registers, coils and rules, with empty sessions and log |
| `Honeypot.Plc.Tick` | honeypots/Siemens/honeypot.py:25-32 | the loop over the rules leaves the holding registers equal to `TickRegs` of the old ones |
| `Honeypot.Plc.LogEvent` | honeypots/Siemens/honeypot.py:35-37 | one audit line is appended, the rest of the log unchanged |
| `Honeypot.Plc.UpdateSession` | honeypots/Siemens/honeypot.py:39-42 | the session map becomes `AppendSession` of the old one |
| `Honeypot.Plc.HandleReadHolding` | honeypots/Siemens/honeypot.py:54-58 | returns the 0x03 read reply of the current registers and changes nothing |
| `Honeypot.Plc.HandleReadInputRegisters` | honeypots/Siemens/honeypot.py:60-64 | returns the 0x04 read reply of the same holding registers and changes nothing |
| `Honeypot.Plc.HandleReadCoils` | honeypots/Siemens/honeypot.py:66-75 | returns the coil reply of the current coils and changes nothing |
| `Honeypot.Plc.HandleWriteSingle` | honeypots/Siemens/honeypot.py:78-87 | a locked write leaves registers and sessions unchanged and logs it; otherwise the address is set, one session entry appended, one line logged |
| `Honeypot.Plc.StoreBlock` | honeypots/Siemens/honeypot.py:94-97 | the write loop leaves the registers equal to `WriteBlock` of the old ones |
| `Honeypot.Plc.HandleWriteMultiple` | honeypots/Siemens/honeypot.py:89-101 | all or nothing: with a locked address in the range the registers and sessions stay as they were and the blocked values are logged; otherwise the registers become `WriteBlock` of the old ones, one session entry is appended and one line logged |
| `Honeypot.Plc.HandleDeviceId` | honeypots/Siemens/honeypot.py:103-113 | the loop builds exactly `DeviceIdReply` of the configured identity |
| `Honeypot.Plc.HandleReportSlaveId` | honeypots/Siemens/honeypot.py:115-120 | returns `SlaveIdReply` of the configured identity |
| `Honeypot.Plc.Dispatch` | honeypots/Siemens/honeypot.py:132-179 | an undecodable frame changes nothing and gets no reply; a decoded one gets the handler's reply, and registers, sessions and audit log change exactly as that handler prescribes |
| `ModbusClient.BuildModbusRequest` | honeypots/Siemens/test.py:3-6 | the request exists exactly when every argument fits its field (`to_bytes` and `bytes` raise otherwise); it is 12 bytes, with the unit id at byte 6 and the function code at byte 7 |
| `ModbusClient.RequestLayout` | honeypots/Siemens/test.py:3-6 | the request exists iff every argument fits its field; it is 12 bytes: tid, zero protocol id, length 6 (= 5-byte PDU + unit id), unit id, code, start, count |
| `ModbusClient.RequestRoundTrip` | honeypots/Siemens/test.py:3-6 | the server decodes the client's request back to its tid, unit id, code, start and count; 0x10 requests are dropped (no byte 12) and 0x2B ones reach the handler iff the start's high byte is 0x0E |
| `ModbusClient.ScriptRequest` | honeypots/Siemens/test.py:10 | the script's request is 00 01 00 00 00 06 01 01 00 00 00 08, and its reply is 10 bytes with one coil data byte |
| `ModbusClient.CoilPackingExample` | honeypots/Siemens/honeypot.py:66-75 | coils 1,0,1,0,0,0,0,0 are answered with the data byte 0x05 |
| `NtpParser.WordLen` | ntp-parser/parse_ntplogs_loop.py:47 | the run at the front of a string is whitespace-free and ends at whitespace or the end |
| `NtpParser.Split` | ntp-parser/parse_ntplogs_loop.py:47 | every token of `split()` is non-empty and free of whitespace |
| `NtpParser.SplitJoin` | ntp-parser/parse_ntplogs_loop.py:47 | splitting well-formed tokens joined by single spaces gives the tokens back |
| `NtpParser.SplitWord` | ntp-parser/parse_ntplogs_loop.py:47 | a whitespace-free non-empty string splits into itself |
| `NtpParser.SplitAtSpace` | ntp-parser/parse_ntplogs_loop.py:47 | splitting at any whitespace character splits the two sides independently; with SplitWord this determines `split()` as the maximal whitespace-free runs in order |
| `NtpParser.Strip` | ntp-parser/parse_ntplogs_loop.py:47 | `strip()` returns a middle part of the line that neither starts nor ends with whitespace, with only whitespace around it |
| `NtpParser.LoopbackAddresses` | ntp-parser/parse_ntplogs_loop.py:56-57 | every address beginning with `127.` is local; `1270.…`, `10.127.…` and `127` are not |
| `NtpParser.ParseHex` | ntp-parser/parse_ntplogs_loop.py:59 | a status that parses is non-empty, negative only with a leading minus, and at most 0 with one |
| `NtpParser.HexRoundTrip` | ntp-parser/parse_ntplogs_loop.py:59 | `int(s, 16)` reads the lower-case hex digits of n back as n, and with a leading minus as -n |
| `NtpParser.ConfigFlagLastDigit` | ntp-parser/parse_ntplogs_loop.py:59-61 | a status that parses has the CONFIG bit set iff its last hex digit is odd |
| `NtpParser.DecimalRoundTrip` | ntp-parser/parse_ntplogs_loop.py:67-68 | the decimal digits of n read back as n |
| `NtpParser.ParseSeconds` | ntp-parser/parse_ntplogs_loop.py:68 | a seconds field that parses is non-empty, negative only with a leading minus, and at most 0 with one |
| `NtpParser.SecondsOfDecimal` | ntp-parser/parse_ntplogs_loop.py:67-68 | `int(float(s))` of digits, with or without a fraction, is the integer part: the fraction is dropped, not rounded |
| `NtpParser.NegativeSecondsOfDecimal` | ntp-parser/parse_ntplogs_loop.py:68 | with a minus sign the integer part is negated (truncation toward zero) |
| `NtpParser.SecondsRoundTrip` | ntp-parser/parse_ntplogs_loop.py:67-68 | the decimal form of n seconds, with any fraction, reads back as n |
| `NtpParser.TimeOfDay` | ntp-parser/parse_ntplogs_loop.py:69 | the time of day is a valid h:m:s whose second count is the seconds modulo 86400 |
| `NtpParser.TimeOfDayInverse` | ntp-parser/parse_ntplogs_loop.py:69 | every valid time of day is exactly the time of its own second count |
| `NtpParser.ParseLine` | ntp-parser/parse_ntplogs_loop.py:44-72 | fewer than 4 tokens stores nothing; an accepted line has a non-loopback ip (token 2), a hex status (token 3) without CONFIG, seconds (token 1) within datetime range, the timestamp today at that time of day, and the stripped line as its raw log |
| `NtpParser.ParseLineAccepts` | ntp-parser/parse_ntplogs_loop.py:44-72 | a line that passes every filter is accepted |
| `NtpParser.ParseLineRejects` | ntp-parser/parse_ntplogs_loop.py:53-69 | a loopback ip, a non-hex status, a status with the CONFIG flag, or a non-numeric or negative seconds field each drop the line |
| `NtpParser.AddToSet` | ntp-parser/parse_ntplogs_loop.py:84 | `$addToSet` keeps the old array as a prefix, contains the value, adds at most one element, and does not add a second copy |
| `NtpParser.UpsertRequest` | ntp-parser/parse_ntplogs_loop.py:72-75 | the record under (timestamp, ip) is created or overwritten with the line's fields; other records are unchanged |
| `NtpParser.UpsertAttacker` | ntp-parser/parse_ntplogs_loop.py:79-87 | last_seen is set; first_seen is set only on insert; services gain "ntp" (just ["ntp"] on insert); other addresses are unchanged |
| `NtpParser.StoreLineEffect` | ntp-parser/parse_ntplogs_loop.py:44-87 | a dropped line writes nothing; an accepted one adds exactly its request key and its attacker key, and sets last_seen |
| `NtpParser.StoreLine` | ntp-parser/parse_ntplogs_loop.py:72-87 | processing a line never removes a request record or an attacker record |
| `NtpParser.UpsertRequestTwice` | ntp-parser/parse_ntplogs_loop.py:75 | upserting the same request twice equals upserting it once |
| `NtpParser.UpsertAttackerTwice` | ntp-parser/parse_ntplogs_loop.py:79-87 | updating the same attacker twice at the same time equals doing it once |
| `NtpParser.StoreLineIdempotent` | ntp-parser/parse_ntplogs_loop.py:72-87 | processing the same line twice leaves the collections as processing it once |
| `NtpParser.NtpListedOnce` | ntp-parser/parse_ntplogs_loop.py:84 | after an accepted line the source's services list "ntp" exactly once, unless another writer already listed it twice |
| `NtpParser.NtpStore.constructor` | ntp-parser/parse_ntplogs_loop.py:27-28 | the store starts from the given collections |
| `NtpParser.NtpStore.ParseAndStoreLine` | ntp-parser/parse_ntplogs_loop.py:44-91 | the collections become `StoreLine` of the old ones: both upserts for an accepted line, nothing otherwise |

## Left out

- Sockets, `accept`, `recv`, `sendall` and `close` (honeypot.py:123-135, 184; test.py:8-17) are I/O. `Dispatch` takes the received bytes and returns the reply. The 1024-byte cap of `recv` is not modelled: any frame length is accepted.
- The daemon thread, `threading.Lock` and `time.sleep` are left out. Each handler and each tick is one atomic method, so the model makes no concurrency claim.
- Loading `registers.json` is file I/O. The device identity, the initial registers and coils, and the ramp rules are constructor parameters.
- `log_event` writes a file, and `datetime.now()` reads the clock. Both are modelled abstractly: the log is a sequence of audit events, and the time is a `now` parameter. The `print` debugging output is left out.
- Coil values other than 0 and 1 are not modelled: coils are booleans. A configured value such as 2 would make `int(bits, 2)` raise, and the model does not capture that.
- Device identity strings are given as their encoded bytes. UTF-8 encoding is not modelled, and neither are non-string configuration values.
- The MongoDB client and its errors are left out. So are the `follow` tail loop and the file loop (parse_ntplogs_loop.py:24-42, 95-103), and logging. A failure between the two upserts is not modelled.
- `datetime.utcnow().date()` is the `today` parameter. Calendar validity of that date is not modelled.
- NtpParser.ParseSeconds: `float()` accepts more than the model does. The model accepts an optional sign, digits and an optional fraction. Exponents, underscores, `inf`/`nan`, surrounding whitespace and non-ASCII digits are not modelled; the model treats them as unparsable. The model also ignores binary rounding: `float()` rounds to the nearest double, so a literal whose fraction lies within about 2^-53 times its value of the next integer becomes that integer (`int(float("86399.999999999999"))` is 86400), where the model keeps the integer part (86399).
- NtpParser.ParseHex: non-ASCII Unicode digits accepted by `int()` are not modelled.
- The SSH session parser (ssh-parser/parse_ttylogs_loop.py) is not part of this model. It is filesystem globbing, MongoDB and a thread pool, with float timing. The React frontend (frontend/src/App.js) is not part of this model either.
