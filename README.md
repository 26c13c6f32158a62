# go-telnet IAC engine in Dafny

This project models the TELNET protocol engine of `telnet.go` (package `gote`), which wraps a
`net.Conn`. Bytes from the transport accumulate in an inbound buffer `bIn`. The `process` loop
forwards payload to `bOut`, where the application's `Read` finds it. At the first IAC (0xFF)
the loop hands over to `processIAC`, which does one of three things:
- collapses an escaped `IAC IAC` into one data byte;
- answers a complete WILL/WONT/DO/DONT negotiation from a fixed table;
- otherwise leaves the bytes where they are.

`Write` doubles every 0xFF before handing the buffer to the transport. This is the IAC
command structure of RFC 854, with the Binary Transmission option (RFC 856) and the Suppress
Go Ahead option (RFC 858). The engine accepts only two option requests:
- WILL SGA, answered with DO;
- DO BIN, answered with WILL.

Layout:
- `wrappers.dfy`: `Option`.
- `telnet.dfy` (module `Telnet`): the command and option codes, `IndexByte`, `Escape` with its
  size law, and the negotiation table `Response`.
- `pump.dfy` (module `Pump`): the engine as a pure state machine over
  `State(bIn, bOut, sent)`. `sent` logs the buffers handed to the transport. The module also
  holds `Decode`, an independent byte-by-byte reading of a fully available input, and the
  proofs that pumping delivers exactly what `Decode` reads.
- `conn.dfy` (module `Connection`): class `Conn` with the three buffers as fields. The engine
  methods `Step` (one iteration of the `process` loop), `ProcessIAC`, `ParseCommand`, `Will`,
  `Dont`, `Do` and `Wont` each state their new state through the `Pump` functions. `Write`
  states the buffer it sends and the count it returns through `Telnet.Escape` and
  `Telnet.CountIac`. `Read` states directly which bytes it takes from the front of `bOut`.
- `literal_write.dfy` (module `LiteralWrite`): the escaping loop of `Write` exactly as written,
  which never ends on input containing 0xFF (see Findings).

Three behaviours of the code worth knowing:
- `Read` neither blocks nor caches an error. It is `bytes.Buffer.Read`.
- `Write` returns the transport's count for the escaped buffer, not the caller's length.
- An IAC followed by an unhandled command (NOP, GA, SB, ...) is not passed over. It stays at
  the head of `bIn` for good, and so does everything behind it.

## Model

| member | source | states |
|---|---|---|
| Telnet.IndexByte | telnet.go:122 | the result is -1 exactly when the byte is absent, otherwise the index of its first occurrence |
| Telnet.Escape | telnet.go:253-255 | escaping grows the payload by exactly the number of 0xFF bytes it contains |
| Telnet.EscapeIdentity | telnet.go:49-51 | escaping leaves a payload unchanged exactly when it contains no 0xFF |
| Telnet.CountIacZero | telnet.go:265-267 | the count Write returns, len(b) plus the 0xFF count, equals len(b) exactly when b has no 0xFF |
| Telnet.EscapeAppend | telnet.go:257-264 | escaping works byte by byte: the escape of a concatenation is the concatenation of the escapes |
| Telnet.Response | telnet.go:192-251 | WILL, DO and DONT get a three-byte IAC reply on the same option, WONT gets none, DONT is always answered with WONT, and the reply accepts (DO or WILL) only WILL SGA and DO BIN |
| Telnet.NegotiationTable | telnet.go:194-251 | the policy row by row: WILL SGA gives 255 253 3, other WILL gives 255 254 opt, DO BIN gives 255 251 0, other DO gives 255 252 opt, DONT gives 255 252 opt, WONT gives nothing |
| Pump.Step | telnet.go:120-130 | a loop iteration only appends to bOut and to the transport log, and only consumes a prefix of bIn |
| Pump.ProcessIacDropsHead | telnet.go:149-163 | processIAC removes nothing or a prefix from bIn and only appends to bOut and to the transport log |
| Pump.StepAtIac | telnet.go:122-128 | with the first IAC at index i, an iteration forwards the i bytes before it to bOut and then runs processIAC on the rest |
| Pump.DecodeStops | telnet.go:146-163 | decoding a complete input stops only at nothing or at a held command: a lone IAC, an incomplete negotiation or an unhandled command, and never holds more than its input |
| Pump.EscapedIac | telnet.go:157-161 | IAC IAC followed by rest puts exactly one 0xFF on bOut, leaves rest in bIn and sends nothing |
| Pump.TooFewBytes | telnet.go:150-153 | with at most one byte in bIn, processIAC changes nothing |
| Pump.IncompleteNegotiationHeld | telnet.go:194-198 | IAC and a negotiation command without its option byte is neither consumed nor answered |
| Pump.UnrecognisedCommand | telnet.go:167-189 | IAC and a command without a handler leaves the whole state unchanged |
| Pump.NopHeld | telnet.go:167-189 | IAC NOP, whatever follows it, is an unhandled command and an iteration leaves the state unchanged |
| Pump.ExactConsumption | telnet.go:194-251 | a complete negotiation consumes exactly three bytes, leaves bOut alone and sends at most one three-byte message starting with IAC, namely the table's reply |
| Pump.StepProgress | telnet.go:118-130 | a loop iteration changes nothing exactly when bIn is empty or holds a lone IAC, an incomplete negotiation or an unhandled command at its head; otherwise bIn shrinks |
| Pump.StalledForever | telnet.go:118-143 | a held command stays at the head of bIn however many iterations run |
| Pump.ProcessIacKeepsOutcome | telnet.go:149-163 | processing an IAC never changes the payload and replies that the input eventually yields |
| Pump.ForwardKeepsOutcome | telnet.go:125-127 | forwarding the bytes before the first IAC to bOut keeps what the input eventually yields |
| Pump.StepKeepsOutcome | telnet.go:120-130 | every byte is classified once and in order: an iteration preserves bOut plus the payload still to be decoded, and likewise for sent |
| Pump.RunReachesOutcome | telnet.go:118-130 | after at least len(bIn) iterations, bOut is the old bOut followed by the decoded payload, sent is the old log followed by the decoded replies, and bIn holds exactly the bytes decoding stops at |
| Pump.DecodeEscape | telnet.go:157-161 | unescaping undoes escaping: an escaped payload decodes to itself with no replies and nothing held |
| Pump.PumpDeliversEscaped | telnet.go:146-161 | pumping an escaped payload delivers exactly that payload to bOut and sends nothing |
| Pump.DecodeByUnit | telnet.go:146-163 | decoding reads one unit at the head (a data byte, IAC IAC or a complete negotiation) and then the rest; with no such unit it holds the whole input |
| Pump.FirstUnitAppend | telnet.go:150-163 | a complete unit at the head of the input stays the same unit, of the same length, whatever bytes arrive after it |
| Pump.DecodeAppend | telnet.go:118-163 | decoding a + b yields decoding a, then decoding the bytes a held back followed by b: payload and replies concatenate and the held bytes are those of the second decoding |
| Pump.OutcomeAppend | telnet.go:118-130 | appending b to the bytes a pumped state holds gives the same eventual outcome as appending b before pumping |
| Pump.SplitReadPumpsAlike | telnet.go:116-130 | pumping a, appending b to the held bytes and pumping again ends in the same state as pumping a + b in one piece, so a held IAC is processed once its remaining bytes arrive |
| Pump.EscapedIacThenData | telnet_test.go:21-23 | the input 255 255 23 yields payload 255 23 |
| Pump.PayloadBeforeCommand | telnet_test.go:202-231 | 1..6 followed by IAC DO ECHO forwards 1..6 and replies IAC WONT ECHO in one iteration |
| Pump.LoneIacHeld | telnet.go:150-153 | a lone IAC is neither forwarded nor consumed |
| Pump.HeldIacReprocessed | telnet.go:154-161 | once the second IAC arrives, the pair becomes one data byte |
| LiteralWrite.WriteLoopNeverEnds | telnet.go:257-264 | the loop as written never finishes, for any number of iterations, once a 0xFF lies at or after the index |
| LiteralWrite.WriteOfIacHangs | telnet.go:257-264 | writing the single byte 0xFF never reaches the transport |
| LiteralWrite.WriteLoopWithoutIac | telnet.go:257-264 | without 0xFF in the input the loop as written ends and agrees with Escape |
| Connection.Conn.constructor | telnet.go:110-114 | both buffers start empty and nothing has been sent |
| Connection.Conn.Read | telnet.go:104-106 | Read removes min(size, len(bOut)) bytes from the front of bOut and returns them, reporting end of file only when bOut was empty and size > 0 |
| Connection.Conn.Step | telnet.go:120-130 | the new state is Pump.Step of the old one |
| Connection.Conn.ProcessIAC | telnet.go:149-163 | the new state is Pump.ProcessIac of the old one |
| Connection.Conn.ParseCommand | telnet.go:167-190 | the new state is Pump.ParseCommand of the old one, given the two bytes the source indexes |
| Connection.Conn.Will | telnet.go:194-208 | WILL is answered from the table (DO for SGA, DONT otherwise) and consumes three bytes, or waits for the option |
| Connection.Conn.Dont | telnet.go:212-221 | DONT is answered with WONT and consumes three bytes, or waits for the option |
| Connection.Conn.Do | telnet.go:225-240 | DO is answered from the table (WILL for BIN, WONT otherwise) and consumes three bytes, or waits for the option |
| Connection.Conn.Wont | telnet.go:244-251 | WONT consumes three bytes without a reply, or waits for the option |
| Connection.Conn.Write | telnet.go:256-268 | one buffer, Escape(b), goes to the transport, and the count returned is its length, len(b) plus the number of 0xFF |
| Connection.EscapeLoopStep | telnet.go:257-264 | one iteration of the escaping loop, with the index stepping past the inserted copy, escapes exactly one more byte of the caller's input |

## Left out

- `Dial` and `dial` (telnet.go:87-100): connecting, printing and starting the goroutine are I/O and concurrency.
- The `io.Copy` goroutine that fills `bIn`, the `quit` channel and the 100 ms sleep of `process` (telnet.go:116, 132-142) are timing and concurrency. The model has one loop iteration (`Step`) and its repetition without new input (`Pump.Run`).
- The unsynchronised sharing of `bIn` and `bOut` between goroutines, and `bOut` being nil until `process` runs, are concurrency concerns.
- `Close`, `LocalAddr`, `RemoteAddr`, `SetDeadline`, `SetReadDeadline` and `SetWriteDeadline` (telnet.go:273-308) pass straight through to `net.Conn`.
- The aliasing of the caller's slice by Go's `append` in `Write`: the model escapes a value sequence.
- Connection.Conn.Write: the transport is assumed to accept the whole escaped buffer without error. Short writes and transport errors are not modelled, so the count returned is the escaped length.
- Connection.Conn.Read: `bytes.Buffer.Read` also resets its storage when empty. Only the observable contents are modelled.
- Option state tracking of the RFC 1143 kind is absent from the code: replies come from a stateless table, and so they do in the model.
- The handlers take the window `bIn.Bytes()` as a parameter. In the model they read `bIn` directly, which holds the same bytes.
- mocks.go is a `net.Conn` mock over `bytes.Buffer` without logic. example_test.go is a live-network example. Neither is part of this model.

## Findings

| source | as written | input that shows it | evidently intended | confidence | as-written member | corrected member |
|---|---|---|---|---|---|---|
| telnet.go:257-264 | after inserting a copy of 0xFF at i, the index advances by one and lands on the original 0xFF, which is copied again, forever | any b containing 0xFF, e.g. `[0xFF]` | step past the inserted copy, so that every 0xFF is doubled exactly once (the promise at telnet.go:49-51 and 253-255) | high, not executed | LiteralWrite.WriteLoopNeverEnds | Connection.Conn.Write |
