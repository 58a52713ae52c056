# NTP client model

A Dafny model of the NTP client in `ntpclient/` of the Qt sample codes. It has four parts.

- **Packet codec** (`ntppackage.dfy`, module `NtpPackage`).
  - Reads 32-bit big-endian words.
  - Converts between milliseconds since 1900 and the 8-byte NTP timestamp: 32-bit seconds followed by a 32-bit binary fraction, as in section 6 of RFC 5905.
  - Builds the request and parses the 48-byte response, with the header layout of section 7.3 of RFC 5905. The transmit timestamp is copied into the request as a C string, so the request is 48 bytes long only when that timestamp has no zero byte.
  - Computes the four-timestamp clock offset of section 8 of RFC 5905.
  - Checks the echoed origin bytes.
- **Per-server client** (`ntpclient.dfy`, module `NtpClient`).
  - `NTPClient` as a pure transition function over its fields.
  - The socket is a flag, and each timer is either stopped or running with the interval it was armed with.
  - The events are start, connected, socket error, datagram received, and a timer firing.
- **Coordinator** (`ntptimestamp.dfy`, module `NtpTimeStamp`).
  - `NTPTimeStamp`'s client map is a sequence of slots, each pairing a client with its completion flag.
  - It models the trimmed-mean aggregation of the finished clients' offsets, the "clock plus offset once synchronised" query, and the reset on a local-time change.
- **Drift watchdog** (`ntpnotifier.dfy`, module `NtpNotifier`).
  - One iteration of `NTPNotifier::run` is a step from the predicted clock reading and the actual reading.
  - The step gives the next prediction, whether a local-time change is signalled, and the sleep length.

`common.dfy` (module `Common`) holds the fixed-width integer types the source declares. It also holds C++ truncating division and the two's-complement reinterpretation casts `qint8(char)` and `qint32(quint32)`.

Every clock reading is a parameter: `unixNow`, the value of `QDateTime::currentMSecsSinceEpoch()`. The model adds `MS_JAN_1970` to it, as the source does.

The aggregation keeps two quirks of the source, and the lemmas pin both against a reference trimmed mean:

- The maximum accumulator starts at 0, so with all offsets negative the value removed as the maximum is 0.
- When exactly 8 values remain after trimming, the source uses an arithmetic right shift by 3. That is floor division, not C's truncating division.

Two further facts about the aggregation:

- The shift by 3 applies when ten clients are valid, so 8 remain after trimming.
- A finished notification sets the synchronised flag even when no client is valid. The stored offset is then 0.

The model follows the code as written in the request encoder, whose timestamp copy can stop early; see "## Findings".

## Model

| member | source | states |
|---|---|---|
| Common.TruncDiv | ntpclient/ntppackage.cpp:180 | the quotient of C++ integer division for a positive divisor: the remainder lies strictly within one divisor and has the dividend's sign |
| Common.AsInt8 | ntpclient/ntppackage.cpp:156 | reading a byte as `qint8` gives the signed value with the same low eight bits |
| Common.Int8RoundTrip | ntpclient/ntppackage.cpp:108 | writing a signed precision as `& 0xff` and reading it back as `qint8` gives the original value |
| Common.AsInt32 | ntpclient/ntppackage.cpp:157-158 | `qint32` of a `quint32` is the signed value congruent to it modulo 2^32 |
| Common.Bound | ntpclient/ntpclient.cpp:173 | `qBound` result lies in the range; it is the input when the input is in range and the nearer end otherwise |
| NtpPackage.ByteToUInt32 | ntpclient/ntppackage.cpp:34-44 | the shift-and-add loop over four bytes, reduced modulo 2^32 at each step, yields the big-endian value `Σ b[i]·256^(3−i)` and never wraps |
| NtpPackage.UInt32AtIsBigEndian | ntpclient/ntppackage.cpp:157-159 | the `quint32` read from `bytes.mid(k, 4)` is the reference big-endian value of those four bytes |
| NtpPackage.NtpNow | ntpclient/ntppackage.cpp:28-29 | the NTP clock is the Unix reading plus 70 years of 365 days and 17 leap days in milliseconds, the value of `MS_JAN_1970` |
| NtpPackage.BigEndian4 | ntpclient/ntppackage.cpp:34-44 | four bytes read big-endian are `((b0·256+b1)·256+b2)·256+b3`, below 2^32 |
| NtpPackage.BE32 | ntpclient/ntppackage.cpp:60-67 | the four `>> n & 0xff` bytes of a 64-bit value read back big-endian as that value modulo 2^32, negative values included |
| NtpPackage.BE32Value | ntpclient/ntppackage.cpp:60-63 | the four bytes are the value's `>> 24`, `>> 16`, `>> 8` and `>> 0` each masked with `0xff`, and they read back as the value modulo 2^32 |
| NtpPackage.FractionField | ntpclient/ntppackage.cpp:57 | for a non-negative time the fraction fits in 32 bits and is the floor of the millisecond remainder times 2^32/1000 |
| NtpPackage.Pack | ntpclient/ntppackage.cpp:59-69 | eight bytes whose first word reads back as the seconds and second word as the fraction, each modulo 2^32 |
| NtpPackage.MsToByte64 | ntpclient/ntppackage.cpp:54-70 | exactly 8 bytes; bytes 0–3 read back as the truncated seconds modulo 2^32; for a non-negative time, bytes 4–7 are the floor of the millisecond remainder times 2^32/1000 |
| NtpPackage.Byte64ToMs | ntpclient/ntppackage.cpp:46-52 | every 8-byte timestamp decodes to a millisecond count in [0, 1000·2^32) |
| NtpPackage.Byte64ToMsFields | ntpclient/ntppackage.cpp:46-52 | the decoded count divided by 1000 is the seconds field, and its millisecond part is the fraction field scaled to milliseconds and floored |
| NtpPackage.TimestampRoundTrip | ntpclient/ntppackage.cpp:46-70 | decoding an encoded time in [0, 1000·2^32) returns it when its millisecond part is a multiple of 125, and one millisecond less otherwise |
| NtpPackage.HeaderFieldsCover | ntpclient/ntppackage.cpp:151-153 | every header byte splits into leap < 4, version < 8 and mode < 8, which re-encode to that byte |
| NtpPackage.HeaderByte | ntpclient/ntppackage.cpp:105 | for leap < 4, version < 8 and mode < 8, byte 0 is `li·64 + vn·8 + mode`: the OR of `li << 6`, `vn << 3` and `mode` overlaps no bits, and the `char` cast loses none |
| NtpPackage.LeapOf | ntpclient/ntppackage.cpp:151 | `>> 6 & 0x3` gives a leap indicator below 4 |
| NtpPackage.VersionOf | ntpclient/ntppackage.cpp:152 | `>> 3 & 0x7` gives a version below 8 |
| NtpPackage.ModeOf | ntpclient/ntppackage.cpp:153 | `& 0x7` gives a mode below 8 |
| NtpPackage.FieldsOr | ntpclient/ntppackage.cpp:105 | the leap, version and mode fields shifted into place and OR-ed give `li·64 + vn·8 + mode`, for every leap < 4, version < 8 and mode < 8 |
| NtpPackage.HeaderRoundTrip | ntpclient/ntppackage.cpp:151-153 | for leap < 4, version < 8 and mode < 8, the header byte gives those three fields back |
| NtpPackage.CStrLen | ntpclient/ntppackage.cpp:142 | the length `replace` measures with `qstrlen`: no zero byte before it, and a zero byte at it unless it is the whole length |
| NtpPackage.Terminated | ntpclient/ntppackage.cpp:142 | the C-string copy of a byte sequence into a zero-filled buffer: the bytes before the first zero byte, then zeros |
| NtpPackage.TerminatedExact | ntpclient/ntppackage.cpp:142 | the copy reproduces a sequence exactly when only zeros follow its first zero byte, in particular when it has no zero byte |
| NtpPackage.OneMsPastSecond | ntpclient/ntppackage.cpp:57-67 | a time one millisecond past a whole second encodes its fraction as 0x00, 0x41, 0x89, 0x37 and so does not survive the C-string copy |
| NtpPackage.ToByteArrayFullStamp | ntpclient/ntppackage.cpp:103-146 | the intended request: 48 bytes with header, stratum, poll, signed precision, 36 zero bytes and the whole encoded send time at 40–47, equal to the kept echo bytes |
| NtpPackage.ToByteArray | ntpclient/ntppackage.cpp:101-147 | the request as written: header bytes and 36 zero bytes, then the encoded send time only up to its first zero byte; 48 bytes exactly when the send time's encoding has no zero byte; all 8 bytes kept as the echo bytes, and nothing else in the packet changes |
| NtpPackage.Datagram | ntpclient/ntpclient.cpp:217 | `write(bytes, 48)` puts 48 bytes on the wire: the array, then zeros from the 48-byte buffer past its end |
| NtpPackage.RequestDatagram | ntpclient/ntppackage.cpp:103-146 | the datagram of a request is the intended request with bytes 40–47 replaced by the C-string copy of the send time, and equals it exactly when the send time's encoding survives the copy |
| NtpPackage.DefaultRequestHeader | ntpclient/ntppackage.cpp:74-81 | the constructor's packet starts with 0x1B, 0, 4, 0xFA |
| NtpPackage.DefaultRequestHeaderFull | ntpclient/ntppackage.cpp:74-81 | the corrected encoder writes the same four header bytes for the constructor's packet |
| NtpPackage.SentRequest | ntpclient/ntppackage.cpp:103-146 | the 48-byte datagram of a request is, as one sequence, the intended first 40 bytes followed by the C-string copy of the send time |
| NtpPackage.Parse | ntpclient/ntppackage.cpp:149-166 | each field comes from its place in the 48 bytes: leap below 4 and version and mode below 8; stratum and poll are bytes 1 and 2; precision is byte 3 as a signed byte; root delay and root dispersion are the words at 4 and 8 read as signed 32-bit; the reference id is the word at 12; the reference, origin, receive and transmit times decode bytes 16–23, 24–31, 32–39 and 40–47; the echo bytes are exactly bytes 24–31; the local time is the clock reading |
| NtpPackage.ParseOffset | ntpclient/ntppackage.cpp:160-180 | the offset of a parsed reply halves, truncating toward zero, the sum formed from bytes 32–39 less bytes 24–31 plus bytes 40–47 less the clock reading at parse time |
| NtpPackage.ParseHeader | ntpclient/ntppackage.cpp:151-153 | the parsed leap, version and mode re-encode to byte 0, so the three masks lose no bit of it |
| NtpPackage.RequestHeaderRoundTrip | ntpclient/ntppackage.cpp:151-156 | parsing the datagram of a request recovers its leap, version, mode, stratum, poll and precision when the header fields fit |
| NtpPackage.ParseZeroFields | ntpclient/ntppackage.cpp:157-164 | bytes 4–39 all zero parse to zero delay, dispersion, reference id, and reference, origin and receive times, with eight zero echo bytes |
| NtpPackage.CopiedStampDecodes | ntpclient/ntppackage.cpp:163 | bytes 40–47 holding the copy of an encoded time decode as the copy, and as the time or one millisecond less when the encoding survives the copy |
| NtpPackage.RequestTransmitRoundTrip | ntpclient/ntppackage.cpp:139-163 | the transmit time parsed from a request's datagram is the decoded copy of its send time, and the send time or one millisecond earlier when the encoding survives the copy |
| NtpPackage.RequestParseRoundTrip | ntpclient/ntppackage.cpp:101-166 | parsing a request's datagram recovers the header, reads zero in every field the request leaves unset, and recovers the send time to within one millisecond when its encoding survives the copy |
| NtpPackage.CalcOffset | ntpclient/ntppackage.cpp:168-181 | twice the offset is `t1 − t0 + t2 − t3` up to a remainder of 1 on the side of zero, which is truncating division by 2 |
| NtpPackage.CalcOffsetSymmetricDelay | ntpclient/ntppackage.cpp:175-178 | with equal delay each way, the computed offset is the true clock offset |
| NtpPackage.CalcOffsetExamples | ntpclient/ntppackage.cpp:180 | t0=1000, t1=1050, t2=1060, t3=1010 gives 50, and a sum of −3 gives −1 |
| NtpPackage.CheckByOriginTimestamp | ntpclient/ntppackage.cpp:183-186 | true exactly when the echo bytes and the argument have the same length and agree byte for byte |
| NtpClient.NewClient | ntpclient/ntpclient.cpp:47-58 | a new client is not done, has no failures and no socket, and satisfies the client invariant |
| NtpClient.ResendDelay | ntpclient/ntpclient.cpp:171-174 | the delay is a table entry: 2000 for 0 or 1 failures, `table[n−1]` for 1 ≤ n ≤ 6, and 30000 from 6 on |
| NtpClient.ResendDelayMonotonic | ntpclient/ntpclient.cpp:35-43 | more failures never give a shorter resend delay |
| NtpClient.ResendDelayExamples | ntpclient/ntpclient.cpp:35-43 | failure counts 0, 1, 2, 6 and 100 wait 2000, 2000, 5000, 30000 and 30000 ms |
| NtpClient.ReleaseSocket | ntpclient/ntpclient.cpp:116-137 | the socket is closed and both timers stopped; no other field changes |
| NtpClient.NtpStart | ntpclient/ntpclient.cpp:154-169 | after a start the client is not done, has offset 0, has a fresh socket and only the 30000 ms timeout running, and keeps its failure count |
| NtpClient.NtpError | ntpclient/ntpclient.cpp:221-231 | one more failure, offset 0, not done, socket and timeout released, and only the resend timer armed, with the delay for the new count |
| NtpClient.NtpConnected | ntpclient/ntpclient.cpp:207-219 | the 48 bytes sent are the default request's first 40 bytes followed by the C-string copy of the send time's encoding; the client keeps all 8 bytes of that encoding as its origin bytes, and no other field changes |
| NtpClient.ConnectedHeader | ntpclient/ntpclient.cpp:209-217 | the request written starts 0x1B, 0, 4, 0xFA and has zeros in bytes 4–39 |
| NtpClient.NtpReadyRead | ntpclient/ntpclient.cpp:233-273 | the timeout is always stopped and the socket released, and finished is emitted exactly when the socket was live and the datagram is 48 bytes with its origin field equal to the kept bytes |
| NtpClient.TimerEvent | ntpclient/ntpclient.cpp:176-205 | a running timeout that fires is cleared and becomes an error; a running resend timer that fires is cleared and restarts the client; any other timer leaves the client unchanged |
| NtpClient.Step | ntpclient/ntpclient.cpp:154-273 | no event changes host or port, and finishing leaves the client done with no failures |
| NtpClient.StepPreservesInv | ntpclient/ntpclient.cpp:154-273 | every handler keeps the client invariant: done ⇒ no failures and nothing held; not done ⇒ offset 0; socket open ⇔ timeout running; resend running ⇒ socket closed and interval matches the count |
| NtpClient.WrongLengthFails | ntpclient/ntpclient.cpp:237-249 | any datagram not 48 bytes long stops the timeout and takes the error path without being decoded |
| NtpClient.OriginCheck | ntpclient/ntpclient.cpp:251-272 | a 48-byte response with matching origin bytes is accepted; with different ones it takes the error path |
| NtpClient.SuccessBookkeeping | ntpclient/ntpclient.cpp:253-260 | acceptance resets the failures, stores the response's `calcOffset`, sets done and releases the socket and both timers |
| NtpClient.FinishedOnlyOnAcceptance | ntpclient/ntpclient.cpp:253-260 | finished is emitted by one event kind only: a datagram accepted on a live socket |
| NtpClient.Acceptable | ntpclient/ntpclient.cpp:239-253 | a datagram is accepted exactly when it has 48 bytes and the response parsed from it passes `checkByOriginTimestamp` against the kept bytes, whatever the clock reads while parsing |
| NtpClient.EchoAccepted | ntpclient/ntpclient.cpp:251-253 | on a live socket a 48-byte reply emits finished exactly when its bytes 24–31 are the kept bytes |
| NtpClient.EchoCorrelation | ntpclient/ntpclient.cpp:209-217 | after the request goes out, a 48-byte reply is accepted exactly when its bytes 24–31 equal the kept bytes; that is exactly an echo of the bytes sent at 40–47 when the encoding survives the copy, and an echo of the bytes sent is rejected otherwise |
| NtpClient.EchoCheck | ntpclient/ntpclient.cpp:251-253 | the same three facts for any live client and any request whose bytes 40–47 are the copy of the kept bytes |
| NtpClient.CorrectEchoRejected | ntpclient/ntpclient.cpp:207-217 | for a request sent one millisecond past a whole second, every 48-byte reply that echoes the bytes sent at 40–47 is rejected and counted as a failure |
| NtpClient.FullStampEcho | ntpclient/ntpclient.cpp:209-217 | had the request carried the whole send time, a reply would be accepted exactly when it echoes bytes 40–47 of the request, for every clock reading |
| NtpClient.ReadyReadAccepts | ntpclient/ntpclient.cpp:233-260 | on a live socket a datagram emits finished exactly when it is 48 bytes with the kept origin bytes at 24–31 |
| NtpClient.UnwiredNeverFinishes | ntpclient/ntpclient.cpp:90-94 | with the datagram handler never connected, no run of the remaining events ever emits finished |
| NtpClient.WiredFinishes | ntpclient/ntpclient.cpp:207-260 | with the handler connected, sending the request and then receiving any 48-byte reply that carries the kept bytes emits finished exactly once |
| NtpClient.Run | ntpclient/ntpclient.cpp:154-273 | a sequence of events never changes the server a client talks to |
| NtpClient.RunPreservesInv | ntpclient/ntpclient.cpp:47-58 | the client invariant holds after every sequence of deliverable events |
| NtpClient.ReachableDoneFacts | ntpclient/ntpclient.cpp:159-160 | from construction, every reachable client has done ⇒ no failures and not done ⇒ offset 0 |
| NtpTimeStamp.Init | ntpclient/ntptimestamp.cpp:87-98 | one fresh client per configured server on port 123, each flag false, no result, and the coordinator invariant holds |
| NtpTimeStamp.DefaultInit | ntpclient/ntptimestamp.cpp:80-98 | `init` makes two clients, for time.cea.fr and time.intra.cea.fr, on port 123, unflagged, with no result and the invariant holding |
| NtpTimeStamp.CurrentMSTimestamp | ntpclient/ntptimestamp.cpp:44-49 | the clock plus the offset once synchronised, otherwise the clock |
| NtpTimeStamp.SyncTimestamp | ntpclient/ntptimestamp.cpp:123-132 | every flag is cleared and every client started once, in place |
| NtpTimeStamp.LocaltimeChanged | ntpclient/ntptimestamp.cpp:115-121 | no result, offset 0, every flag cleared and every client restarted |
| NtpTimeStamp.NtpFinished | ntpclient/ntptimestamp.cpp:134-211 | an absent or unknown sender changes nothing; otherwise only the sender's flag is set, the result is available regardless of other clients, and the offset is the aggregate of the new map |
| NtpTimeStamp.Deliver | ntpclient/ntptimestamp.cpp:94-95 | an event reaches one client only and the others are untouched; when that client emits finished, the connected slot runs for it: the result is available, its flag is set, and the offset is the aggregate of the new map; otherwise the flags, the result flag and the offset are unchanged |
| NtpTimeStamp.ValidOffsets | ntpclient/ntptimestamp.cpp:180-192 | no more values than clients, and each value is the offset of some client that is flagged and done |
| NtpTimeStamp.ValidOffsetsCount | ntpclient/ntptimestamp.cpp:180-192 | each value occurs among the averaged offsets exactly as many times as there are flagged, done clients holding it: one value per such client |
| NtpTimeStamp.LastContributor | ntpclient/ntptimestamp.cpp:180-192 | the last client in the map adds one to the count of contributors of a value exactly when it is flagged, done and holds that value |
| NtpTimeStamp.AccumulateOne | ntpclient/ntptimestamp.cpp:192-198 | one iteration adds the offset to the total and counts it; the new maximum is at least the old one and the offset and equal to one of them; likewise the new minimum is at most both and equal to one of them |
| NtpTimeStamp.Accumulate | ntpclient/ntptimestamp.cpp:175-199 | the count is the number of values; the maximum never drops below 0 and the minimum never exceeds INT64_MAX; every value lies between the minimum and the maximum |
| NtpTimeStamp.Average | ntpclient/ntptimestamp.cpp:201-211 | no values give 0; with ten values the trimmed total lies in `[8·r, 8·r + 8)`, which is rounding down; otherwise the trimmed or untrimmed total is the count times the result plus a remainder smaller than the count and of the total's sign, which is truncation toward zero |
| NtpTimeStamp.Aggregate | ntpclient/ntptimestamp.cpp:175-211 | with no valid client the stored offset is 0, and with exactly one it is that client's offset |
| NtpTimeStamp.OneValue | ntpclient/ntptimestamp.cpp:209-211 | a single value is averaged to itself |
| NtpTimeStamp.AccumulateSummary | ntpclient/ntptimestamp.cpp:175-199 | the loop's total is the sum and its count the number of values; its maximum is the larger of 0 and the true maximum, and its minimum the smaller of INT64_MAX and the true minimum |
| NtpTimeStamp.AverageIsTrimmedMean | ntpclient/ntptimestamp.cpp:201-211 | when neither quirk can show, the stored offset is the mean truncated toward zero, without one largest and one smallest value when more than two |
| NtpTimeStamp.MeanCases | ntpclient/ntptimestamp.cpp:201-211 | over any accumulators holding the sum, the larger of 0 and the maximum, the minimum and the count, the averaging step gives the trimmed mean when the maximum is non-negative and the shift at ten meets no negative total that is not a multiple of 8 |
| NtpTimeStamp.MaxStartsAtZero | ntpclient/ntptimestamp.cpp:176 | with more than two values, all negative, the result is the sum minus only the minimum, divided by the count minus two |
| NtpTimeStamp.ZeroMaxAverage | ntpclient/ntptimestamp.cpp:201-211 | with more than two values, other than ten, and a maximum left at 0, the result is the total less the minimum divided toward zero by the count less two |
| NtpTimeStamp.NegativeSummary | ntpclient/ntptimestamp.cpp:175-199 | over negative values the loop ends with the sum, maximum 0, the true minimum and the count |
| NtpTimeStamp.TrimmedAverage | ntpclient/ntptimestamp.cpp:201-211 | above two values, other than ten, the result is the trimmed total divided toward zero by the count less two |
| NtpTimeStamp.TenValues | ntpclient/ntptimestamp.cpp:201-210 | with ten values the result is the sum less the larger of 0 and the maximum less the minimum, divided by 8 rounding down |
| NtpTimeStamp.InRangeSummary | ntpclient/ntptimestamp.cpp:175-199 | over values within 64 bits the loop ends with the sum, the larger of 0 and the maximum, the minimum and the count |
| NtpTimeStamp.UntrimmedAverage | ntpclient/ntptimestamp.cpp:209-211 | with one or two values the result is the total divided toward zero by the count |
| NtpTimeStamp.ShiftedAverage | ntpclient/ntptimestamp.cpp:201-210 | with count ten the trimmed total is shifted right by 3 |
| NtpTimeStamp.ShiftMatchesTruncation | ntpclient/ntptimestamp.cpp:209-210 | the shift by 3 equals C division by 8 exactly when the total is non-negative or a multiple of 8, and is one lower otherwise |
| NtpTimeStamp.ThreeValuesExample | ntpclient/ntptimestamp.cpp:201-207 | {10, 20, 30} gives 20 |
| NtpTimeStamp.AllNegativeExample | ntpclient/ntptimestamp.cpp:176 | {−10, −20, −30} gives −30 where the trimmed mean is −20 |
| NtpTimeStamp.FewValuesExample | ntpclient/ntptimestamp.cpp:209-211 | {15, 25} gives 20, {−7} gives −7, no values give 0 |
| NtpTimeStamp.ShiftQuirkExample | ntpclient/ntptimestamp.cpp:209-210 | ten values with trimmed total −7 give −1, where truncation gives 0 |
| NtpTimeStamp.FinishedSenderCounts | ntpclient/ntptimestamp.cpp:150-199 | the client whose success is delivered is flagged, done, and its offset is among the averaged values |
| NtpTimeStamp.ResetQuery | ntpclient/ntptimestamp.cpp:115-121 | right after a local-time change the query returns the unadjusted clock |
| NtpTimeStamp.LocaltimeChangedPreservesInv | ntpclient/ntptimestamp.cpp:115-132 | the reset keeps the coordinator invariant: no result ⇒ offset 0, a result ⇒ some flag set, every client keeps its invariant |
| NtpTimeStamp.DeliverPreservesInv | ntpclient/ntptimestamp.cpp:134-171 | delivering any client event, finished notification included, keeps the coordinator invariant |
| NtpTimeStamp.ReplaceClientPreservesInv | ntpclient/ntptimestamp.cpp:87-98 | replacing one client by another that keeps the client invariant keeps the coordinator invariant |
| NtpTimeStamp.NtpFinishedPreservesInv | ntpclient/ntptimestamp.cpp:134-171 | a finished notification from any sender keeps the coordinator invariant |
| NtpNotifier.Step | ntpclient/ntpnotifier.cpp:45-73 | notifies exactly when the drift exceeds 1000 ms in either direction; the sleep is 60000 ms after a notification and 1000 ms otherwise; the prediction advances by the sleep from the reading or from the old prediction |
| NtpNotifier.Run | ntpclient/ntpnotifier.cpp:45-74 | one iteration per clock reading; the first steps from the initial prediction and each later one from the prediction the one before it left |
| NtpNotifier.RunFromStart | ntpclient/ntpnotifier.cpp:42-58 | starting from prediction 0, a first reading more than 1000 ms from 0 notifies and sleeps 60000 ms |
| NtpNotifier.NextDrift | ntpclient/ntpnotifier.cpp:60-73 | if the clock advances by exactly the sleep, the next drift is 0 after a notification and unchanged otherwise |
| NtpNotifier.SteadyNeverFires | ntpclient/ntpnotifier.cpp:45-74 | a run whose clock follows its sleeps and starts within tolerance never notifies |
| NtpNotifier.OnlyFirstFires | ntpclient/ntpnotifier.cpp:45-74 | under a clock that follows the sleeps, no iteration after the first notifies |
| NtpNotifier.FirstIteration | ntpclient/ntpnotifier.cpp:42-50 | the first iteration fires for any reading above 1000 ms; exactly ±1000 does not fire, and 1001 does |
| NtpNotifier.JumpExample | ntpclient/ntpnotifier.cpp:47-71 | a 5000 ms jump notifies, re-anchors and sleeps 60000 ms; a drift of exactly 1000 ms does not notify |

## Left out

- NtpClient.NtpReadyRead: datagrams are delivered as if the `readyRead` signal were connected, as evidently intended. As written, the connection is refused and the handler never runs; UnwiredNeverFinishes states that case (see "## Findings").
- NtpPackage.Datagram: the bytes past the end of a shortened request are taken to be the zeros of the 48-byte buffer `toByteArray` started from. `QByteArray` does not promise what lies past its end.
- Sockets are left out: `initSocket`, `readSocket`'s loop that drains to the last datagram, and `connectToHost`, `write`, `flush`, `close` and `deleteLater`. The socket is a flag, and the datagram the read yields is an event parameter.
- Qt signal and slot delivery, threads, `msleep`, interruption and integer timer ids are left out. Timer firings are events that name which timer fired. The watchdog's thread is not modelled; only one loop iteration and sequences of them are.
- Wall-clock reads are event or function parameters.
- The singleton `instance()`, the destructors and `qDebug` logging are left out. They are lifecycle and diagnostics.
- Code inside comment blocks is not modelled: the full-field encoder in `toByteArray` and the "wait for every client" check.
- The demo program and the process-spawning unit test are not part of this model.
- NtpClient.Run: `Connected` is deliverable only while the socket is open, because the handler dereferences the socket. A datagram event on a released socket reads no bytes and takes the error path.
- NtpTimeStamp.Accumulate: the valid count is an unbounded integer. The source's `qint8` would wrap past 127 valid clients.
- NtpClient.NtpError: the failure count is unbounded, where the source's `qint32` would overflow after 2^31 failures.
- NtpPackage.Byte64ToMs: timestamps and offsets are unbounded integers. The 64-bit arithmetic of the source does not overflow for clock values in range.
- NtpPackage.Parse: it requires at least 48 bytes, the only length its caller passes.
- NtpTimeStamp.AverageIsTrimmedMean: stated only where neither quirk shows. The other inputs within 64 bits are covered elsewhere: MaxStartsAtZero covers more than two values, all negative, other than ten; TenValues covers every input of ten values.
- The map order of `QMap<NTPClient*, bool>` is by pointer value and is not modelled. The slots are in configuration order; the sum, maximum and minimum the loop forms do not depend on the order.

## Findings

| source | as written | input that shows it | evidently intended | confidence | as-written member | corrected member |
|---|---|---|---|---|---|---|
| ntpclient/ntppackage.cpp:142 | `replace(40, 8, tTs.data())` copies the transmit timestamp as a C string, only up to its first zero byte. `write(bytesToSend, 48)` then sends zeros in place of the rest, while the client keeps all 8 bytes for the echo check. | a send time one millisecond past a whole second: the fraction bytes are 0x00, 0x41, 0x89, 0x37, and a server that echoes the request correctly is rejected | copy all 8 bytes, as `replace(40, 8, tTs)` does | high for the early stop, medium for the zeros sent after it; not executed | NtpClient.CorrectEchoRejected | NtpPackage.ToByteArrayFullStamp |
| ntpclient/ntpclient.cpp:93 | `connect(m_udpsocket, SLOT(readyRead()), ...)` names a slot where a signal is required, so Qt refuses the connection and `slotNtpReadyRead` never runs | any run: no datagram reaches a client, every attempt ends in the timeout and the resend backoff, and no client emits finished | `SIGNAL(readyRead())` | high; not executed | NtpClient.UnwiredNeverFinishes | NtpClient.WiredFinishes |

The client step follows the encoder as written, and `NtpClient.EchoCorrelation` states what that implies for every clock reading. The full-stamp encoder is stated alongside it, and `NtpClient.FullStampEcho` proves that it would accept exactly the correct echoes. For the second finding, the client step delivers datagrams as the corrected connection would.

