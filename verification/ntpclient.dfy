/** One NTP client talking to one server: start an attempt, send the
    request once connected, accept or reject the response, and on any failure
    count it and arm a resend timer whose interval grows with the failure
    count. The socket is a flag and the two timers record only whether they
    run and with what interval; every handler is a pure transition. */
module NtpClient {
  import opened Common
  import NtpPackage

  /** Milliseconds the client waits for a response (`UDP_TIMEOUT`). */
  const UDP_TIMEOUT: nat := 30000

  /** Number of entries in the resend table (`UDP_RESEND_INTERVAL_COUNT`). */
  const UDP_RESEND_INTERVAL_COUNT: nat := 6

  /** Resend delays in milliseconds, indexed by the clamped failure count minus one. */
  const RESEND_INTERVALS: seq<nat> := [2000, 5000, 10000, 15000, 20000, 30000]

  /** The standard NTP port, the constructor's default. */
  const NTP_PORT: uint16 := 123

  /** A one-shot timer: stopped, or running with the interval it was started with. */
  datatype Timer = Stopped | Running(interval: nat)

  /** The fields of `NTPClient`. `originBytes` holds the transmit-timestamp
      bytes of the last request sent; `socketOpen` stands for `m_udpsocket`
      being non-null. */
  datatype Client = Client(
    host: string, port: uint16,
    done: bool, originBytes: seq<byte>, offset: int, failedTimes: nat,
    socketOpen: bool, socketTimer: Timer, resendTimer: Timer)

  /** Which timer a timer event names: the response timeout, the resend
      delay, or some timer id the client does not own. */
  datatype TimerId = SocketTimer | ResendTimer | ForeignTimer

  /** What can happen to a client. Clock readings travel with the events
      that read the clock; `ReadyRead` carries the datagram the socket yields. */
  datatype Event =
    | Start
    | Connected(unixNow: int)
    | SocketError
    | ReadyRead(datagram: seq<byte>, unixNow: int)
    | TimerFired(id: TimerId)

  /** A handler's outcome: the new state, the bytes written to the socket, if
      any, and whether the finished signal was emitted. */
  datatype Reaction = Reaction(next: Client, sent: Option<seq<byte>>, finished: bool)

  /** The constructor: not done, no offset, no failures, no socket, no timers. */
  function NewClient(host: string, port: uint16): (c: Client)
    ensures Inv(c)
    ensures c.host == host && c.port == port
    ensures !c.done && c.failedTimes == 0 && !c.socketOpen
  {
    Client(host, port, false, [], 0, 0, false, Stopped, Stopped)
  }

  // ---------------------------------------------------------------------
  // The invariant every reachable client keeps

  /** A successful client holds no resources and no failures; an unfinished
      one reports offset 0; the socket is open exactly while the response
      timeout runs; the resend timer runs only with the socket released and
      with the interval the failure count selects. */
  ghost predicate Inv(c: Client)
  {
    && (c.done ==> c.failedTimes == 0 && !c.socketOpen && c.resendTimer == Stopped)
    && (!c.done ==> c.offset == 0)
    && (c.socketOpen <==> c.socketTimer == Running(UDP_TIMEOUT))
    && (c.socketTimer == Stopped || c.socketTimer == Running(UDP_TIMEOUT))
    && (c.resendTimer.Running? ==>
          !c.socketOpen && c.failedTimes >= 1 && c.resendTimer.interval == ResendDelay(c.failedTimes))
  }

  // ---------------------------------------------------------------------
  // Handlers

  /** The interval `delayResend` arms: the table entry for the failure count
      clamped into 1..6. */
  function ResendDelay(failedTimes: int): (d: nat)
    ensures d in RESEND_INTERVALS
    ensures failedTimes <= 1 ==> d == 2000
    ensures failedTimes >= UDP_RESEND_INTERVAL_COUNT ==> d == 30000
    ensures 1 <= failedTimes <= UDP_RESEND_INTERVAL_COUNT ==> d == RESEND_INTERVALS[failedTimes - 1]
  {
    RESEND_INTERVALS[Bound(1, failedTimes, UDP_RESEND_INTERVAL_COUNT) - 1]
  }

  /** A client that has failed more often never waits less before resending. */
  lemma ResendDelayMonotonic(a: int, b: int)
    requires a <= b
    ensures ResendDelay(a) <= ResendDelay(b)
  {
  }

  /** Failure counts 0, 1, 2, 6 and 100 wait 2000, 2000, 5000, 30000 and 30000 ms. */
  lemma ResendDelayExamples()
    ensures ResendDelay(0) == 2000 && ResendDelay(1) == 2000 && ResendDelay(2) == 5000
    ensures ResendDelay(6) == 30000 && ResendDelay(100) == 30000
  {
  }

  /** `releaseSocket`: drop the socket and stop both timers. */
  function ReleaseSocket(c: Client): (r: Client)
    ensures !r.socketOpen && r.socketTimer == Stopped && r.resendTimer == Stopped
    ensures r == c.(socketOpen := false, socketTimer := Stopped, resendTimer := Stopped)
  {
    c.(socketOpen := false, socketTimer := Stopped, resendTimer := Stopped)
  }

  /** `slotNTPStart`: cancel the attempt in flight, open a fresh socket,
      clear the result, and arm only the response timeout. */
  function NtpStart(c: Client): (r: Client)
    ensures !r.done && r.offset == 0
    ensures r.socketOpen && r.socketTimer == Running(UDP_TIMEOUT) && r.resendTimer == Stopped
    ensures r.failedTimes == c.failedTimes && r.originBytes == c.originBytes
    ensures r.host == c.host && r.port == c.port
  {
    ReleaseSocket(c).(done := false, offset := 0, socketOpen := true, socketTimer := Running(UDP_TIMEOUT))
  }

  /** `slotNtpError`: one more failure, no result, everything released, and
      only the resend timer armed with the delay for the new count. */
  function NtpError(c: Client): (r: Client)
    ensures r.failedTimes == c.failedTimes + 1
    ensures r.offset == 0 && !r.done
    ensures !r.socketOpen && r.socketTimer == Stopped
    ensures r.resendTimer == Running(ResendDelay(c.failedTimes + 1))
    ensures r.originBytes == c.originBytes && r.host == c.host && r.port == c.port
  {
    var failed := c.(failedTimes := c.failedTimes + 1, offset := 0, done := false);
    ReleaseSocket(failed).(resendTimer := Running(ResendDelay(failed.failedTimes)))
  }

  /** `slotNtpConnected`: build the default request at the current time, keep
      the eight bytes of its transmit timestamp to check the response
      against, and write 48 bytes from the request array. When the copy into
      the array stopped at a zero byte, the bytes written at 40..47 are that
      copy followed by zeros, not the bytes kept. */
  function NtpConnected(c: Client, unixNow: int): (r: Reaction)
    requires c.socketOpen
    ensures r.sent.Some? && |r.sent.value| == NtpPackage.PACKET_SIZE
    ensures r.next.originBytes == NtpPackage.MsToByte64(NtpPackage.NtpNow(unixNow))
    ensures r.sent.value[40..] == NtpPackage.Terminated(r.next.originBytes)
    ensures r.sent.value
         == NtpPackage.ToByteArrayFullStamp(NtpPackage.DEFAULT_PACKAGE, unixNow).wire[..40] + NtpPackage.Terminated(r.next.originBytes)
    ensures r.next == c.(originBytes := r.next.originBytes)
    ensures !r.finished
  {
    var e := NtpPackage.ToByteArray(NtpPackage.DEFAULT_PACKAGE, unixNow);
    NtpPackage.SentRequest(NtpPackage.DEFAULT_PACKAGE, unixNow);
    Reaction(c.(originBytes := e.sent.echoBytes), Some(NtpPackage.Datagram(e.wire)), false)
  }

  /** The request the client writes starts with the default header, 0x1B,
      0, 4 and 0xFA, followed by 36 zero bytes before the transmit stamp. */
  lemma ConnectedHeader(c: Client, unixNow: int)
    requires c.socketOpen
    ensures var sent := NtpConnected(c, unixNow).sent.value;
      && sent[..4] == [0x1B, 0, 4, 0xFA]
      && forall i :: 4 <= i < 40 ==> sent[i] == 0
  {
    var full := NtpPackage.ToByteArrayFullStamp(NtpPackage.DEFAULT_PACKAGE, unixNow).wire;
    NtpPackage.DefaultRequestHeaderFull(unixNow);
    assert NtpConnected(c, unixNow).sent.value[..40] == full[..40];
  }

  /** The response the client accepts: exactly 48 bytes whose origin field,
      bytes 24..31, equals the transmit bytes of the request it sent. That is
      the handler's test, a length check and then the origin check on the
      parsed response, whatever the clock reads while parsing. */
  function Acceptable(c: Client, data: seq<byte>): (ok: bool)
    ensures ok <==>
      && |data| == NtpPackage.PACKET_SIZE
      && forall unixNow :: NtpPackage.CheckByOriginTimestamp(NtpPackage.Parse(data, unixNow), c.originBytes)
  {
    if |data| == NtpPackage.PACKET_SIZE then
      assert NtpPackage.Parse(data, 0).echoBytes == data[24..32];
      data[24..32] == c.originBytes
    else
      false
  }

  /** `slotNtpReadyRead`: stop the response timeout, then take a datagram of
      the wrong length or with a foreign origin field down the error path, or
      else record the offset it yields, release everything and emit finished.
      With the socket already released the read yields no bytes. */
  function NtpReadyRead(c: Client, datagram: seq<byte>, unixNow: int): (r: Reaction)
    ensures r.sent == None
    ensures r.next.socketTimer == Stopped && !r.next.socketOpen
    ensures r.finished <==> c.socketOpen && Acceptable(c, datagram)
  {
    var data := if c.socketOpen then datagram else [];
    var stopped := c.(socketTimer := Stopped);
    if |data| != NtpPackage.PACKET_SIZE then
      Reaction(NtpError(stopped), None, false)
    else
      var response := NtpPackage.Parse(data, unixNow);
      if NtpPackage.CheckByOriginTimestamp(response, c.originBytes) then
        var success := stopped.(failedTimes := 0, offset := NtpPackage.CalcOffset(response), done := true);
        Reaction(ReleaseSocket(success), None, true)
      else
        Reaction(NtpError(stopped), None, false)
  }

  /** `timerEvent`: a firing response timeout is stopped and becomes a
      failure; a firing resend timer is stopped and restarts the client; any
      other timer leaves the client alone. */
  function TimerEvent(c: Client, id: TimerId): (r: Client)
    ensures id == SocketTimer && c.socketTimer.Running? ==> r == NtpError(c.(socketTimer := Stopped))
    ensures id == ResendTimer && c.resendTimer.Running? ==> r == NtpStart(c.(resendTimer := Stopped))
    ensures (|| id == ForeignTimer
             || (id == SocketTimer && c.socketTimer == Stopped)
             || (id == ResendTimer && c.resendTimer == Stopped)) ==> r == c
  {
    if c.socketTimer == Stopped && c.resendTimer == Stopped then
      c
    else if id == SocketTimer && c.socketTimer.Running? then
      NtpError(c.(socketTimer := Stopped))
    else if id == ResendTimer && c.resendTimer.Running? then
      NtpStart(c.(resendTimer := Stopped))
    else
      c
  }

  /** `connected` comes only from a live socket, since `slotNtpConnected`
      writes to it. An error or a read may still arrive after the socket was
      released; the read then yields no bytes. */
  predicate Deliverable(c: Client, e: Event)
  {
    e.Connected? ==> c.socketOpen
  }

  /** The client's reaction to one event. */
  function Step(c: Client, e: Event): (r: Reaction)
    requires Deliverable(c, e)
    ensures r.next.host == c.host && r.next.port == c.port
    ensures r.finished ==> r.next.done && r.next.failedTimes == 0
  {
    match e
    case Start => Reaction(NtpStart(c), None, false)
    case Connected(unixNow) => NtpConnected(c, unixNow)
    case SocketError => Reaction(NtpError(c), None, false)
    case ReadyRead(datagram, unixNow) => NtpReadyRead(c, datagram, unixNow)
    case TimerFired(id) => Reaction(TimerEvent(c, id), None, false)
  }

  // ---------------------------------------------------------------------
  // Properties

  /** Every handler keeps the invariant. */
  lemma StepPreservesInv(c: Client, e: Event)
    requires Inv(c) && Deliverable(c, e)
    ensures Inv(Step(c, e).next)
  {
  }

  /** Any datagram that is not 48 bytes long is never decoded: the client
      stops the timeout and fails, whatever the bytes are. */
  lemma WrongLengthFails(c: Client, datagram: seq<byte>, unixNow: int)
    requires |datagram| != NtpPackage.PACKET_SIZE
    ensures var r := Step(c, ReadyRead(datagram, unixNow));
      && r.next == NtpError(c.(socketTimer := Stopped))
      && !r.finished
      && r.next.failedTimes == c.failedTimes + 1
  {
  }

  /** A 48-byte response is accepted exactly when its bytes 24..31 equal the
      kept request bytes; a foreign origin takes the error path. */
  lemma OriginCheck(c: Client, datagram: seq<byte>, unixNow: int)
    requires c.socketOpen && |datagram| == NtpPackage.PACKET_SIZE
    ensures var r := Step(c, ReadyRead(datagram, unixNow));
      && (datagram[24..32] == c.originBytes ==> r.finished && r.next.done)
      && (datagram[24..32] != c.originBytes ==>
            !r.finished && r.next == NtpError(c.(socketTimer := Stopped)))
  {
  }

  /** On success the failure count resets, the offset is the response's
      `calcOffset` with the receive time as t3, and every resource is released. */
  lemma SuccessBookkeeping(c: Client, datagram: seq<byte>, unixNow: int)
    requires c.socketOpen && Acceptable(c, datagram)
    ensures var r := Step(c, ReadyRead(datagram, unixNow));
      && r.finished && r.next.done && r.next.failedTimes == 0
      && r.next.offset == NtpPackage.CalcOffset(NtpPackage.Parse(datagram, unixNow))
      && !r.next.socketOpen && r.next.socketTimer == Stopped && r.next.resendTimer == Stopped
      && r.next.originBytes == c.originBytes
  {
  }

  /** The finished signal is emitted by nothing but an accepted datagram. */
  lemma FinishedOnlyOnAcceptance(c: Client, e: Event)
    requires Deliverable(c, e)
    ensures Step(c, e).finished <==> e.ReadyRead? && c.socketOpen && Acceptable(c, e.datagram)
  {
  }

  /** After the request goes out, the reply is accepted exactly when its
      origin bytes 24..31 equal the kept transmit bytes. When those bytes
      survive the copy into the request, that is exactly a reply echoing the
      transmit bytes 40..47 that were sent; otherwise a reply echoing the
      sent bytes is rejected. */
  lemma EchoCorrelation(c: Client, sendNow: int, response: seq<byte>, receiveNow: int)
    requires c.socketOpen && |response| == NtpPackage.PACKET_SIZE
    ensures var sent := NtpConnected(c, sendNow);
      var accepted := Step(sent.next, ReadyRead(response, receiveNow)).finished;
      && (accepted <==> response[24..32] == sent.next.originBytes)
      && (NtpPackage.SurvivesCopy(sent.next.originBytes) ==>
            (accepted <==> response[24..32] == sent.sent.value[40..48]))
      && (!NtpPackage.SurvivesCopy(sent.next.originBytes) && response[24..32] == sent.sent.value[40..48] ==>
            !accepted)
  {
    var sent := NtpConnected(c, sendNow);
    EchoCheck(sent.next, sent.sent.value, response, receiveNow);
  }

  /** The echo check against a sent request whose bytes 40..47 are the
      C-string copy of the kept bytes. */
  lemma EchoCheck(c: Client, request: seq<byte>, response: seq<byte>, unixNow: int)
    requires c.socketOpen && |response| == NtpPackage.PACKET_SIZE
    requires |request| == NtpPackage.PACKET_SIZE && request[40..] == NtpPackage.Terminated(c.originBytes)
    ensures var accepted := Step(c, ReadyRead(response, unixNow)).finished;
      && (accepted <==> response[24..32] == c.originBytes)
      && (NtpPackage.SurvivesCopy(c.originBytes) ==> (accepted <==> response[24..32] == request[40..48]))
      && (!NtpPackage.SurvivesCopy(c.originBytes) && response[24..32] == request[40..48] ==> !accepted)
  {
    ReadyReadAccepts(c, response, unixNow);
    assert request[40..48] == request[40..];
    NtpPackage.TerminatedExact(c.originBytes);
  }

  /** A request sent one millisecond past a whole second of the NTP clock
      carries a transmit timestamp with a zero byte followed by non-zero
      ones: a server that echoes the bytes it received is rejected, and the
      attempt fails. */
  lemma CorrectEchoRejected(c: Client, sendNow: int, receiveNow: int)
    requires c.socketOpen
    requires NtpPackage.NtpNow(sendNow) >= 0 && NtpPackage.NtpNow(sendNow) % 1000 == 1
    ensures var sent := NtpConnected(c, sendNow);
      forall response: seq<byte> ::
        |response| == NtpPackage.PACKET_SIZE && response[24..32] == sent.sent.value[40..48] ==>
          var r := Step(sent.next, ReadyRead(response, receiveNow));
          !r.finished && r.next.failedTimes == c.failedTimes + 1
  {
    var sent := NtpConnected(c, sendNow);
    assert !NtpPackage.SurvivesCopy(sent.next.originBytes) by {
      NtpPackage.OneMsPastSecond(NtpPackage.NtpNow(sendNow));
    }
    forall response: seq<byte> | |response| == NtpPackage.PACKET_SIZE && response[24..32] == sent.sent.value[40..48]
      ensures var r := Step(sent.next, ReadyRead(response, receiveNow));
        !r.finished && r.next.failedTimes == c.failedTimes + 1
    {
      EchoCheck(sent.next, sent.sent.value, response, receiveNow);
      OriginCheck(sent.next, response, receiveNow);
    }
  }

  /** Had the request carried its whole transmit timestamp, a reply would be
      accepted exactly when it echoes the transmit bytes 40..47 sent, for
      every clock reading. */
  lemma FullStampEcho(c: Client, sendNow: int, response: seq<byte>, receiveNow: int)
    requires c.socketOpen && |response| == NtpPackage.PACKET_SIZE
    ensures var sent := NtpPackage.ToByteArrayFullStamp(NtpPackage.DEFAULT_PACKAGE, sendNow).wire;
      var kept := NtpConnected(c, sendNow).next;
      Step(kept, ReadyRead(response, receiveNow)).finished <==> response[24..32] == sent[40..48]
  {
    FullStampBytes(sendNow);
    EchoAccepted(NtpConnected(c, sendNow).next, response, receiveNow);
  }

  /** Bytes 40..47 of the full-stamp request are the whole transmit stamp. */
  lemma FullStampBytes(sendNow: int)
    ensures NtpPackage.ToByteArrayFullStamp(NtpPackage.DEFAULT_PACKAGE, sendNow).wire[40..48]
      == NtpPackage.MsToByte64(NtpPackage.NtpNow(sendNow))
  {
    var sent := NtpPackage.ToByteArrayFullStamp(NtpPackage.DEFAULT_PACKAGE, sendNow).wire;
    assert sent[40..48] == sent[40..];
  }

  /** A reply is accepted exactly when its bytes 24..31 are the kept ones. */
  lemma EchoAccepted(c: Client, response: seq<byte>, unixNow: int)
    requires c.socketOpen && |response| == NtpPackage.PACKET_SIZE
    ensures Step(c, ReadyRead(response, unixNow)).finished <==> response[24..32] == c.originBytes
  {
    ReadyReadAccepts(c, response, unixNow);
  }

  /** With the socket open, a datagram finishes the client exactly when it is
      acceptable. */
  lemma ReadyReadAccepts(c: Client, datagram: seq<byte>, unixNow: int)
    requires c.socketOpen
    ensures Step(c, ReadyRead(datagram, unixNow)).finished <==> Acceptable(c, datagram)
  {
  }

  /** The events that may follow one another: each is deliverable in the
      state the previous ones leave. */
  function Run(c: Client, events: seq<Event>): (r: Option<Client>)
    ensures r.Some? ==> r.value.host == c.host && r.value.port == c.port
    decreases |events|
  {
    if |events| == 0 then Some(c)
    else if !Deliverable(c, events[0]) then None
    else Run(Step(c, events[0]).next, events[1..])
  }

  /** How often a run of events emits the finished signal, up to the first
      event that is not deliverable. */
  function FinishedCount(c: Client, events: seq<Event>): (n: nat)
    ensures n <= |events|
    decreases |events|
  {
    if |events| == 0 || !Deliverable(c, events[0]) then 0
    else
      var r := Step(c, events[0]);
      (if r.finished then 1 else 0) + FinishedCount(r.next, events[1..])
  }

  /** `initSocket` passes `SLOT(readyRead())` where `connect` expects a
      signal, so Qt refuses that connection and `slotNtpReadyRead` never runs:
      the events a client can receive are then the ones other than
      `ReadyRead`, and along any of their runs the finished signal is never
      emitted, so every attempt ends in the timeout and the resend backoff. */
  lemma {:induction false} UnwiredNeverFinishes(c: Client, events: seq<Event>)
    requires forall k :: 0 <= k < |events| ==> !events[k].ReadyRead?
    ensures FinishedCount(c, events) == 0
    decreases |events|
  {
    if |events| > 0 && Deliverable(c, events[0]) {
      FinishedOnlyOnAcceptance(c, events[0]);
      UnwiredNeverFinishes(Step(c, events[0]).next, events[1..]);
    }
  }

  /** With the datagram handler connected, a client that has sent its
      request finishes on a reply carrying the kept bytes as its origin. */
  lemma WiredFinishes(c: Client, sendNow: int, receiveNow: int)
    requires c.socketOpen
    ensures forall response: seq<byte> ::
      |response| == NtpPackage.PACKET_SIZE && response[24..32] == NtpConnected(c, sendNow).next.originBytes ==>
        FinishedCount(c, [Connected(sendNow), ReadyRead(response, receiveNow)]) == 1
  {
    var sent := NtpConnected(c, sendNow);
    assert Step(c, Connected(sendNow)) == sent;
    forall response: seq<byte> | |response| == NtpPackage.PACKET_SIZE && response[24..32] == sent.next.originBytes
      ensures FinishedCount(c, [Connected(sendNow), ReadyRead(response, receiveNow)]) == 1
    {
      TwoEventCount(c, Connected(sendNow), ReadyRead(response, receiveNow));
      ReadyReadAccepts(sent.next, response, receiveNow);
    }
  }

  /** A run of two deliverable events emits finished once for each event
      whose step emits it. */
  lemma TwoEventCount(c: Client, first: Event, second: Event)
    requires Deliverable(c, first) && Deliverable(Step(c, first).next, second)
    ensures var r := Step(c, first);
      FinishedCount(c, [first, second]) ==
        (if r.finished then 1 else 0) + (if Step(r.next, second).finished then 1 else 0)
  {
    var events := [first, second];
    assert events[1..] == [second];
    assert events[1..][1..] == [];
  }

  /** Every state a new client reaches keeps the invariant: done implies no
      failures, not done implies offset 0, and the timers match the socket. */
  lemma {:induction false} RunPreservesInv(c: Client, events: seq<Event>)
    requires Inv(c)
    ensures Run(c, events).Some? ==> Inv(Run(c, events).value)
    decreases |events|
  {
    if |events| > 0 && Deliverable(c, events[0]) {
      StepPreservesInv(c, events[0]);
      RunPreservesInv(Step(c, events[0]).next, events[1..]);
    }
  }

  /** The two invariants named by the source hold in every reachable state. */
  lemma ReachableDoneFacts(host: string, port: uint16, events: seq<Event>)
    ensures var r := Run(NewClient(host, port), events);
      r.Some? ==> (r.value.done ==> r.value.failedTimes == 0) && (!r.value.done ==> r.value.offset == 0)
  {
    RunPreservesInv(NewClient(host, port), events);
  }
}
