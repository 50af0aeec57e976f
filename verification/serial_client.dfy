/**
 * The non-I/O logic of the serial link: the outbound newline and 64-byte chunking, the
 * inbound frame decoding, the reader loop's consecutive-error counter, the bounded
 * reconnect loop and the start/stop guards.
 *
 * The port itself is reduced to its state (absent, closed, open); what the hardware does
 * — whether a write raises, whether a connect succeeds, what a read returns — arrives as
 * parameters or as a sequence of reader events.
 */
module SerialClient {
  import opened Wrappers
  import opened Text
  import opened Ascii

  const ChunkSize: nat := 64
  const ErrorThreshold: nat := 3

  // ---------------------------------------------------------------------------
  // Sending
  // ---------------------------------------------------------------------------

  /** `if not message.endswith('\n'): message += '\n'`. */
  function WithNewline(message: string): (m: string)
    ensures EndsWith(m, "\n")
    ensures |m| == |message| || m == message + "\n"
    ensures m[..|message|] == message
    ensures EndsWith(message, "\n") <==> m == message
  {
    if EndsWith(message, "\n") then message else message + "\n"
  }

  /** The chunks joined back together. */
  function Flatten(cs: seq<seq<Byte>>): (bs: seq<Byte>)
    decreases |cs|
  {
    if |cs| == 0 then [] else cs[0] + Flatten(cs[1..])
  }

  lemma {:induction false} FlattenAppend(a: seq<seq<Byte>>, b: seq<seq<Byte>>)
    ensures Flatten(a + b) == Flatten(a) + Flatten(b)
    decreases |a|
  {
    if |a| > 0 {
      assert (a + b)[1..] == a[1..] + b;
      FlattenAppend(a[1..], b);
    } else {
      assert a + b == b;
    }
  }

  /** `bs[i:i+64]` for `i` in `range(0, len(bs), 64)`. */
  function Chunks(bs: seq<Byte>): (cs: seq<seq<Byte>>)
    ensures Flatten(cs) == bs
    ensures |cs| == (|bs| + ChunkSize - 1) / ChunkSize
    ensures forall k :: 0 <= k < |cs| ==> 0 < |cs[k]| <= ChunkSize
    ensures forall k :: 0 <= k < |cs| - 1 ==> |cs[k]| == ChunkSize
    decreases |bs|
  {
    if |bs| == 0 then []
    else if |bs| <= ChunkSize then
      assert Flatten([bs]) == bs + Flatten([]);
      [bs]
    else
      var rest := Chunks(bs[ChunkSize..]);
      assert Flatten([bs[..ChunkSize]] + rest) == bs[..ChunkSize] + Flatten(rest) by {
        assert ([bs[..ChunkSize]] + rest)[1..] == rest;
      }
      assert bs[..ChunkSize] + bs[ChunkSize..] == bs;
      [bs[..ChunkSize]] + rest
  }

  /** The port as `send_message` and `start` see it. */
  datatype Port = Absent | Closed | Open

  /** Whether `send_message` reported success, and the chunks that reached `port.write`. */
  datatype SendOutcome = SendOutcome(ok: bool, written: seq<seq<Byte>>)

  /** `send_message`: refuse without an open port, add the newline, encode (a non-ASCII
      character raises before anything is written), then write chunk by chunk; `failAt`
      names the chunk whose `write` raises, if any. */
  function SendMessage(port: Port, message: string, failAt: Option<nat>): (o: SendOutcome)
    ensures port != Open ==> !o.ok && o.written == []
    ensures !AllAscii(message) ==> !o.ok && o.written == []
    ensures o.ok <==>
      && port == Open && AllAscii(message)
      && (failAt.None? || failAt.value >= |Chunks(Encode(WithNewline(message)).value)|)
    ensures o.ok ==>
      && Flatten(o.written) == Encode(WithNewline(message)).value
      && DecodeIgnore(Flatten(o.written)) == WithNewline(message)
    ensures port == Open && AllAscii(message) ==>
      o.written <= Chunks(Encode(WithNewline(message)).value)
  {
    if port != Open then SendOutcome(false, [])
    else
      var m := WithNewline(message);
      NewlineKeepsAscii(message);
      match Encode(m)
      case None => SendOutcome(false, [])
      case Some(bs) =>
        var cs := Chunks(bs);
        if failAt.Some? && failAt.value < |cs| then SendOutcome(false, cs[..failAt.value])
        else
          DecodeEncode(m);
          SendOutcome(true, cs)
  }

  lemma NewlineKeepsAscii(message: string)
    ensures AllAscii(WithNewline(message)) <==> AllAscii(message)
  {
    var m := WithNewline(message);
    if AllAscii(m) {
      forall i | 0 <= i < |message|
        ensures IsAscii(message[i])
      {
        assert message[i] == m[i];
      }
    }
  }

  // ---------------------------------------------------------------------------
  // Receiving
  // ---------------------------------------------------------------------------

  /** The frame handling of `_read_loop`: an empty read is skipped; otherwise non-ASCII
      bytes are dropped and whitespace is stripped, and an empty result is skipped too. */
  function DecodeFrame(raw: seq<Byte>): (m: Option<string>)
    ensures m.Some? ==> m.value != ""
  {
    if |raw| == 0 then None
    else
      var s := Strip(DecodeIgnore(raw));
      if s == "" then None else Some(s)
  }

  /** A decoded line is the stripped ASCII text of the frame, and a frame is skipped exactly
      when it is empty or decodes to whitespace only. */
  lemma DecodeFrameSpec(raw: seq<Byte>)
    ensures var m := DecodeFrame(raw);
      && (m.Some? ==> AllAscii(m.value) && StripOf(m.value, DecodeIgnore(raw)))
      && (m.None? <==> |raw| == 0 || SpaceOnly(DecodeIgnore(raw)))
  {
    if |raw| > 0 {
      var text := DecodeIgnore(raw);
      assert DecodeFrame(raw) == (if Strip(text) == "" then None else Some(Strip(text)));
      StripSpec(text);
      StripEmptyIffSpaces(text);
      StripKeepsAscii(text);
    }
  }

  /** Stripping leaves nothing exactly when the text is all whitespace. */
  lemma StripEmptyIffSpaces(s: string)
    ensures Strip(s) == "" <==> SpaceOnly(s)
  {
    var r := Strip(s);
    var i := StripWitness(s);
    if r == "" {
      StripSplit(r, s, i);
      SpaceOnlyConcat(s[..i], s[i..]);
      assert s == s[..i] + s[i..];
    }
    if SpaceOnly(s) {
      assert s == s + "" + "";
      StripPadded(s, "", "");
    }
  }

  lemma SpaceOnlyConcat(a: string, b: string)
    requires SpaceOnly(a) && SpaceOnly(b)
    ensures SpaceOnly(a + b)
  {
    forall k | 0 <= k < |a + b|
      ensures IsSpace((a + b)[k])
    {
      if k >= |a| {
        assert (a + b)[k] == b[k - |a|];
      }
    }
  }

  /** Stripping ASCII text leaves ASCII text. */
  lemma StripKeepsAscii(s: string)
    requires AllAscii(s)
    ensures AllAscii(Strip(s))
  {
    var l := LStrip(s);
    AsciiInfix(s, l, |s| - |l|);
    AsciiInfix(l, RStrip(l), 0);
  }

  lemma AsciiInfix(s: string, r: string, i: int)
    requires AllAscii(s) && 0 <= i && i + |r| <= |s| && s[i..i + |r|] == r
    ensures AllAscii(r)
  {
    forall k | 0 <= k < |r|
      ensures IsAscii(r[k])
    {
      assert r[k] == s[i + k];
    }
  }

  /** A trimmed, non-empty ASCII message sent over the link is received as itself: the
      receiver's decode-and-strip undoes the sender's newline and encoding. */
  lemma SendThenReceive(message: string)
    requires message != "" && AllAscii(message) && Trimmed(message)
    ensures var o := SendMessage(Open, message, None);
      o.ok && DecodeFrame(Flatten(o.written)) == Some(message)
  {
    var o := SendMessage(Open, message, None);
    var text := DecodeIgnore(Flatten(o.written));
    assert text == message + "\n" by {
      assert !EndsWith(message, "\n") by {
        assert !IsSpace(message[|message| - 1]);
      }
    }
    assert IsSpace('\n');
    assert SpaceOnly("\n");
    assert text == "" + message + "\n";
    StripPadded("", message, "\n");
  }

  // ---------------------------------------------------------------------------
  // The reader loop
  // ---------------------------------------------------------------------------

  /** What one pass of `_read_loop` runs into: nothing waiting, a line (and whether the
      callback raised on it), a `SerialException`, any other exception, or a closed port
      with the outcome of the reconnection attempt. */
  datatype ReadEvent =
    | Idle
    | Frame(raw: seq<Byte>, callbackRaises: bool)
    | SerialFault
    | OtherFault
    | PortDown(recovered: bool)

  /** A pass with its line decoded: a delivered message, nothing to do, a serial fault,
      another fault, or a reconnection. */
  datatype Pass =
    | Line(message: string, callbackRaises: bool)
    | Quiet
    | Fault
    | Glitch
    | Down(recovered: bool)

  /** The decoding part of one pass: a frame that decodes to nothing is as quiet as no frame. */
  function Observe(e: ReadEvent): (p: Pass)
    ensures p.Line? <==> e.Frame? && DecodeFrame(e.raw).Some?
    ensures p.Line? ==> p.message == DecodeFrame(e.raw).value && p.callbackRaises == e.callbackRaises
    ensures p.Fault? <==> e.SerialFault?
    ensures p.Line? ==> p.message != ""
  {
    match e
    case Idle => Quiet
    case SerialFault => Fault
    case OtherFault => Glitch
    case PortDown(ok) => Down(ok)
    case Frame(raw, raises) =>
      match DecodeFrame(raw)
      case None => Quiet
      case Some(m) => Line(m, raises)
  }

  function ObserveAll(events: seq<ReadEvent>): (ps: seq<Pass>)
    ensures |ps| == |events|
    ensures forall k :: 0 <= k < |events| ==> ps[k] == Observe(events[k])
  {
    seq(|events|, k requires 0 <= k < |events| => Observe(events[k]))
  }

  /** The loop's state: the consecutive-error counter, the message queue, the messages
      handed to the callback, and how often `_reconnect` was called. */
  datatype Reader = Reader(errors: nat, queue: seq<string>, delivered: seq<string>, reconnects: nat)

  /** A line that reached the queue and the callback without the callback raising: the
      only pass that resets the error counter. */
  predicate CleanDelivery(p: Pass) {
    p.Line? && !p.callbackRaises
  }

  /** One pass of `_read_loop`: a serial fault counts, and the third in a row triggers a
      reconnect and a reset; a line is queued, then handed to the callback, and resets the
      counter unless the callback raised. */
  function ReaderStep(r: Reader, p: Pass): (q: Reader)
    requires r.errors < ErrorThreshold
    ensures q.errors < ErrorThreshold
    ensures CleanDelivery(p) ==> q.errors == 0
    ensures p.Fault? ==> q.errors == (r.errors + 1) % ErrorThreshold
    ensures !p.Fault? && !CleanDelivery(p) ==> q.errors == r.errors
    ensures q.queue == r.queue + Received(p) && q.delivered == r.delivered + Received(p)
    ensures q.reconnects == r.reconnects +
      (if p.Down? || (p.Fault? && r.errors + 1 == ErrorThreshold) then 1 else 0)
  {
    match p
    case Quiet => r
    case Glitch => r
    case Down(_) => r.(reconnects := r.reconnects + 1)
    case Fault =>
      if r.errors + 1 >= ErrorThreshold then r.(errors := 0, reconnects := r.reconnects + 1)
      else r.(errors := r.errors + 1)
    case Line(m, raises) =>
      r.(queue := r.queue + [m], delivered := r.delivered + [m],
         errors := if raises then r.errors else 0)
  }

  /** The message one pass contributes to the queue. */
  function Received(p: Pass): (ms: seq<string>)
    ensures |ms| <= 1
    ensures p.Line? ==> ms == [p.message]
    ensures !p.Line? ==> ms == []
  {
    if p.Line? then [p.message] else []
  }

  /** Every message the passes deliver, in arrival order. */
  function Lines(ps: seq<Pass>): (ms: seq<string>)
    ensures |ms| <= |ps|
    decreases |ps|
  {
    if |ps| == 0 then [] else Lines(ps[..|ps| - 1]) + Received(ps[|ps| - 1])
  }

  /** Serial faults since the last clean delivery (or since the start). */
  function TrailingFaults(ps: seq<Pass>): nat
    decreases |ps|
  {
    if |ps| == 0 then 0
    else
      var last := ps[|ps| - 1];
      if CleanDelivery(last) then 0
      else TrailingFaults(ps[..|ps| - 1]) + (if last.Fault? then 1 else 0)
  }

  /** Some pass of the sequence is a clean delivery. */
  predicate HasCleanDelivery(ps: seq<Pass>)
    decreases |ps|
  {
    |ps| > 0 && (HasCleanDelivery(ps[..|ps| - 1]) || CleanDelivery(ps[|ps| - 1]))
  }

  /** The loop run over a sequence of passes. */
  function Run(r: Reader, ps: seq<Pass>): (q: Reader)
    requires r.errors < ErrorThreshold
    ensures q.errors < ErrorThreshold
    decreases |ps|
  {
    if |ps| == 0 then r else ReaderStep(Run(r, ps[..|ps| - 1]), ps[|ps| - 1])
  }

  /** The reader queues exactly the decoded lines, in order, and hands the same lines to
      the callback. */
  lemma {:induction false} RunDelivers(r: Reader, ps: seq<Pass>)
    requires r.errors < ErrorThreshold
    ensures Run(r, ps).queue == r.queue + Lines(ps)
    ensures Run(r, ps).delivered == r.delivered + Lines(ps)
    decreases |ps|
  {
    if |ps| > 0 {
      RunDelivers(r, ps[..|ps| - 1]);
    }
  }

  /** `m` is what one of the frames among `events` decodes to. */
  predicate DecodedFrom(events: seq<ReadEvent>, m: string) {
    exists k :: 0 <= k < |events| && events[k].Frame? && DecodeFrame(events[k].raw) == Some(m)
  }

  /** The lines of a run of events are non-empty decoded frames, so nothing that decodes to
      whitespace is ever queued. */
  lemma {:induction false} LinesAreDecodedFrames(events: seq<ReadEvent>)
    ensures forall m :: m in Lines(ObserveAll(events)) ==> m != "" && DecodedFrom(events, m)
    decreases |events|
  {
    if |events| > 0 {
      var init := events[..|events| - 1];
      LinesOfSnoc(events);
      LinesAreDecodedFrames(init);
      forall m | m in Lines(ObserveAll(events))
        ensures m != "" && DecodedFrom(events, m)
      {
        if m in Lines(ObserveAll(init)) {
          DecodedFromPrefix(events, m);
        } else {
          LastFrameDecoded(events, m);
        }
      }
    }
  }

  /** The lines of a run are those of all but its last event, then the last event's. */
  lemma LinesOfSnoc(events: seq<ReadEvent>)
    requires |events| > 0
    ensures Lines(ObserveAll(events)) ==
      Lines(ObserveAll(events[..|events| - 1])) + Received(Observe(events[|events| - 1]))
  {
    var ps := ObserveAll(events);
    assert ps[..|ps| - 1] == ObserveAll(events[..|events| - 1]);
  }

  lemma DecodedFromPrefix(events: seq<ReadEvent>, m: string)
    requires |events| > 0 && DecodedFrom(events[..|events| - 1], m)
    ensures DecodedFrom(events, m)
  {
    var init := events[..|events| - 1];
    var k :| 0 <= k < |init| && init[k].Frame? && DecodeFrame(init[k].raw) == Some(m);
    assert events[k] == init[k];
  }

  lemma LastFrameDecoded(events: seq<ReadEvent>, m: string)
    requires |events| > 0 && m in Received(Observe(events[|events| - 1]))
    ensures m != "" && DecodedFrom(events, m)
  {
    var k := |events| - 1;
    assert events[k].Frame? && DecodeFrame(events[k].raw) == Some(m);
  }

  /** The error counter is the number of serial faults since the last clean delivery,
      wrapped at three, since every third fault triggers a reconnect and a reset. */
  lemma {:induction false} RunErrors(r: Reader, ps: seq<Pass>)
    requires r.errors < ErrorThreshold
    ensures Run(r, ps).errors ==
      ((if HasCleanDelivery(ps) then 0 else r.errors) + TrailingFaults(ps)) % ErrorThreshold
    decreases |ps|
  {
    if |ps| > 0 {
      var init := ps[..|ps| - 1];
      var last := ps[|ps| - 1];
      RunErrors(r, init);
      var x := (if HasCleanDelivery(init) then 0 else r.errors) + TrailingFaults(init);
      CounterStep(x, CleanDelivery(last), last.Fault?, Run(r, init).errors, Run(r, ps).errors);
    }
  }

  /** One pass's effect on the counter, with the counter written as a running count
      wrapped at three. */
  lemma CounterStep(x: nat, clean: bool, fault: bool, before: nat, after: nat)
    requires before == x % ErrorThreshold
    requires clean ==> after == 0 && !fault
    requires fault ==> after == (before + 1) % ErrorThreshold
    requires !clean && !fault ==> after == before
    ensures !clean ==> after == (x + (if fault then 1 else 0)) % ErrorThreshold
  {
  }

  // ---------------------------------------------------------------------------
  // Reconnecting, starting and stopping
  // ---------------------------------------------------------------------------

  /** `disconnect`: an open port is closed; otherwise nothing happens. */
  function Disconnect(port: Port): (p: Port)
    ensures p != Open
    ensures port != Open ==> p == port
  {
    if port == Open then Closed else port
  }

  /** `_reconnect`: disconnect, then up to `attempts` connects, the `k`-th of which succeeds
      when `connect(k)`; a pause follows every failed attempt, the last one included. */
  method Reconnect(port: Port, attempts: int, connect: nat -> bool) returns (ok: bool, newPort: Port, tries: nat, sleeps: nat)
    ensures ok <==> exists k :: 0 <= k < attempts && connect(k)
    ensures ok ==> tries > 0 && connect(tries - 1) && sleeps == tries - 1
    ensures forall k :: 0 <= k < tries - (if ok then 1 else 0) ==> !connect(k)
    ensures !ok ==> tries == (if attempts > 0 then attempts else 0) && sleeps == tries
    ensures ok ==> newPort == Open
    ensures !ok ==> newPort == Disconnect(port)
  {
    newPort := Disconnect(port);
    tries := 0;
    sleeps := 0;
    ok := false;
    while tries < attempts
      invariant 0 <= tries
      invariant attempts > 0 ==> tries <= attempts
      invariant attempts <= 0 ==> tries == 0
      invariant sleeps == tries
      invariant newPort == Disconnect(port)
      invariant forall k :: 0 <= k < tries ==> !connect(k)
      decreases attempts - tries
    {
      if connect(tries) {
        ok := true;
        newPort := Open;
        tries := tries + 1;
        return;
      }
      tries := tries + 1;
      sleeps := sleeps + 1;
    }
  }

  /** The client's lifecycle state. */
  datatype Client = Client(port: Port, running: bool, readerStarted: bool)

  const NewClient := Client(Absent, false, false)

  /** `start`: without an open port it connects first and refuses to start when that fails;
      otherwise it marks itself running and starts the reader. */
  function Start(c: Client, connectOk: bool): (r: Result<Client, string>)
    ensures r.Failure? <==> c.port != Open && !connectOk
    ensures r.Failure? ==> r.error == "Cannot start - serial port not connected"
    ensures r.Success? ==> r.value.port == Open && r.value.running && r.value.readerStarted
  {
    if c.port != Open && !connectOk then Failure("Cannot start - serial port not connected")
    else Success(Client(Open, true, true))
  }

  /** `stop`: clear `running` and close the port; safe without a prior `start`. */
  function Stop(c: Client): (r: Client)
    ensures !r.running && r.port != Open
    ensures r.readerStarted == c.readerStarted
    ensures c.port != Open ==> r.port == c.port
  {
    Client(Disconnect(c.port), false, c.readerStarted)
  }

  /** Stopping twice is stopping once. */
  lemma StopIdempotent(c: Client)
    ensures Stop(Stop(c)) == Stop(c)
  {
  }
}
