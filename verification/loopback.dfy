/**
 * The echo analysis of the loopback check: which received lines are kept, when a
 * (sent, received) pair counts as an echo, and the nested loop that collects the echoes.
 * Timestamps are seconds, given as reals.
 */
module Loopback {
  import opened Wrappers
  import opened Text
  import opened Ascii
  import SerialClient

  /** A timestamped line, sent or received. */
  datatype Line = Line(at: real, text: string)

  /** One raw read from the port and when it happened. */
  datatype Read = Read(at: real, data: seq<Byte>)

  /** The reader's filter: the same decode-and-strip as the serial client, empty results dropped. */
  function Receive(r: Read): (l: Option<Line>)
    ensures l.Some? ==> l.value.at == r.at && l.value.text != ""
    ensures l.Some? <==> SerialClient.DecodeFrame(r.data).Some?
  {
    match SerialClient.DecodeFrame(r.data)
    case None => None
    case Some(m) => Some(Line(r.at, m))
  }

  /** The received list built from a sequence of reads, in order. */
  function ReceivedLines(chunks: seq<Read>): (ls: seq<Line>)
    ensures |ls| <= |chunks|
    ensures forall k :: 0 <= k < |ls| ==> ls[k].text != ""
    decreases |chunks|
  {
    if |chunks| == 0 then []
    else
      var rest := ReceivedLines(chunks[1..]);
      match Receive(chunks[0])
      case None => rest
      case Some(l) => [l] + rest
  }

  /** Every received line is non-empty, stripped ASCII text. */
  lemma {:induction false} ReceivedLinesAreDecoded(chunks: seq<Read>)
    ensures forall l :: l in ReceivedLines(chunks) ==>
      l.text != "" && Trimmed(l.text) && AllAscii(l.text)
    decreases |chunks|
  {
    if |chunks| > 0 {
      ReceivedLinesAreDecoded(chunks[1..]);
      SerialClient.DecodeFrameSpec(chunks[0].data);
    }
  }

  /** The echo test: one text contains the other, and the line arrived no earlier than the
      send and at most one second after it. */
  predicate IsEcho(sent: Line, received: Line) {
    && (Contains(received.text, sent.text) || Contains(sent.text, received.text))
    && 0.0 <= received.at - sent.at <= 1.0
  }

  datatype Echo = Echo(sent: string, received: string, delay: real)

  /** The echoes of one sent line, in the order of the received list. */
  function EchoesOf(s: Line, received: seq<Line>): (es: seq<Echo>)
    ensures |es| <= |received|
    decreases |received|
  {
    if |received| == 0 then []
    else
      (if IsEcho(s, received[0]) then [Echo(s.text, received[0].text, received[0].at - s.at)] else [])
      + EchoesOf(s, received[1..])
  }

  /** All echoes: every sent line against every received line, sent lines outermost. */
  function Echoes(sent: seq<Line>, received: seq<Line>): (es: seq<Echo>)
    ensures |es| <= |sent| * |received|
    decreases |sent|
  {
    if |sent| == 0 then []
    else EchoesOf(sent[0], received) + Echoes(sent[1..], received)
  }

  lemma {:induction false} EchoesOfSnoc(s: Line, received: seq<Line>, j: nat)
    requires j < |received|
    ensures EchoesOf(s, received[..j + 1]) == EchoesOf(s, received[..j]) +
      (if IsEcho(s, received[j]) then [Echo(s.text, received[j].text, received[j].at - s.at)] else [])
    decreases j
  {
    if j > 0 {
      assert received[..j + 1][1..] == received[1..][..j];
      assert received[..j][1..] == received[1..][..j - 1];
      EchoesOfSnoc(s, received[1..], j - 1);
    } else {
      assert received[..1][1..] == [];
    }
  }

  lemma {:induction false} EchoesSnoc(sent: seq<Line>, received: seq<Line>, i: nat)
    requires i < |sent|
    ensures Echoes(sent[..i + 1], received) == Echoes(sent[..i], received) + EchoesOf(sent[i], received)
    decreases i
  {
    if i > 0 {
      assert sent[..i + 1][1..] == sent[1..][..i];
      assert sent[..i][1..] == sent[1..][..i - 1];
      EchoesSnoc(sent[1..], received, i - 1);
    } else {
      assert sent[..1][1..] == [];
    }
  }

  /** The analysis loop: every (sent, received) pair judged independently. */
  method AnalyzeEchoes(sent: seq<Line>, received: seq<Line>) returns (found: seq<Echo>)
    ensures found == Echoes(sent, received)
    ensures |found| <= |sent| * |received|
  {
    found := [];
    var i := 0;
    while i < |sent|
      invariant 0 <= i <= |sent|
      invariant found == Echoes(sent[..i], received)
    {
      var es := EchoesOfLine(sent[i], received);
      EchoesSnoc(sent, received, i);
      found := found + es;
      i := i + 1;
    }
    assert sent[..i] == sent;
  }

  /** The inner loop: one sent line against every received line, in order. */
  method EchoesOfLine(s: Line, received: seq<Line>) returns (es: seq<Echo>)
    ensures es == EchoesOf(s, received)
  {
    es := [];
    var j := 0;
    while j < |received|
      invariant 0 <= j <= |received|
      invariant es == EchoesOf(s, received[..j])
    {
      EchoesOfSnoc(s, received, j);
      if IsEcho(s, received[j]) {
        es := es + [Echo(s.text, received[j].text, received[j].at - s.at)];
      }
      j := j + 1;
    }
    assert received[..j] == received;
  }

  /** Each echo comes from a pair that passed the test, with the delay of that pair. */
  lemma {:induction false} EchoesSound(sent: seq<Line>, received: seq<Line>)
    ensures forall e :: e in Echoes(sent, received) ==>
      exists s, r :: (s in sent && r in received && IsEcho(s, r)
        && e == Echo(s.text, r.text, r.at - s.at))
    decreases |sent|
  {
    if |sent| > 0 {
      EchoesSound(sent[1..], received);
      EchoesOfSound(sent[0], received);
      forall e | e in Echoes(sent, received)
        ensures exists s, r :: (s in sent && r in received && IsEcho(s, r)
          && e == Echo(s.text, r.text, r.at - s.at))
      {
        if e in EchoesOf(sent[0], received) {
          var r :| r in received && IsEcho(sent[0], r) && e == Echo(sent[0].text, r.text, r.at - sent[0].at);
          assert sent[0] in sent;
        } else {
          assert e in Echoes(sent[1..], received);
          var s, r :| s in sent[1..] && r in received && IsEcho(s, r) && e == Echo(s.text, r.text, r.at - s.at);
          assert s in sent;
        }
      }
    }
  }

  lemma {:induction false} EchoesOfSound(s: Line, received: seq<Line>)
    ensures forall e :: e in EchoesOf(s, received) ==>
      exists r :: r in received && IsEcho(s, r) && e == Echo(s.text, r.text, r.at - s.at)
    decreases |received|
  {
    if |received| > 0 {
      EchoesOfSound(s, received[1..]);
      forall e | e in EchoesOf(s, received)
        ensures exists r :: r in received && IsEcho(s, r) && e == Echo(s.text, r.text, r.at - s.at)
      {
        if e in EchoesOf(s, received[1..]) {
          var r :| r in received[1..] && IsEcho(s, r) && e == Echo(s.text, r.text, r.at - s.at);
          assert r in received;
        } else {
          assert received[0] in received;
        }
      }
    }
  }

  /** Each passing pair is reported. */
  lemma {:induction false} EchoesComplete(sent: seq<Line>, received: seq<Line>, i: nat, j: nat)
    requires i < |sent| && j < |received| && IsEcho(sent[i], received[j])
    ensures Echo(sent[i].text, received[j].text, received[j].at - sent[i].at) in Echoes(sent, received)
    decreases i
  {
    if i > 0 {
      EchoesComplete(sent[1..], received, i - 1, j);
    } else {
      EchoesOfComplete(sent[0], received, j);
    }
  }

  lemma {:induction false} EchoesOfComplete(s: Line, received: seq<Line>, j: nat)
    requires j < |received| && IsEcho(s, received[j])
    ensures Echo(s.text, received[j].text, received[j].at - s.at) in EchoesOf(s, received)
    decreases j
  {
    if j > 0 {
      EchoesOfComplete(s, received[1..], j - 1);
    }
  }

  /** A text always contains itself. */
  lemma ContainsSelf(t: string)
    ensures Contains(t, t)
  {
    assert OccursAt(t, t, 0);
  }

  /** The same text received within a second of sending is always an echo. */
  lemma IdenticalWithinASecond(sent: Line, received: Line)
    requires received.text == sent.text && 0.0 <= received.at - sent.at <= 1.0
    ensures IsEcho(sent, received)
  {
    ContainsSelf(sent.text);
  }

  /** A line received before the send is never an echo of it, whatever its text. */
  lemma EarlierNeverEcho(sent: Line, received: Line)
    requires received.at < sent.at
    ensures !IsEcho(sent, received)
  {
  }

  /** A two-line sent text `a + "\n" + b` contains each of its lines, so each line, received
      on its own within a second, is flagged. */
  lemma LinesOfSentTextAreEchoes(a: string, b: string, t: real, ta: real, tb: real)
    requires 0.0 <= ta - t <= 1.0 && 0.0 <= tb - t <= 1.0
    ensures IsEcho(Line(t, a + "\n" + b), Line(ta, a))
    ensures IsEcho(Line(t, a + "\n" + b), Line(tb, b))
  {
    var s := a + "\n" + b;
    assert OccursAt(s, a, 0) by {
      assert s[0..|a|] == a;
    }
    assert OccursAt(s, b, |a| + 1) by {
      assert s[|a| + 1..|a| + 1 + |b|] == b;
    }
  }

  /** Stripping the AI-formatted text removes only the trailing newline: the interior
      newline before the `---` line survives. */
  lemma StripKeepsInteriorNewline(a: string)
    requires |a| > 0 && !IsSpace(a[0])
    ensures Strip(a + "\n---\n") == a + "\n---"
  {
    var body := a + "\n---";
    assert a + "\n---\n" == "" + body + "\n";
    assert body[|body| - 1] == '-';
    assert body[0] == a[0];
    assert SpaceOnly("\n") by {
      assert IsSpace('\n');
    }
    StripPadded("", body, "\n");
  }
}
