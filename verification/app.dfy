/**
 * The application glue: each received line goes through the message processor, an accepted
 * one is framed for the model and sent to the LLM manager, and a non-empty answer yields a
 * transaction record, which is appended to the transaction log when one is configured.
 *
 * The log file is a sequence of records; whether a write succeeds is the parameter `writeOk`.
 * Clocks, elapsed times and backend outcomes are parameters as in the modules below.
 */
module App {
  import opened Wrappers
  import MP = MessageProcessor
  import LI = LlmInterface
  import SC = SerialClient

  /** The record `_log_transaction` writes. */
  datatype Transaction = Transaction(
    timestamp: MP.Stamp,
    inputRaw: string,
    inputCleaned: string,
    messageType: MP.Kind,
    llmResponse: string)

  /** The application: its three components, the running flag, the configured transaction
      file and what has been written to it. */
  datatype Bridge = Bridge(
    processor: MP.Processor,
    llm: LI.Manager,
    client: SC.Client,
    running: bool,
    transactionFile: Option<string>,
    log: seq<Transaction>)

  /** A fresh application from its component configurations. */
  function NewBridge(pc: MP.ProcessorConfig, lc: LI.LlmConfig, transactionFile: Option<string>): Bridge {
    Bridge(MP.NewProcessor(pc), LI.NewManager(lc), SC.NewClient, false, transactionFile, [])
  }

  /** A fresh application satisfies the invariant. */
  lemma NewBridgeHealthy(pc: MP.ProcessorConfig, lc: LI.LlmConfig, transactionFile: Option<string>)
    ensures Healthy(NewBridge(pc, lc, transactionFile))
  {
    FreshCounters(pc, lc, transactionFile);
    ZeroHealthy(NewBridge(pc, lc, transactionFile));
  }

  /** A fresh application has every counter at zero and an empty log. */
  lemma FreshCounters(pc: MP.ProcessorConfig, lc: LI.LlmConfig, transactionFile: Option<string>)
    ensures var b := NewBridge(pc, lc, transactionFile);
      b.log == [] && b.processor.stats == MP.ZeroStats && b.llm.stats == LI.ZeroLlmStats
  {
  }

  /** Without configuration the application is backed by the mock, at its first template,
      with three attempts and a length limit of 512. */
  lemma DefaultBridge(transactionFile: Option<string>)
    ensures var b := NewBridge(MP.ProcessorConfig(None), LI.LlmConfig(None, None), transactionFile);
      && b.processor.maxLength == MP.DefaultMaxLength
      && b.llm.backend.kind == LI.Mock && b.llm.backend.mockIndex == 0
      && b.llm.maxRetries == LI.DefaultMaxRetries
  {
  }

  lemma ZeroHealthy(b: Bridge)
    requires b.processor.stats == MP.ZeroStats && b.llm.stats == LI.ZeroLlmStats && b.log == []
    ensures Healthy(b)
  {
  }

  /** `if transaction_log:` — a configured, non-empty file name. */
  predicate LogsTo(file: Option<string>) {
    file.Some? && file.value != ""
  }

  /** A record as `_log_transaction` builds it: the processed message's fields and the answer. */
  function Record(p: MP.Processed, response: string): (t: Transaction)
    ensures t.inputRaw == p.raw && t.inputCleaned == p.cleaned && t.llmResponse == response
    ensures t.timestamp == p.timestamp && t.messageType == p.kind
  {
    Transaction(p.timestamp, p.raw, p.cleaned, p.kind, response)
  }

  /** A record that could only have come from an accepted message and a real answer. */
  predicate Recorded(t: Transaction) {
    && t.inputCleaned == MP.Clean(t.inputRaw)
    && MP.MinLength <= |t.inputCleaned|
    && t.messageType == MP.Classify(t.inputCleaned)
    && t.llmResponse != ""
  }

  /** What one call of the callback did: the new state, the record built (if any) and the
      number of backend calls made. */
  datatype Handled = Handled(bridge: Bridge, record: Option<Transaction>, calls: nat)

  /** `message_callback` with `_log_transaction`. Every message is counted by the processor;
      a rejected one stops there, before formatting and before the LLM; an accepted one
      goes on to `Forward`. */
  function MessageCallback(b: Bridge, raw: string, now: MP.Stamp, external: nat -> LI.Attempt,
                           elapsed: real, writeOk: bool): (h: Handled)
    ensures h.bridge.processor == MP.Process(b.processor, raw, now).processor
    ensures MP.Analyze(b.processor.maxLength, raw, now).None? ==>
      h == Handled(b.(processor := h.bridge.processor), None, 0)
    ensures MP.Analyze(b.processor.maxLength, raw, now).Some? ==>
      h == Forward(b.(processor := h.bridge.processor), MP.Analyze(b.processor.maxLength, raw, now).value,
                   external, elapsed, writeOk)
  {
    var step := MP.Process(b.processor, raw, now);
    var b1 := b.(processor := step.processor);
    match step.result
    case None => Handled(b1, None, 0)
    case Some(p) => Forward(b1, p, external, elapsed, writeOk)
  }

  /** The accepted path: the framed prompt goes to the manager once; a record exists exactly
      when an answer came back, and it is appended only to a configured file whose write
      succeeds. A failed write is swallowed. */
  function Forward(b: Bridge, p: MP.Processed, external: nat -> LI.Attempt, elapsed: real,
                   writeOk: bool): (h: Handled)
    ensures h.bridge.processor == b.processor && h.bridge.client == b.client
    ensures h.bridge.running == b.running && h.bridge.transactionFile == b.transactionFile
    ensures var e := LI.ProcessMessage(b.llm, MP.FormatForLlm(p), external, elapsed);
      && h.bridge.llm == e.manager
      && h.calls == e.calls
      && (h.record.Some? <==> e.response.Some?)
      && (h.record.Some? ==> h.record.value == Record(p, e.response.value))
    ensures h.bridge.log == b.log +
      (if h.record.Some? && LogsTo(b.transactionFile) && writeOk then [h.record.value] else [])
  {
    var e := LI.ProcessMessage(b.llm, MP.FormatForLlm(p), external, elapsed);
    match e.response
    case None => Handled(b.(llm := e.manager), None, e.calls)
    case Some(answer) =>
      var t := Record(p, answer);
      Handled(b.(llm := e.manager, log := b.log + if LogsTo(b.transactionFile) && writeOk then [t] else []),
              Some(t), e.calls)
  }

  /** A rejected message leaves the LLM manager, the log and everything but the processor's
      counters untouched; an accepted one calls the manager exactly once with the framed
      prompt. */
  lemma CallbackRouting(b: Bridge, raw: string, now: MP.Stamp, external: nat -> LI.Attempt,
                        elapsed: real, writeOk: bool)
    ensures var h := MessageCallback(b, raw, now, external, elapsed, writeOk);
      var r := MP.Analyze(b.processor.maxLength, raw, now);
      && h.bridge.client == b.client && h.bridge.running == b.running
      && (r.None? ==> h.bridge.llm == b.llm && h.bridge.log == b.log && h.record.None? && h.calls == 0)
      && (r.Some? ==>
            h.bridge.llm.stats.total == b.llm.stats.total + 1
            && h.bridge.llm == LI.ProcessMessage(b.llm, MP.FormatForLlm(r.value), external, elapsed).manager)
  {
  }

  /** Every record is well formed: it holds the cleaned form of its raw input, long enough to
      have passed validation, with that text's classification and a non-empty answer. */
  lemma CallbackRecordsAreWellFormed(b: Bridge, raw: string, now: MP.Stamp, external: nat -> LI.Attempt,
                                     elapsed: real, writeOk: bool)
    ensures var h := MessageCallback(b, raw, now, external, elapsed, writeOk);
      h.record.Some? ==> Recorded(h.record.value) && h.record.value.inputRaw == raw
  {
    var r := MP.Analyze(b.processor.maxLength, raw, now);
    if r.Some? {
      var b1 := b.(processor := MP.Process(b.processor, raw, now).processor);
      ForwardShape(b1, r.value, external, elapsed, writeOk);
      var h := Forward(b1, r.value, external, elapsed, writeOk);
      var _ := RecordsAdded(b1.log, h.bridge.log, h.record, r.value, LogsTo(b.transactionFile) && writeOk);
    }
  }

  /** The application-wide invariant from a fresh start: both components' counters agree
      with themselves, the manager has seen exactly the accepted messages, at most one
      record per successful answer was written, and every record is well formed. */
  predicate Healthy(b: Bridge) {
    && MP.Consistent(b.processor.stats)
    && LI.Consistent(b.llm.stats)
    && b.llm.stats.total == b.processor.stats.valid
    && |b.log| <= b.llm.stats.successful
    && forall k :: 0 <= k < |b.log| ==> Recorded(b.log[k])
  }

  /** A processed message as `Analyze` produces it. */
  predicate Accepted(p: MP.Processed) {
    p.cleaned == MP.Clean(p.raw) && MP.MinLength <= |p.cleaned| && p.kind == MP.Classify(p.cleaned)
  }

  /** What the accepted path adds to the manager: one request, and one success exactly when
      a record was built. */
  lemma ForwardCounts(b: Bridge, p: MP.Processed, external: nat -> LI.Attempt, elapsed: real,
                      writeOk: bool) returns (answered: nat)
    ensures var h := Forward(b, p, external, elapsed, writeOk);
      && h.bridge.llm.stats.total == b.llm.stats.total + 1
      && h.bridge.llm.stats.successful == b.llm.stats.successful + answered
      && answered == (if h.record.Some? then 1 else 0)
      && (LI.Consistent(b.llm.stats) ==> LI.Consistent(h.bridge.llm.stats))
  {
    var e := LI.ProcessMessage(b.llm, MP.FormatForLlm(p), external, elapsed);
    answered := if e.response.Some? then 1 else 0;
  }

  /** The record `Forward` builds is the processed message with a non-empty answer, and the
      log grows by it exactly when the file is configured and the write succeeds. */
  lemma ForwardShape(b: Bridge, p: MP.Processed, external: nat -> LI.Attempt, elapsed: real,
                     writeOk: bool)
    ensures var h := Forward(b, p, external, elapsed, writeOk);
      && (h.record.Some? ==>
            h.record.value == Record(p, h.record.value.llmResponse) && h.record.value.llmResponse != "")
      && h.bridge.log == b.log +
           (if h.record.Some? && LogsTo(b.transactionFile) && writeOk then [h.record.value] else [])
  {
  }

  lemma RecordsAdded(log: seq<Transaction>, log': seq<Transaction>, record: Option<Transaction>,
                     p: MP.Processed, write: bool) returns (added: seq<Transaction>)
    requires Accepted(p)
    requires record.Some? ==> record.value == Record(p, record.value.llmResponse) && record.value.llmResponse != ""
    requires log' == log + (if record.Some? && write then [record.value] else [])
    ensures log' == log + added && |added| <= (if record.Some? then 1 else 0)
    ensures forall k :: 0 <= k < |added| ==> Recorded(added[k])
    ensures record.Some? ==> Recorded(record.value) && record.value.inputRaw == p.raw
  {
    if record.Some? {
      RecordOfAccepted(p, record.value.llmResponse);
    }
    added := if record.Some? && write then [record.value] else [];
  }

  lemma RecordOfAccepted(p: MP.Processed, answer: string)
    requires Accepted(p) && answer != ""
    ensures Recorded(Record(p, answer)) && Record(p, answer).inputRaw == p.raw
  {
  }

  /** The callback keeps the invariant. */
  lemma CallbackKeepsHealthy(b: Bridge, raw: string, now: MP.Stamp, external: nat -> LI.Attempt,
                             elapsed: real, writeOk: bool)
    requires Healthy(b)
    ensures Healthy(MessageCallback(b, raw, now, external, elapsed, writeOk).bridge)
  {
    var step := MP.Process(b.processor, raw, now);
    MP.ProcessKeepsConsistent(b.processor, raw, now);
    var b1 := b.(processor := step.processor);
    var r := MP.Analyze(b.processor.maxLength, raw, now);
    if r.Some? {
      var answered := ForwardCounts(b1, r.value, external, elapsed, writeOk);
      ForwardShape(b1, r.value, external, elapsed, writeOk);
      var h := Forward(b1, r.value, external, elapsed, writeOk);
      var added := RecordsAdded(b1.log, h.bridge.log, h.record, r.value, LogsTo(b.transactionFile) && writeOk);
      HealthyStep(b, h.bridge, 1, answered, added);
    } else {
      assert b1.log == b.log + [];
      HealthyStep(b, b1, 0, 0, []);
    }
  }

  /** The invariant carried over one step in which `accepted` messages reached the manager,
      `answered` of them got an answer, and `added` records were written. */
  lemma HealthyStep(b: Bridge, c: Bridge, accepted: nat, answered: nat, added: seq<Transaction>)
    requires Healthy(b)
    requires MP.Consistent(c.processor.stats) && LI.Consistent(c.llm.stats)
    requires c.processor.stats.valid == b.processor.stats.valid + accepted
    requires c.llm.stats.total == b.llm.stats.total + accepted
    requires c.llm.stats.successful == b.llm.stats.successful + answered
    requires c.log == b.log + added && |added| <= answered
    requires forall k :: 0 <= k < |added| ==> Recorded(added[k])
    ensures Healthy(c)
  {
    forall k | 0 <= k < |c.log|
      ensures Recorded(c.log[k])
    {
      if k < |b.log| {
        assert c.log[k] == b.log[k];
      } else {
        assert c.log[k] == added[k - |b.log|];
      }
    }
  }

  /** The configured test messages, or the two default ones. */
  const DefaultTestMessages: seq<string> := ["TEST MESSAGE FROM ACORN SYSTEM", "Hello from test mode!"]

  function TestMessages(configured: Option<seq<string>>): (ms: seq<string>)
    ensures configured.None? ==> ms == DefaultTestMessages
    ensures configured.Some? ==> ms == configured.value
  {
    match configured
    case Some(ms) => ms
    case None => DefaultTestMessages
  }

  /** The surroundings of the `i`-th message: its clock reading, how long the model took and
      whether the log write succeeds. */
  datatype Surroundings = Surroundings(now: nat -> MP.Stamp, elapsed: nat -> real, writeOk: nat -> bool)

  /** The messages fed through the callback one after another. */
  function Feed(b: Bridge, ms: seq<string>, env: Surroundings, external: nat -> LI.Attempt): (r: Bridge)
    ensures r.client == b.client && r.running == b.running
    ensures r.processor.stats.total == b.processor.stats.total + |ms|
    ensures b.log <= r.log
    decreases |ms|
  {
    if |ms| == 0 then b
    else
      var n := |ms| - 1;
      var before := Feed(b, ms[..n], env, external);
      MessageCallback(before, ms[n], env.now(n), external, env.elapsed(n), env.writeOk(n)).bridge
  }

  /** Feeding messages keeps the invariant. */
  lemma {:induction false} FeedKeepsHealthy(b: Bridge, ms: seq<string>, env: Surroundings,
                                            external: nat -> LI.Attempt)
    requires Healthy(b)
    ensures Healthy(Feed(b, ms, env, external))
    decreases |ms|
  {
    if |ms| > 0 {
      var n := |ms| - 1;
      FeedKeepsHealthy(b, ms[..n], env, external);
      CallbackKeepsHealthy(Feed(b, ms[..n], env, external), ms[n], env.now(n), external,
                           env.elapsed(n), env.writeOk(n));
    }
  }

  /** `run_test_mode`: every test message, in order, through the same callback. */
  method RunTestMode(b: Bridge, configured: Option<seq<string>>, env: Surroundings,
                     external: nat -> LI.Attempt) returns (r: Bridge)
    ensures r == Feed(b, TestMessages(configured), env, external)
    ensures r.processor.stats.total == b.processor.stats.total + |TestMessages(configured)|
    ensures Healthy(b) ==> Healthy(r)
  {
    var ms := TestMessages(configured);
    r := b;
    var i := 0;
    while i < |ms|
      invariant 0 <= i <= |ms|
      invariant r == Feed(b, ms[..i], env, external)
    {
      FeedStep(b, ms, i, env, external);
      r := MessageCallback(r, ms[i], env.now(i), external, env.elapsed(i), env.writeOk(i)).bridge;
      i := i + 1;
    }
    FeedWhole(b, ms, env, external);
  }

  /** Feeding every prefix ends with feeding the whole list, which keeps the invariant. */
  lemma FeedWhole(b: Bridge, ms: seq<string>, env: Surroundings, external: nat -> LI.Attempt)
    ensures Feed(b, ms[..|ms|], env, external) == Feed(b, ms, env, external)
    ensures Healthy(b) ==> Healthy(Feed(b, ms, env, external))
  {
    assert ms[..|ms|] == ms;
    if Healthy(b) {
      FeedKeepsHealthy(b, ms, env, external);
    }
  }

  /** Feeding one more message is one more callback. */
  lemma FeedStep(b: Bridge, ms: seq<string>, i: nat, env: Surroundings, external: nat -> LI.Attempt)
    requires i < |ms|
    ensures Feed(b, ms[..i + 1], env, external) ==
      MessageCallback(Feed(b, ms[..i], env, external), ms[i], env.now(i), external,
                      env.elapsed(i), env.writeOk(i)).bridge
  {
    assert ms[..i + 1][..i] == ms[..i];
  }

  /** The first default test message, on a mock-backed application whose mock is at its
      first template, is accepted as a test message, answered at the first attempt and
      logged with the mock's first answer. */
  lemma SentinelWithMock(b: Bridge, now: MP.Stamp, external: nat -> LI.Attempt, elapsed: real)
    requires b.processor.maxLength >= |MP.Sentinel|
    requires b.llm.backend.kind == LI.Mock && b.llm.backend.mockIndex == 0 && b.llm.maxRetries >= 1
    requires LogsTo(b.transactionFile)
    ensures var h := MessageCallback(b, DefaultTestMessages[0], now, external, elapsed, true);
      && h.calls == 1
      && h.bridge.log == b.log + [Transaction(now, MP.Sentinel, MP.Sentinel, MP.Test,
                                              "This is a mock response to your message.")]
  {
    assert DefaultTestMessages[0] == MP.Sentinel;
    var p := SentinelAnalyzed(b.processor.maxLength, now);
    var prompt := MP.FormatForLlm(p);
    LI.MockSucceedsFirst(b.llm, prompt, external, elapsed);
    assert LI.MockTemplate(0, prompt) == "This is a mock response to your message.";
    CallbackAnswered(b, MP.Sentinel, now, external, elapsed, p, "This is a mock response to your message.");
  }

  /** The sentinel is accepted unchanged and classified as a test message. */
  lemma SentinelAnalyzed(maxLength: int, now: MP.Stamp) returns (p: MP.Processed)
    requires maxLength >= |MP.Sentinel|
    ensures MP.Analyze(maxLength, MP.Sentinel, now) == Some(p)
    ensures p == MP.Processed(MP.Sentinel, MP.Sentinel, MP.Test, |MP.Sentinel|, now, true)
  {
    MP.SentinelIsClean();
    MP.SentinelAccepted(maxLength);
    MP.SentinelIsAlsoSystemShaped();
    p := MP.Processed(MP.Sentinel, MP.Sentinel, MP.Test, |MP.Sentinel|, now, true);
  }

  /** An accepted message that the manager answers is logged to a configured file whose
      write succeeds. */
  lemma CallbackAnswered(b: Bridge, raw: string, now: MP.Stamp, external: nat -> LI.Attempt,
                         elapsed: real, p: MP.Processed, answer: string)
    requires MP.Analyze(b.processor.maxLength, raw, now) == Some(p)
    requires LI.ProcessMessage(b.llm, MP.FormatForLlm(p), external, elapsed).response == Some(answer)
    requires LogsTo(b.transactionFile)
    ensures var h := MessageCallback(b, raw, now, external, elapsed, true);
      && h.calls == LI.ProcessMessage(b.llm, MP.FormatForLlm(p), external, elapsed).calls
      && h.bridge.log == b.log + [Record(p, answer)]
  {
  }

  /** `stop`: the running flag is cleared, then the serial client is stopped. */
  function Stop(b: Bridge): (r: Bridge)
    ensures !r.running && !r.client.running && r.client.port != SC.Open
    ensures r.processor == b.processor && r.llm == b.llm && r.log == b.log
  {
    b.(running := false, client := SC.Stop(b.client))
  }

  /** Stopping twice is stopping once. */
  lemma StopIdempotent(b: Bridge)
    ensures Stop(Stop(b)) == Stop(b)
  {
    SC.StopIdempotent(b.client);
  }
}
