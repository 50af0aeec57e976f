/**
 * The LLM side of the bridge: interface selection, the deterministic mock backend and the
 * manager's bounded retry loop with its success/failure statistics.
 *
 * The command-line and HTTP backends are not modelled; their answers come from the
 * parameter `external`, the outcome of the backend's `n`-th call being `external(n)`.
 * Elapsed time is a parameter too, and the pause between attempts is only counted.
 */
module LlmInterface {
  import opened Wrappers

  /** Which backend `_create_interface` builds. */
  datatype Interface = CommandLine | Api | Mock

  /** What one call of a backend's `generate` produced: some text (possibly empty),
      `None`, or an exception. */
  datatype Attempt = Reply(text: string) | NoReply | Raised

  /** `if response:` succeeds only on a non-empty string. */
  predicate Succeeded(a: Attempt) {
    a.Reply? && a.text != ""
  }

  const DefaultInterface: string := "mock"
  const DefaultMaxRetries: int := 3
  const MockTemplateCount: nat := 4

  type TemplateIndex = i: nat | i < 4

  /** `_create_interface`: `command` and `api` name the real backends, anything else is the mock. */
  function SelectInterface(interfaceType: string): (k: Interface)
    ensures k == CommandLine <==> interfaceType == "command"
    ensures k == Api <==> interfaceType == "api"
    ensures k == Mock <==> interfaceType != "command" && interfaceType != "api"
  {
    if interfaceType == "command" then CommandLine
    else if interfaceType == "api" then Api
    else Mock
  }

  /** The mock's four answers; only the second one mentions the prompt. */
  function MockTemplate(i: TemplateIndex, prompt: string): (r: string)
    ensures r != ""
    ensures i == 1 ==> r == "I understand you sent: " + prompt
    ensures i != 1 ==> r[0] != 'I'
  {
    match i
    case 0 => "This is a mock response to your message."
    case 1 => "I understand you sent: " + prompt
    case 2 => "Mock LLM processed your input successfully."
    case 3 => "Response generated for testing purposes."
  }

  /** Only the second template quotes the prompt; the other three are fixed texts. */
  lemma MockTemplateIgnoresPrompt(i: TemplateIndex, p: string, q: string)
    requires i != 1
    ensures MockTemplate(i, p) == MockTemplate(i, q)
  {
  }

  /** A backend with its cycle position (mock) and the number of calls it has served. */
  datatype Backend = Backend(kind: Interface, mockIndex: TemplateIndex, served: nat)

  datatype Generated = Generated(backend: Backend, attempt: Attempt)

  /** One call of `generate`: the mock answers from its template cycle and moves to the next
      template; the other backends answer whatever their next outcome is. */
  function Generate(b: Backend, prompt: string, external: nat -> Attempt): (g: Generated)
    ensures g.backend.kind == b.kind
    ensures g.backend.served == b.served + 1
    ensures b.kind == Mock ==>
      && Succeeded(g.attempt)
      && g.attempt.text == MockTemplate(b.mockIndex, prompt)
      && g.backend.mockIndex == (b.mockIndex + 1) % MockTemplateCount
    ensures b.kind != Mock ==> g.attempt == external(b.served) && g.backend.mockIndex == b.mockIndex
  {
    if b.kind == Mock then
      Generated(b.(mockIndex := (b.mockIndex + 1) % 4, served := b.served + 1),
                Reply(MockTemplate(b.mockIndex, prompt)))
    else
      Generated(b.(served := b.served + 1), external(b.served))
  }

  /** `is_available`: the mock always is; the others report what their probe found. */
  function IsAvailable(b: Backend, probe: bool): (ok: bool)
    ensures b.kind == Mock ==> ok
    ensures b.kind != Mock ==> (ok <==> probe)
  {
    b.kind == Mock || probe
  }

  /** No outcomes at all: the mock never consults them. */
  function Silent(n: nat): Attempt {
    NoReply
  }

  /** The template position `steps` answers after position `start`. */
  function CycleIndex(start: TemplateIndex, steps: nat): TemplateIndex {
    (start + steps) % 4
  }

  /** The mock backend after one answer. */
  function MockNext(b: Backend): (n: Backend)
    requires b.kind == Mock
    ensures n.kind == Mock && n.mockIndex == (b.mockIndex + 1) % 4 && n.served == b.served + 1
  {
    b.(mockIndex := (b.mockIndex + 1) % 4, served := b.served + 1)
  }

  /** The mock backend after `n` answers. */
  function MockAfter(b: Backend, n: nat): (a: Backend)
    requires b.kind == Mock
    ensures a.kind == Mock
    decreases n
  {
    if n == 0 then b else MockNext(MockAfter(b, n - 1))
  }

  /** After `n` answers the mock sits at template `(start + n) mod 4` and has served `n` more. */
  lemma {:induction false} MockAfterIndex(b: Backend, n: nat)
    requires b.kind == Mock
    ensures MockAfter(b, n).mockIndex == CycleIndex(b.mockIndex, n)
    ensures MockAfter(b, n).served == b.served + n
    decreases n
  {
    if n > 0 {
      MockAfterIndex(b, n - 1);
      CycleStep(b.mockIndex, n);
    }
  }

  lemma CycleStep(m: TemplateIndex, n: nat)
    requires n > 0
    ensures (CycleIndex(m, n - 1) + 1) % 4 == CycleIndex(m, n)
  {
    var x := m + n - 1;
    assert (x % 4 + 1) % 4 == (x + 1) % 4;
  }

  /** The mock's answers to a sequence of prompts: the `i`-th comes from the mock as it
      stands after the `i` answers before it. */
  function MockAnswers(b: Backend, prompts: seq<string>): (rs: seq<string>)
    requires b.kind == Mock
    ensures |rs| == |prompts|
  {
    seq(|prompts|, i requires 0 <= i < |prompts| => Generate(MockAfter(b, i), prompts[i], Silent).attempt.text)
  }

  /** One mock answer moves the backend exactly one step along. */
  lemma MockGenerateSteps(b: Backend, prompt: string, external: nat -> Attempt)
    requires b.kind == Mock
    ensures Generate(b, prompt, external).backend == MockNext(b)
  {
  }

  /** The mock cycles through its templates: the `i`-th answer uses template
      `(start + i) mod 4`, whatever the prompts. */
  lemma MockCycles(b: Backend, prompts: seq<string>)
    requires b.kind == Mock
    ensures forall i :: 0 <= i < |prompts| ==>
      MockAnswers(b, prompts)[i] == MockTemplate(CycleIndex(b.mockIndex, i), prompts[i])
  {
    forall i | 0 <= i < |prompts|
      ensures MockAnswers(b, prompts)[i] == MockTemplate(CycleIndex(b.mockIndex, i), prompts[i])
    {
      MockAfterIndex(b, i);
    }
  }

  /** The outcome of the retry loop from attempt number `attempt` on. */
  datatype RetryRun = RetryRun(backend: Backend, response: Option<string>, calls: nat, delays: nat)

  function Remaining(attempt: nat, maxRetries: int): nat {
    if attempt < maxRetries then maxRetries - attempt else 0
  }

  /** `for attempt in range(max_retries)`: call `generate`, stop at the first non-empty
      answer, otherwise pause (except after the last attempt) and try again; an empty
      answer, `None` and an exception are all just failed attempts. */
  function RetryFrom(b: Backend, prompt: string, external: nat -> Attempt, attempt: nat, maxRetries: int): (r: RetryRun)
    ensures r.calls <= Remaining(attempt, maxRetries)
    ensures r.backend.kind == b.kind && r.backend.served == b.served + r.calls
    ensures r.delays == (if r.calls == 0 then 0 else r.calls - 1)
    ensures r.response.Some? ==> r.response.value != "" && r.calls > 0
    ensures r.response.None? ==> r.calls == Remaining(attempt, maxRetries)
    ensures b.kind != Mock && r.response.Some? ==>
      Succeeded(external(b.served + r.calls - 1)) && r.response == Some(external(b.served + r.calls - 1).text)
    ensures b.kind != Mock ==>
      forall j :: b.served <= j < b.served + r.calls - (if r.response.Some? then 1 else 0) ==> !Succeeded(external(j))
    ensures b.kind == Mock && attempt < maxRetries ==>
      r.calls == 1 && r.response == Some(MockTemplate(b.mockIndex, prompt))
    decreases Remaining(attempt, maxRetries)
  {
    if attempt >= maxRetries then RetryRun(b, None, 0, 0)
    else
      var g := Generate(b, prompt, external);
      if Succeeded(g.attempt) then RetryRun(g.backend, Some(g.attempt.text), 1, 0)
      else
        var rest := RetryFrom(g.backend, prompt, external, attempt + 1, maxRetries);
        var pause := if attempt < maxRetries - 1 then 1 else 0;
        RetryRun(rest.backend, rest.response, rest.calls + 1, rest.delays + pause)
  }

  /** The manager's counters; times are seconds. */
  datatype LlmStats = LlmStats(
    total: nat,
    successful: nat,
    failed: nat,
    totalTime: real,
    average: real)

  const ZeroLlmStats := LlmStats(0, 0, 0, 0.0, 0.0)

  /** Every request succeeded or failed, and the average is the total time over the
      successes (zero before the first one). */
  predicate Consistent(s: LlmStats) {
    && s.total == s.successful + s.failed
    && (s.successful == 0 ==> s.totalTime == 0.0 && s.average == 0.0)
    && (s.successful > 0 ==> s.average * (s.successful as real) == s.totalTime)
  }

  datatype LlmConfig = LlmConfig(interfaceType: Option<string>, maxRetries: Option<int>)

  datatype Manager = Manager(backend: Backend, maxRetries: int, stats: LlmStats)

  /** `LLMManager.__init__`: the mock and three attempts unless configured otherwise. */
  function NewManager(config: LlmConfig): (m: Manager)
    ensures m.backend.kind == SelectInterface(
      match config.interfaceType case Some(t) => t case None => DefaultInterface)
    ensures config.interfaceType.None? ==> m.backend.kind == Mock
    ensures m.maxRetries == (match config.maxRetries case Some(n) => n case None => DefaultMaxRetries)
    ensures m.backend.mockIndex == 0 && m.backend.served == 0
    ensures m.stats == ZeroLlmStats && Consistent(m.stats)
  {
    var kind := SelectInterface(match config.interfaceType case Some(t) => t case None => DefaultInterface);
    Manager(Backend(kind, 0, 0),
            match config.maxRetries case Some(n) => n case None => DefaultMaxRetries,
            ZeroLlmStats)
  }

  /** The result of `process_message`, with the number of backend calls and pauses made. */
  datatype Exchange = Exchange(manager: Manager, response: Option<string>, calls: nat, delays: nat)

  /** `process_message`: one request counted, then the retry loop; a success adds the
      elapsed time and recomputes the average, a failure only counts. */
  function ProcessMessage(m: Manager, prompt: string, external: nat -> Attempt, elapsed: real): (e: Exchange)
    ensures e.manager.maxRetries == m.maxRetries && e.manager.backend.kind == m.backend.kind
    ensures e.calls <= Remaining(0, m.maxRetries)
    ensures e.delays == (if e.calls == 0 then 0 else e.calls - 1)
    ensures m.maxRetries <= 0 ==> e.calls == 0 && e.response.None?
    ensures e.response.Some? ==> e.response.value != ""
    ensures e.manager.stats.total == m.stats.total + 1
    ensures e.response.Some? ==>
      && e.manager.stats.successful == m.stats.successful + 1
      && e.manager.stats.failed == m.stats.failed
      && e.manager.stats.totalTime == m.stats.totalTime + elapsed
      && e.manager.stats.average * (e.manager.stats.successful as real) == e.manager.stats.totalTime
    ensures e.response.None? ==>
      && e.manager.stats.failed == m.stats.failed + 1
      && e.manager.stats.successful == m.stats.successful
      && e.manager.stats.totalTime == m.stats.totalTime
      && e.manager.stats.average == m.stats.average
    ensures Consistent(m.stats) ==> Consistent(e.manager.stats)
  {
    var run := RetryFrom(m.backend, prompt, external, 0, m.maxRetries);
    var s := m.stats.(total := m.stats.total + 1);
    match run.response
    case Some(_) =>
      var successful := s.successful + 1;
      var totalTime := s.totalTime + elapsed;
      AverageTimesCount(totalTime, successful);
      Exchange(Manager(run.backend, m.maxRetries,
                       s.(successful := successful, totalTime := totalTime,
                          average := totalTime / (successful as real))),
               run.response, run.calls, run.delays)
    case None =>
      Exchange(Manager(run.backend, m.maxRetries, s.(failed := s.failed + 1)),
               None, run.calls, run.delays)
  }

  lemma AverageTimesCount(totalTime: real, n: nat)
    requires n > 0
    ensures (totalTime / (n as real)) * (n as real) == totalTime
  {
  }

  /** The answer of `process_message` on a real backend is the first successful outcome
      among its next `max_retries` calls, and `None` exactly when there is none. */
  lemma ExternalFirstSuccess(m: Manager, prompt: string, external: nat -> Attempt, elapsed: real)
    requires m.backend.kind != Mock
    ensures var e := ProcessMessage(m, prompt, external, elapsed);
      var n := Remaining(0, m.maxRetries);
      && (e.response.None? <==> forall j :: m.backend.served <= j < m.backend.served + n ==> !Succeeded(external(j)))
      && (e.response.Some? ==>
            exists k :: (&& m.backend.served <= k < m.backend.served + n
                         && Succeeded(external(k)) && e.response.value == external(k).text
                         && forall j :: m.backend.served <= j < k ==> !Succeeded(external(j))))
  {
    var e := ProcessMessage(m, prompt, external, elapsed);
    var run := RetryFrom(m.backend, prompt, external, 0, m.maxRetries);
    assert e.response == run.response && e.calls == run.calls;
    if e.response.Some? {
      var k := m.backend.served + run.calls - 1;
      assert Succeeded(external(k));
    }
  }

  /** Empty answers and exceptions are retried: with two or more attempts allowed, a real
      backend whose first outcome fails is called again. */
  lemma FailedAttemptIsRetried(m: Manager, prompt: string, external: nat -> Attempt, elapsed: real)
    requires m.backend.kind != Mock && m.maxRetries >= 2
    requires external(m.backend.served) in {Reply(""), NoReply, Raised}
    ensures ProcessMessage(m, prompt, external, elapsed).calls >= 2
  {
    var run := RetryFrom(m.backend, prompt, external, 0, m.maxRetries);
    assert !Succeeded(external(m.backend.served));
    if run.response.Some? {
      assert run.calls != 1;
    }
  }

  /** With the mock, the first attempt always succeeds and no pause is taken. */
  lemma MockSucceedsFirst(m: Manager, prompt: string, external: nat -> Attempt, elapsed: real)
    requires m.backend.kind == Mock && m.maxRetries >= 1
    ensures var e := ProcessMessage(m, prompt, external, elapsed);
      && e.response == Some(MockTemplate(m.backend.mockIndex, prompt))
      && e.calls == 1 && e.delays == 0
      && e.manager.backend.mockIndex == (m.backend.mockIndex + 1) % 4
  {
    var run := RetryFrom(m.backend, prompt, external, 0, m.maxRetries);
    assert run.backend == Generate(m.backend, prompt, external).backend;
  }

  /** `reset_stats`: every counter and time back to zero. */
  function ResetStats(m: Manager): (q: Manager)
    ensures q.backend == m.backend && q.maxRetries == m.maxRetries
    ensures q.stats.total == 0 && q.stats.successful == 0 && q.stats.failed == 0
    ensures q.stats.totalTime == 0.0 && q.stats.average == 0.0
    ensures Consistent(q.stats)
  {
    m.(stats := ZeroLlmStats)
  }
}
