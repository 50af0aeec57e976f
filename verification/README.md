# ArmGPT serial-to-LLM bridge, modelled in Dafny

The bridge reads text lines sent by an ARM assembly program over a serial link. It cleans and
validates each line, classifies it (test, system or custom), frames it as a prompt and
sends it to a language-model backend. The backend is a local command, an HTTP API or a
deterministic mock, wrapped in a bounded retry loop. Each answered exchange is recorded in
an optional transaction log.

This project models that core as pure functions over immutable records. It proves what
each step promises.

- `Wrappers`: `Option` and `Result`.
- `Text`: Python's notion of whitespace (CPython's `Py_UNICODE_ISSPACE`), `strip`,
  `lstrip` and `rstrip`, plus prefix, suffix and substring tests. `strip()` is characterised
  exactly: it removes whitespace from both ends and nothing else, and it is the only
  function that does so.
- `Ascii`: bytes, `str.encode('ascii')` (which fails on any character above 127) and
  `bytes.decode('ascii', errors='ignore')`.
- `MessageProcessor` (`src/message_processor.py`) covers:
  - the four-step cleaning;
  - validation in its fixed order, with per-reason counters;
  - the corruption heuristics;
  - classification;
  - prompt framing, statistics and batch processing.
- `LlmInterface` (`src/llm_interface.py`) covers:
  - interface selection;
  - the mock's four-template cycle;
  - the manager's retry loop over an abstract backend, with its statistics.
- `SerialClient` (`src/serial_client.py`) covers:
  - the outbound newline and 64-byte chunking;
  - inbound frame decoding;
  - the reader loop's consecutive-error counter as a state machine;
  - the bounded reconnect loop;
  - the `start`/`stop` guards.
- `App` (`main.py`) covers:
  - `message_callback` with `_log_transaction`;
  - test mode;
  - `stop`;
  - an application-wide invariant that every callback preserves.
- `ResponseFraming` (`test_response_sending.py`): the prefix/suffix/truncation formula for
  answers sent back over the link, including Python's negative slicing.
- `Loopback` (`test_serial_loopback.py`): the received-line filter and the echo analysis.

The outside world enters as parameters, never as hidden state:
- A clock reading is a `Stamp` (an opaque string).
- The backend's answers are a function from the call number to an outcome: a reply, `None`
  or an exception.
- Connect outcomes are a function from the attempt number to a boolean.
- Elapsed times are reals.
- Whether a write fails is a flag or a chunk index.
- The reader loop is driven by a sequence of events.

Two behaviours of the code worth stating plainly:
- The echo test counts a received line as an echo of a sent line when either text contains
  the other and the line arrived 0 to 1 s after sending.
- `_reconnect` sleeps after every failed attempt, the last one included.

## Model

| member | source | states |
|---|---|---|
| Text.IsSpace | src/message_processor.py:86-92 | CPython's whitespace class, shared by `strip()`, `isspace()` and `\s`: the ASCII characters 9 to 13 and 28 to 32 plus the Unicode separators; `StripSpec`, `StripEmptyIffSpaces` and `CollapseSplit` state what each use does with it |
| Text.Strip | src/message_processor.py:86 | the result is never longer than the text; `StripSpec` and `StripOfIsStrip` characterise it exactly |
| Text.LStrip | src/message_processor.py:86 | `lstrip()` keeps a suffix of the text, removes only whitespace, and the result does not start with whitespace |
| Text.RStrip | src/message_processor.py:86 | `rstrip()` keeps a prefix, removes only whitespace, and the result does not end with whitespace |
| Text.StripSpec | src/message_processor.py:86 | `strip()` yields a trimmed piece of the text with nothing but whitespace removed on either side |
| Text.StripOfIsStrip | src/message_processor.py:86 | any trimmed piece obtained by removing only whitespace from both ends is `strip()`'s result; together with `StripSpec` this characterises `strip` |
| Text.StripPadded | src/serial_client.py:132 | whitespace on both sides of trimmed text is exactly what `strip()` removes |
| Text.StripTrimmed | src/message_processor.py:86 | text without whitespace at either end is unchanged by `strip()` |
| Ascii.DecodeIgnore | src/serial_client.py:132 | decoding with `errors='ignore'` yields ASCII text no longer than the bytes, and as long as them when every byte is below 128 |
| Ascii.Encode | src/serial_client.py:222 | encoding succeeds exactly on all-ASCII text and maps each character to its code point |
| Ascii.DecodeByte | src/serial_client.py:132 | a single byte decodes to its character when it is below 128 and to nothing otherwise |
| Ascii.DecodeAppend | src/serial_client.py:132 | decoding distributes over concatenation, so together with `DecodeByte` the result is exactly the ASCII bytes, in order |
| Ascii.DecodeEncode | src/serial_client.py:222 | decoding what was encoded gives the original text back |
| MessageProcessor.RemoveControls | src/message_processor.py:89 | the control-character substitution leaves no control character and keeps every visible character in order |
| MessageProcessor.CollapseSpaces | src/message_processor.py:92 | after `re.sub(r'\s+', ' ')` the only whitespace is single blanks, and the visible characters are kept in order |
| MessageProcessor.RemoveControlsChar | src/message_processor.py:89 | a single character is deleted exactly when it is in the control class; every other character, blanks, tabs, CR and LF included, is kept |
| MessageProcessor.RemoveControlsAppend | src/message_processor.py:89 | the substitution distributes over concatenation, so with `RemoveControlsChar` it fixes the result on every input |
| MessageProcessor.CollapseRun | src/message_processor.py:92 | a non-empty whitespace run in front of a word, or at the end, becomes exactly one blank |
| MessageProcessor.CollapseSplit | src/message_processor.py:92 | a whitespace run between two pieces becomes one blank, and each piece collapses on its own |
| MessageProcessor.CollapseFromSingleSpaced | src/message_processor.py:92 | collapsing changes nothing in text whose whitespace is already single blanks |
| MessageProcessor.RStripNewlines | src/message_processor.py:95 | `rstrip('\r\n')` removes only a trailing run of CR/LF, and the result does not end in one |
| MessageProcessor.BlanksHaveNoNewlines | src/message_processor.py:92-95 | after collapsing there is no CR or LF left, so the final `rstrip('\r\n')` is a no-op |
| MessageProcessor.Clean | src/message_processor.py:86-97 | cleaned text holds no control character, no CR, LF or NUL, and no two neighbouring whitespace characters; it keeps every visible character of the raw text, in order |
| MessageProcessor.CleanJoinsWords | src/message_processor.py:86-97 | two tidy words separated by any run of non-control whitespace clean to the two words with one blank between them |
| MessageProcessor.VisibleStrip | src/message_processor.py:86 | stripping removes no visible character |
| MessageProcessor.CleanTidy | src/message_processor.py:86-97 | cleaning leaves already-tidy text unchanged |
| MessageProcessor.CleanShapedIsStrip | src/message_processor.py:86-97 | on text without control characters or whitespace runs, cleaning is just `strip()` |
| MessageProcessor.CleanTwice | src/message_processor.py:86-97 | a second cleaning pass can only strip a blank left at either end by the first |
| MessageProcessor.CleanIdempotentWhenTrimmed | src/message_processor.py:86-97 | when cleaned text has no blank at either end, cleaning again changes nothing |
| MessageProcessor.ControlShieldsBlank | src/message_processor.py:86-89 | `"\x01 [abc]"` cleans to `" [abc]"`: strip runs before control removal, so the blank survives |
| MessageProcessor.ReprocessingCanReclassify | src/message_processor.py:86-92 | cleaning is not idempotent: `"\x01 [abc]"` is custom after one cleaning and system after two |
| MessageProcessor.CleanPadded | src/message_processor.py:86-97 | whitespace around tidy text is all that cleaning removes |
| MessageProcessor.ExampleSentinelCleaning | src/message_processor.py:86-97 | `"  TEST MESSAGE FROM ACORN SYSTEM\n"` cleans to the sentinel |
| MessageProcessor.HasSuspiciousPatterns | src/message_processor.py:132-156 | more than 20% non-ASCII, a NUL, or more than 10 characters drawn from fewer than 3 distinct ones; `SuspiciousAfterCleaning` states what remains of it on cleaned text |
| MessageProcessor.NonAsciiCount | src/message_processor.py:142 | the count of characters above 127 never exceeds the length |
| MessageProcessor.NonAsciiRatioIntegerForm | src/message_processor.py:143 | "more than 20% non-ASCII" is the integer test `5 * count > length` |
| MessageProcessor.SuspiciousAfterCleaning | src/message_processor.py:142-156 | on cleaned text the NUL test never fires; a message is suspicious iff `5 * count > length`, or it is longer than 10 with fewer than 3 distinct characters |
| MessageProcessor.Validate | src/message_processor.py:108-130 | the verdict is Accept iff no check objects; a rejection names a check that objects, and every earlier check passes |
| MessageProcessor.NoRunsNotWhitespaceOnly | src/message_processor.py:123-124 | text without neighbouring whitespace is never rejected as whitespace-only |
| MessageProcessor.WhitespaceCheckUnreachable | src/message_processor.py:123-124 | on cleaned text the whitespace-only rejection cannot happen |
| MessageProcessor.AcceptedWhenPlain | src/message_processor.py:108-130 | plain ASCII text within the length bounds, starting with a visible character and with three distinct characters, is accepted |
| MessageProcessor.SentinelAccepted | src/message_processor.py:108-130 | the sentinel passes validation whenever the limit admits its 30 characters |
| MessageProcessor.Classify | src/message_processor.py:167-184 | a message is test iff it is the sentinel; system iff it is not the sentinel and matches a system pattern; otherwise custom |
| MessageProcessor.SentinelIsAlsoSystemShaped | src/message_processor.py:167-181 | the sentinel also matches `^TEST\s+`, so checking it first is what makes it a test message |
| MessageProcessor.ClassifyCleaned | src/message_processor.py:172-181 | on cleaned text, system means a keyword (ASCII case ignored) followed by a blank, or a text opening with `[` and closing with `]` |
| MessageProcessor.WordThenBlank | src/message_processor.py:173-175 | where the only whitespace is the blank, `^WORD\s+` means the keyword followed by a blank |
| MessageProcessor.BracketedWithoutNewlines | src/message_processor.py:176 | without newlines, `^\[.*\]$` tests only the first and last characters |
| MessageProcessor.FormatForLlm | src/message_processor.py:226-233 | custom messages pass through unchanged; a test message becomes `"[ARM System Test] "` followed by the cleaned text, a system message `"[ARM System Message] "` followed by it |
| MessageProcessor.NewProcessor | src/message_processor.py:16-29 | the length limit defaults to 512, and every counter starts at zero |
| MessageProcessor.Analyze | src/message_processor.py:43-71 | a message is returned iff its cleaned text validates; the result keeps the raw text, carries the cleaned text and its length (between 3 and the limit), its class and the clock reading |
| MessageProcessor.Tally | src/message_processor.py:40-61 | one message counted: total +1, exactly one of valid/invalid +1, the empty/oversized counter for those rejections only, and the test/custom counter for those kinds only |
| MessageProcessor.Process | src/message_processor.py:40-74 | the result is `Analyze`'s; total rises by one, valid rises on acceptance and invalid on rejection |
| MessageProcessor.ProcessCounters | src/message_processor.py:40-61 | only empty and oversized rejections have a counter, only test and custom messages have a type counter |
| MessageProcessor.ProcessKeepsConsistent | src/message_processor.py:40-52 | `total == valid + invalid` and the sub-counter bounds are preserved by every call |
| MessageProcessor.TooShortHasNoCounter | src/message_processor.py:119-120 | a too-short message moves only total and invalid |
| MessageProcessor.ResetStats | src/message_processor.py:206-209 | every counter returns to zero, and the limit is kept |
| MessageProcessor.GetStats | src/message_processor.py:192-204 | the report holds the counters; percentages are zero before the first message and otherwise bounded by 100, with test and custom at most the valid percentage |
| MessageProcessor.PercentagesBounded | src/message_processor.py:195-198 | consistent counters give percentages in `[0, 100]` with test and custom at most valid |
| MessageProcessor.AcceptedFrom | src/message_processor.py:244-250 | the accepted results never outnumber the inputs |
| MessageProcessor.BatchProcess | src/message_processor.py:235-250 | the batch returns the accepted results in input order; total grows by the input count, valid by the number returned, invalid by the rest; the empty and oversized counters grow by the number of inputs rejected for that reason, the test and custom counters by the number accepted with that type |
| MessageProcessor.TallyAllCounts | src/message_processor.py:244-248 | processing a list one message at a time grows total by its length, keeps the counters consistent, and grows each per-reason and per-type counter by the number of matching messages |
| MessageProcessor.AcceptedFromSound | src/message_processor.py:244-248 | every batch result comes from an input, is valid, and carries that input's cleaned text and its length |
| MessageProcessor.SentinelScenario | src/message_processor.py:226-228 | whatever cleans to the sentinel is accepted as test and framed as `"[ARM System Test] TEST MESSAGE FROM ACORN SYSTEM"` |
| MessageProcessor.SentinelIsClean | src/message_processor.py:86-97 | the sentinel is its own cleaning |
| MessageProcessor.SentinelReclassifies | src/message_processor.py:167-169 | re-cleaning sentinel text still gives a test message |
| LlmInterface.SelectInterface | src/llm_interface.py:228-238 | `command` selects the command-line backend, `api` the HTTP one, and anything else the mock |
| LlmInterface.MockTemplate | src/llm_interface.py:173-178 | every template is non-empty; the second is `"I understand you sent: "` followed by the prompt, and the others begin differently |
| LlmInterface.MockTemplateIgnoresPrompt | src/llm_interface.py:173-194 | the first, third and fourth templates are fixed texts that do not depend on the prompt |
| LlmInterface.Generate | src/llm_interface.py:182-199 | the mock always succeeds with its current template and advances its index mod 4; other backends answer their next outcome; every call is counted |
| LlmInterface.IsAvailable | src/llm_interface.py:201-203 | the mock is always available; the others report their probe |
| LlmInterface.MockGenerateSteps | src/llm_interface.py:195-196 | one mock answer moves the index one step along the cycle |
| LlmInterface.MockAfterIndex | src/llm_interface.py:196 | after `n` answers the mock sits at `(start + n) mod 4` and has served `n` calls |
| LlmInterface.MockCycles | src/llm_interface.py:195-196 | the `i`-th of a run of mock answers uses template `(start + i) mod 4`, whatever the prompts |
| LlmInterface.RetryFrom | src/llm_interface.py:252-283 | at most `max_retries` calls; a result is the first non-empty answer; every earlier outcome failed; no result means every attempt failed; there is one pause fewer than calls; the mock answers at the first attempt |
| LlmInterface.NewManager | src/llm_interface.py:209-226 | the backend comes from `interface_type` (mock by default), three attempts by default, counters at zero |
| LlmInterface.ProcessMessage | src/llm_interface.py:249-283 | each call counts one request and exactly one success or failure; a success adds the elapsed time and keeps `average * successful == total time`; a failure leaves both; with `max_retries <= 0` nothing is called |
| LlmInterface.ExternalFirstSuccess | src/llm_interface.py:252-268 | on a real backend the answer is the first successful outcome among the next `max_retries` calls, and there is none exactly when all fail |
| LlmInterface.FailedAttemptIsRetried | src/llm_interface.py:258-278 | an empty answer, `None` or an exception is retried when attempts remain |
| LlmInterface.MockSucceedsFirst | src/llm_interface.py:252-268 | a mock-backed manager answers with its current template at the first attempt, without a pause |
| LlmInterface.ResetStats | src/llm_interface.py:293-296 | every counter and time returns to zero, and the backend is kept |
| SerialClient.WithNewline | src/serial_client.py:217-218 | the message ends with a newline afterwards, and one is added exactly when it was missing |
| SerialClient.Chunks | src/serial_client.py:221-227 | the chunks concatenate to the bytes; there are `ceil(n / 64)` of them, all non-empty, at most 64 bytes, all but the last exactly 64 |
| SerialClient.SendMessage | src/serial_client.py:211-234 | no open port or a non-ASCII character means failure with nothing written; success iff no write fails, and then the chunks are the encoded message with its newline; a failed write leaves a prefix of the chunks written |
| SerialClient.NewlineKeepsAscii | src/serial_client.py:217-222 | adding the newline keeps exactly the ASCII messages encodable |
| SerialClient.DecodeFrame | src/serial_client.py:130-134 | a delivered line is never empty |
| SerialClient.DecodeFrameSpec | src/serial_client.py:130-134 | a delivered line is the stripped ASCII text of the frame; a frame is skipped iff it is empty or decodes to whitespace |
| SerialClient.StripEmptyIffSpaces | src/serial_client.py:132-134 | `strip()` leaves nothing exactly when the text is all whitespace |
| SerialClient.StripKeepsAscii | src/serial_client.py:132 | stripping ASCII text leaves ASCII text |
| SerialClient.SendThenReceive | src/serial_client.py:211-234 | a trimmed non-empty ASCII message sent over the link is received as itself |
| SerialClient.Observe | src/serial_client.py:118-166 | a pass delivers a line iff a frame decodes to something, and the line is that decoding |
| SerialClient.ReaderStep | src/serial_client.py:114-166 | a serial fault increments the counter and the third resets it with a reconnect; a line is queued and delivered and, unless the callback raised, resets the counter; the counter stays below 3 |
| SerialClient.Received | src/serial_client.py:134-143 | only a delivered line reaches the queue |
| SerialClient.Run | src/serial_client.py:114-166 | the counter stays in `0..2` throughout a run |
| SerialClient.RunDelivers | src/serial_client.py:138-143 | the queue and the callback receive exactly the decoded lines, in arrival order |
| SerialClient.LinesAreDecodedFrames | src/serial_client.py:130-139 | every queued line is non-empty and is the decoding of one of the frames read |
| SerialClient.RunErrors | src/serial_client.py:145-162 | the counter is the number of serial faults since the last clean delivery, mod 3 |
| SerialClient.Disconnect | src/serial_client.py:76-83 | an open port is closed; otherwise nothing changes |
| SerialClient.Reconnect | src/serial_client.py:168-186 | success iff one of the first `attempts` connects succeeds; it stops at the first; every earlier attempt failed; a pause follows every failure, the last included |
| SerialClient.Start | src/serial_client.py:85-99 | starting fails iff the port is not open and connecting fails; otherwise the client is open, running and reading |
| SerialClient.Stop | src/serial_client.py:101-106 | stopping clears `running` and leaves no open port, also without a prior start |
| SerialClient.StopIdempotent | src/serial_client.py:101-106 | stopping twice is stopping once |
| App.NewBridgeHealthy | main.py:56-59 | a fresh application satisfies the application invariant |
| App.FreshCounters | main.py:56-59 | a fresh application has all counters at zero and an empty log |
| App.DefaultBridge | main.py:56-59 | without configuration: limit 512, the mock at its first template, three attempts |
| App.Record | main.py:126-132 | the record copies timestamp, raw, cleaned text and type from the processed message and holds the answer |
| App.MessageCallback | main.py:91-117 | every message is counted by the processor; a rejected one stops there; an accepted one is forwarded |
| App.Forward | main.py:107-141 | the framed prompt goes to the manager once; a record exists iff an answer came; it is appended only to a configured file whose write succeeds, and a failed write is swallowed |
| App.CallbackRouting | main.py:98-110 | a rejected message leaves the LLM manager, its statistics and the log untouched, with no call; an accepted one makes one request with the framed prompt |
| App.CallbackRecordsAreWellFormed | main.py:112-132 | a record holds the cleaned form of its raw input, passed validation, its class and a non-empty answer |
| App.ForwardCounts | main.py:107-117 | forwarding adds one request, and one success exactly when a record was built |
| App.ForwardShape | main.py:112-141 | the record is the processed message with a non-empty answer, and the log grows by it exactly when a file is configured and the write succeeds |
| App.CallbackKeepsHealthy | main.py:91-141 | the callback preserves the invariant: consistent counters, requests equal accepted messages, at most one record per success, every record well formed |
| App.TestMessages | main.py:147-151 | test mode uses the configured list, or the sentinel and `"Hello from test mode!"` |
| App.Feed | main.py:153-155 | feeding messages counts each one and only appends to the log |
| App.FeedKeepsHealthy | main.py:153-155 | feeding any list of messages preserves the invariant |
| App.RunTestMode | main.py:143-158 | test mode is the callback applied to each message in order, and it preserves the invariant |
| App.SentinelWithMock | main.py:148-155 | the first default test message on a fresh mock is answered at the first call and logged with the first canned answer |
| App.CallbackAnswered | main.py:112-141 | an accepted, answered message is logged to a configured file whose write succeeds |
| App.Stop | main.py:214-219 | stopping clears the running flag and stops the serial client; counters and log are kept |
| App.StopIdempotent | main.py:214-219 | stopping twice is stopping once |
| ResponseFraming.Body | test_response_sending.py:39-40 | an answer that fits is kept; a longer one becomes a prefix of it followed by `"..."` |
| ResponseFraming.FrameResponse | test_response_sending.py:39-42 | the framed text starts with the prefix, ends with the suffix and has their lengths plus the body's |
| ResponseFraming.FitsUnchanged | test_response_sending.py:39-42 | an answer within the budget is framed as `prefix + answer + suffix`, within the limit |
| ResponseFraming.FramedWithinLimit | test_response_sending.py:39-42 | with room for the ellipsis the framed text never exceeds the limit; a cut answer keeps its first `budget - 3` characters and fills the limit exactly |
| ResponseFraming.NegativeSliceOverruns | test_response_sending.py:39-40 | below that bound the negative slice can overrun: limit 10 and a 20-character answer give 30 characters |
| ResponseFraming.Repeat | test_response_sending.py:48 | `s * n` has `n` times the length of `s` |
| ResponseFraming.LongExample | test_response_sending.py:48-53 | the 290-character example frames to exactly 100 characters |
| ResponseFraming.ShortExample | test_response_sending.py:30-42 | the 36-character example is framed whole |
| Loopback.Receive | test_serial_loopback.py:29-35 | a read yields a line iff it decodes to something, with the read's time and non-empty text |
| Loopback.ReceivedLines | test_serial_loopback.py:29-35 | the received list holds non-empty lines, at most one per read |
| Loopback.ReceivedLinesAreDecoded | test_serial_loopback.py:31-35 | every received line is non-empty, stripped ASCII text |
| Loopback.IsEcho | test_serial_loopback.py:137-139 | a received line echoes a sent one when either text contains the other and it arrived 0 to 1 s after sending; `EchoesSound` and `EchoesComplete` tie the reported echoes to it |
| Loopback.EchoesOf | test_serial_loopback.py:135-144 | one sent line has no more echoes than there are received lines |
| Loopback.Echoes | test_serial_loopback.py:133-144 | there are at most `|sent| * |received|` echoes |
| Loopback.AnalyzeEchoes | test_serial_loopback.py:133-144 | the nested analysis loop finds exactly the echoes of every (sent, received) pair, in order |
| Loopback.EchoesOfLine | test_serial_loopback.py:135-144 | the inner loop finds exactly the echoes of one sent line |
| Loopback.EchoesSound | test_serial_loopback.py:137-144 | every reported echo comes from a pair that passes the test, with that pair's delay |
| Loopback.EchoesComplete | test_serial_loopback.py:137-144 | every passing pair is reported |
| Loopback.IdenticalWithinASecond | test_serial_loopback.py:137-139 | the same text received within a second is always an echo |
| Loopback.EarlierNeverEcho | test_serial_loopback.py:137-139 | a line received before the send is never an echo |
| Loopback.LinesOfSentTextAreEchoes | test_serial_loopback.py:137-139 | each line of a two-line sent text, received on its own within a second, is an echo |
| Loopback.StripKeepsInteriorNewline | test_serial_loopback.py:126-130 | stripping the AI-formatted text keeps its interior newline before `---` |

## Left out

- Serial hardware, the reader thread, the message queue's blocking `get`, `in_waiting` polling and every `sleep`: I/O and timing. Reads arrive as events; pauses are only counted.
- Signal handlers and process exit, in `src/serial_client.py` and `main.py`: process-wide side effects.
- `CommandLineLLM` and `APILLM` (subprocess and HTTP): foreign calls. Their answers are the `external` outcome function, and their availability probe is a flag.
- `src/logger.py` and every log call: presentation only.
- Configuration and the command line (YAML loading, argparse, default-config creation), `run`, `run_serial_test_mode` and `_log_statistics`: the application is built from component configurations instead.
- The serial client's and the LLM manager's `get_stats` and the serial client's `get_message`: plain copies or queue reads with nothing to state beyond the counters already modelled.
- The diagnostics scripts and the live backend tests: hardware and network checks.
- The transaction file's YAML text: the log is the sequence of records written.
- App.NewBridge: it has no contract of its own. Its facts are stated by `App.FreshCounters`, `App.DefaultBridge` and `App.NewBridgeHealthy`.
- MessageProcessor.Classify: `re.IGNORECASE` is modelled as ASCII case folding. Python would also let `ſ` (U+017F) match the `s` of `TEST` or `SYSTEM`.
- MessageProcessor.Process: `datetime.now().isoformat()` is a clock-reading parameter, not a clock.
- MessageProcessor.GetStats: percentages are exact reals rather than floating point.
- LlmInterface.ProcessMessage: elapsed time is a parameter, and the total and average are exact reals rather than floating point. The retry delay is counted, not slept.
- LlmInterface.MockAnswers: its contract only states the length. What the answers are is stated by `LlmInterface.MockCycles`.
- SerialClient.Observe: the `UnicodeDecodeError` branch is left out, because decoding with `errors='ignore'` cannot raise it.
- SerialClient.ReaderStep: a closed port is a pass of its own that counts one reconnect. In the source a successful reconnect goes on to read within the same pass, and a failed one sleeps and loops.
- SerialClient.SendMessage: the 10 ms pause between chunks is not modelled. A `write` that raises is named by the index of its chunk.
- SerialClient.Start: the reader thread is only a flag.
- App.RunTestMode: the two-second pause between test messages is not modelled.
