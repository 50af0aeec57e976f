/**
 * The inbound message pipeline of src/message_processor.py: cleaning, ordered
 * validation with per-reason counters, the corruption heuristics, three-way
 * classification, prompt framing for the language model, and batch processing.
 */
module MessageProcessor {
  import opened Wrappers
  import opened Text

  /** The `datetime.now().isoformat()` reading taken when a message is accepted. */
  type Stamp = string

  const DefaultMaxLength: int := 512
  const MinLength: int := 3
  const Sentinel: string := "TEST MESSAGE FROM ACORN SYSTEM"
  const TestTag: string := "[ARM System Test] "
  const SystemTag: string := "[ARM System Message] "

  // ---------------------------------------------------------------------------
  // Cleaning
  // ---------------------------------------------------------------------------

  /** The class `[\x00-\x08\x0b-\x0c\x0e-\x1f\x7f]` removed by cleaning. */
  predicate IsControl(c: char) {
    var n := c as int;
    (0 <= n <= 8) || n == 11 || n == 12 || (14 <= n <= 31) || n == 127
  }

  predicate NoControl(s: string) {
    forall i :: 0 <= i < |s| ==> !IsControl(s[i])
  }

  /** Every whitespace character is a plain blank. */
  predicate BlanksOnly(s: string) {
    forall i :: 0 <= i < |s| && IsSpace(s[i]) ==> s[i] == ' '
  }

  /** Positions `i` and `i + 1` of `s` both hold whitespace. */
  predicate SpacePairAt(s: string, i: int)
    requires 0 <= i < |s| - 1
  {
    IsSpace(s[i]) && IsSpace(s[i + 1])
  }

  /** No two neighbouring characters are both whitespace. */
  predicate NoAdjacentSpaces(s: string) {
    forall i :: 0 <= i < |s| - 1 ==> !SpacePairAt(s, i)
  }

  /** A character that cleaning never removes or rewrites. */
  predicate IsVisible(c: char) {
    !IsSpace(c) && !IsControl(c)
  }

  /** The visible characters of `s`, in order: the content cleaning must preserve. */
  function VisibleChars(s: string): string {
    if |s| == 0 then []
    else if IsVisible(s[0]) then [s[0]] + VisibleChars(s[1..])
    else VisibleChars(s[1..])
  }

  lemma {:induction false} VisibleConcat(x: string, y: string)
    ensures VisibleChars(x + y) == VisibleChars(x) + VisibleChars(y)
  {
    if |x| > 0 {
      assert (x + y)[1..] == x[1..] + y;
      VisibleConcat(x[1..], y);
    } else {
      assert x + y == y;
    }
  }

  lemma {:induction false} VisibleOfSpaces(a: string)
    requires SpaceOnly(a)
    ensures VisibleChars(a) == []
  {
    if |a| > 0 {
      VisibleOfSpaces(a[1..]);
    }
  }

  /** Whitespace removed from either end carries no visible content. */
  lemma VisibleStripsAt(r: string, s: string, i: int)
    requires StripsAt(r, s, i)
    ensures VisibleChars(r) == VisibleChars(s)
  {
    StripSplit(r, s, i);
    VisibleOfPadded(s[..i], r, s[i + |r|..]);
  }

  lemma VisibleOfPadded(a: string, r: string, b: string)
    requires SpaceOnly(a) && SpaceOnly(b)
    ensures VisibleChars(a + r + b) == VisibleChars(r)
  {
    VisibleConcat(a + r, b);
    VisibleConcat(a, r);
    VisibleOfSpaces(a);
    VisibleOfSpaces(b);
  }

  lemma VisibleStrip(s: string)
    ensures VisibleChars(Strip(s)) == VisibleChars(s)
  {
    var i := StripWitness(s);
    VisibleStripsAt(Strip(s), s, i);
  }

  /** The `re.sub` that deletes control characters. */
  function RemoveControls(s: string): (r: string)
    ensures NoControl(r)
    ensures |r| <= |s|
    ensures VisibleChars(r) == VisibleChars(s)
    ensures NoControl(s) ==> r == s
  {
    if |s| == 0 then []
    else if IsControl(s[0]) then RemoveControls(s[1..])
    else [s[0]] + RemoveControls(s[1..])
  }

  /** One character is deleted exactly when it is a control character. */
  lemma RemoveControlsChar(c: char)
    ensures RemoveControls([c]) == if IsControl(c) then [] else [c]
  {
    assert [c][1..] == [];
  }

  /** The substitution works character by character, so it distributes over concatenation;
      with `RemoveControlsChar` this fixes its result on every input. */
  lemma {:induction false} RemoveControlsAppend(a: string, b: string)
    ensures RemoveControls(a + b) == RemoveControls(a) + RemoveControls(b)
  {
    if |a| == 0 {
      assert a + b == b;
    } else {
      assert (a + b)[1..] == a[1..] + b;
      RemoveControlsAppend(a[1..], b);
    }
  }

  /** Putting `c` in front of `t` keeps the whitespace shape of `t` when `c` does not start a pair. */
  lemma ConsShape(c: char, t: string)
    requires BlanksOnly(t) && NoAdjacentSpaces(t)
    requires IsSpace(c) ==> c == ' '
    requires IsSpace(c) && |t| > 0 ==> !IsSpace(t[0])
    ensures BlanksOnly([c] + t) && NoAdjacentSpaces([c] + t)
  {
    var r := [c] + t;
    forall i | 0 <= i < |r| - 1
      ensures !SpacePairAt(r, i)
    {
      if i > 0 {
        assert r[i] == t[i - 1] && r[i + 1] == t[i];
        assert !SpacePairAt(t, i - 1);
      }
    }
  }

  lemma ConsVisible(c: char, t: string)
    ensures VisibleChars([c] + t) == (if IsVisible(c) then [c] else []) + VisibleChars(t)
  {
    assert ([c] + t)[1..] == t;
  }

  lemma ConsNoControl(c: char, t: string)
    ensures !IsControl(c) && NoControl(t) ==> NoControl([c] + t)
  {
  }

  /** The `re.sub(r'\s+', ' ', ...)` that turns every run of whitespace into one blank,
      scanning left to right; `afterSpace` says the scan is inside a run already replaced. */
  function CollapseFrom(s: string, afterSpace: bool): (r: string)
    ensures BlanksOnly(r) && NoAdjacentSpaces(r)
    ensures VisibleChars(r) == VisibleChars(s)
    ensures NoControl(s) ==> NoControl(r)
    ensures |r| <= |s|
    ensures afterSpace && |r| > 0 ==> !IsSpace(r[0])
    ensures |s| > 0 && !IsSpace(s[0]) ==> |r| > 0 && r[0] == s[0]
    ensures |s| > 0 && IsSpace(s[0]) && !afterSpace ==> |r| > 0 && r[0] == ' '
  {
    if |s| == 0 then []
    else if IsSpace(s[0]) then
      var tail := CollapseFrom(s[1..], true);
      if afterSpace then tail
      else
        ConsShape(' ', tail);
        ConsVisible(' ', tail);
        [' '] + tail
    else
      var tail := CollapseFrom(s[1..], false);
      ConsShape(s[0], tail);
      ConsVisible(s[0], tail);
      ConsNoControl(s[0], tail);
      [s[0]] + tail
  }

  function CollapseSpaces(s: string): (r: string)
    ensures BlanksOnly(r) && NoAdjacentSpaces(r)
    ensures VisibleChars(r) == VisibleChars(s)
    ensures NoControl(s) ==> NoControl(r)
    ensures |r| <= |s|
  {
    CollapseFrom(s, false)
  }

  /** Inside a run, further whitespace is swallowed. */
  lemma {:induction false} CollapseSkipsRun(w: string, y: string)
    requires SpaceOnly(w)
    ensures CollapseFrom(w + y, true) == CollapseFrom(y, true)
  {
    if |w| == 0 {
      assert w + y == y;
    } else {
      assert (w + y)[1..] == w[1..] + y;
      CollapseSkipsRun(w[1..], y);
    }
  }

  /** A non-empty whitespace run in front of a word, or of nothing, becomes one blank. */
  lemma CollapseRun(w: string, y: string)
    requires |w| > 0 && SpaceOnly(w)
    requires |y| == 0 || !IsSpace(y[0])
    ensures CollapseFrom(w + y, false) == [' '] + CollapseFrom(y, false)
  {
    assert (w + y)[1..] == w[1..] + y;
    CollapseSkipsRun(w[1..], y);
  }

  /** Text ending in a visible character collapses independently of what follows it. */
  lemma {:induction false} CollapseAppend(x: string, z: string, afterSpace: bool)
    requires |x| > 0 && !IsSpace(x[|x| - 1])
    ensures CollapseFrom(x + z, afterSpace) == CollapseFrom(x, afterSpace) + CollapseFrom(z, false)
    decreases |x|
  {
    assert (x + z)[1..] == x[1..] + z;
    if |x| > 1 {
      CollapseAppend(x[1..], z, IsSpace(x[0]));
    } else {
      assert x[1..] + z == z;
    }
  }

  /** Collapsing a concatenation whose first part ends in a visible character, or is empty. */
  lemma CollapseConcat(x: string, t: string)
    requires |x| == 0 || !IsSpace(x[|x| - 1])
    ensures CollapseFrom(x + t, false) == CollapseFrom(x, false) + CollapseFrom(t, false)
  {
    if |x| == 0 {
      assert x + t == t;
    } else {
      CollapseAppend(x, t, false);
    }
  }

  lemma JoinAround(a: string, t: string, c: string, b: string)
    requires b == a + t && t == [' '] + c
    ensures b == a + " " + c
  {
  }

  /** `re.sub(r'\s+', ' ', ...)` on a whitespace run between two pieces that do not touch
      it with whitespace of their own: the run becomes exactly one blank and each piece
      collapses on its own. */
  lemma CollapseSplit(x: string, w: string, y: string)
    requires |w| > 0 && SpaceOnly(w)
    requires |x| == 0 || !IsSpace(x[|x| - 1])
    requires |y| == 0 || !IsSpace(y[0])
    ensures CollapseSpaces(x + w + y) == CollapseSpaces(x) + " " + CollapseSpaces(y)
  {
    var t := w + y;
    assert x + w + y == x + t;
    CollapseRun(w, y);
    CollapseConcat(x, t);
    JoinAround(CollapseFrom(x, false), CollapseFrom(t, false), CollapseFrom(y, false), CollapseFrom(x + t, false));
  }

  /** Python's `rstrip('\r\n')`. */
  function RStripNewlines(s: string): (r: string)
    ensures |r| <= |s| && r == s[..|r|]
    ensures forall i :: |r| <= i < |s| ==> s[i] == '\r' || s[i] == '\n'
    ensures |r| > 0 ==> r[|r| - 1] != '\r' && r[|r| - 1] != '\n'
  {
    if |s| > 0 && (s[|s| - 1] == '\r' || s[|s| - 1] == '\n') then RStripNewlines(s[..|s| - 1])
    else s
  }

  /** Text whose whitespace is all blanks holds no CR or LF, so `rstrip('\r\n')` keeps it. */
  lemma BlanksHaveNoNewlines(s: string)
    requires BlanksOnly(s)
    ensures forall i :: 0 <= i < |s| ==> s[i] != '\r' && s[i] != '\n'
    ensures RStripNewlines(s) == s
  {
    assert forall i :: 0 <= i < |s| ==> s[i] != '\r' && s[i] != '\n' by {
      forall i | 0 <= i < |s|
        ensures s[i] != '\r' && s[i] != '\n'
      {
        if s[i] == '\r' || s[i] == '\n' {
          assert IsSpace(s[i]);
        }
      }
    }
  }

  /** `_clean_message`: strip, delete control characters, collapse whitespace, drop trailing CR/LF. */
  function Clean(raw: string): (m: string)
    ensures NoControl(m) && BlanksOnly(m) && NoAdjacentSpaces(m)
    ensures forall i :: 0 <= i < |m| ==> m[i] != '\r' && m[i] != '\n' && m[i] != '\0'
    ensures VisibleChars(m) == VisibleChars(raw)
    ensures |m| <= |raw|
  {
    VisibleStrip(raw);
    var single := CollapseSpaces(RemoveControls(Strip(raw)));
    BlanksHaveNoNewlines(single);
    RStripNewlines(single)
  }

  /** A string that cleaning maps to itself: no control characters, blanks only,
      no neighbouring whitespace and no whitespace at either end. */
  predicate Tidy(s: string) {
    NoControl(s) && BlanksOnly(s) && NoAdjacentSpaces(s) && Trimmed(s)
  }

  /** Collapsing leaves text without whitespace runs or non-blank whitespace unchanged. */
  lemma {:induction false} CollapseFromSingleSpaced(s: string, afterSpace: bool)
    requires BlanksOnly(s) && NoAdjacentSpaces(s)
    requires afterSpace && |s| > 0 ==> !IsSpace(s[0])
    ensures CollapseFrom(s, afterSpace) == s
    decreases |s|
  {
    if |s| > 0 {
      var t := s[1..];
      assert BlanksOnly(t) by {
        forall i | 0 <= i < |t| && IsSpace(t[i])
          ensures t[i] == ' '
        {
          assert t[i] == s[i + 1];
        }
      }
      assert NoAdjacentSpaces(t) by {
        forall i | 0 <= i < |t| - 1
          ensures !SpacePairAt(t, i)
        {
          assert !SpacePairAt(s, i + 1);
        }
      }
      if IsSpace(s[0]) {
        assert |t| > 0 ==> !SpacePairAt(s, 0);
        CollapseFromSingleSpaced(t, true);
      } else {
        CollapseFromSingleSpaced(t, false);
      }
    }
  }

  /** A piece cut out of text without control characters, non-blank whitespace or
      whitespace runs has none of them either. */
  lemma TidyInfix(c: string, t: string, i: int)
    requires NoControl(c) && BlanksOnly(c) && NoAdjacentSpaces(c)
    requires 0 <= i && i + |t| <= |c| && c[i..i + |t|] == t
    ensures NoControl(t) && BlanksOnly(t) && NoAdjacentSpaces(t)
  {
    assert forall j :: 0 <= j < |t| ==> t[j] == c[i + j];
    assert NoAdjacentSpaces(t) by {
      forall j | 0 <= j < |t| - 1
        ensures !SpacePairAt(t, j)
      {
        assert !SpacePairAt(c, i + j);
      }
    }
  }

  /** Cleaning leaves tidy text unchanged. */
  lemma CleanTidy(s: string)
    requires Tidy(s)
    ensures Clean(s) == s
  {
    StripTrimmed(s);
    CollapseFromSingleSpaced(s, false);
    BlanksHaveNoNewlines(s);
  }

  /** Text without control characters, non-blank whitespace or whitespace runs is
      cleaned by stripping alone. */
  lemma CleanShapedIsStrip(c: string)
    requires NoControl(c) && BlanksOnly(c) && NoAdjacentSpaces(c)
    ensures Clean(c) == Strip(c)
  {
    var i := StripWitness(c);
    ShapedInfixFixed(c, Strip(c), i);
    CleanUnfold(c);
  }

  lemma CleanUnfold(raw: string)
    ensures Clean(raw) == RStripNewlines(CollapseSpaces(RemoveControls(Strip(raw))))
  {
  }

  /** The three rewriting steps after `strip` leave a stripped piece of shaped text alone. */
  lemma ShapedInfixFixed(c: string, t: string, i: int)
    requires NoControl(c) && BlanksOnly(c) && NoAdjacentSpaces(c)
    requires StripsAt(t, c, i)
    ensures RStripNewlines(CollapseSpaces(RemoveControls(t))) == t
  {
    TidyInfix(c, t, i);
    CollapseFromSingleSpaced(t, false);
    BlanksHaveNoNewlines(t);
  }

  /** Cleaning twice equals cleaning once and then stripping: the only thing a second
      pass can still change is one blank at either end. */
  lemma CleanTwice(raw: string)
    ensures Clean(Clean(raw)) == Strip(Clean(raw))
  {
    CleanShapedIsStrip(Clean(raw));
  }

  /** When the cleaned text does not start or end with a blank, cleaning again changes nothing. */
  lemma CleanIdempotentWhenTrimmed(raw: string)
    requires Trimmed(Clean(raw))
    ensures Clean(Clean(raw)) == Clean(raw)
  {
    CleanTwice(raw);
    StripTrimmed(Clean(raw));
  }

  // ---------------------------------------------------------------------------
  // Validation
  // ---------------------------------------------------------------------------

  /** Number of characters above code point 127. */
  function NonAsciiCount(s: string): (n: nat)
    ensures n <= |s|
  {
    if |s| == 0 then 0
    else (if (s[0] as int) > 127 then 1 else 0) + NonAsciiCount(s[1..])
  }

  function Distinct(s: string): set<char> {
    set c | c in s
  }

  /** `_has_suspicious_patterns`: too much non-ASCII, a NUL, or a long run of one or two symbols. */
  predicate HasSuspiciousPatterns(m: string) {
    || (NonAsciiCount(m) as real) > (|m| as real) * 0.2
    || '\0' in m
    || (|m| > 10 && |Distinct(m)| < 3)
  }

  /** The rejection reasons, in the order `_validate_message` tests them. */
  datatype Rejection = Empty | Oversized | TooShort | WhitespaceOnly | Suspicious

  datatype Verdict = Accept | Reject(reason: Rejection)

  function Rank(k: Rejection): nat {
    match k
    case Empty => 0
    case Oversized => 1
    case TooShort => 2
    case WhitespaceOnly => 3
    case Suspicious => 4
  }

  /** Whether the check for reason `k`, taken on its own, objects to `m`. */
  predicate Fails(k: Rejection, m: string, maxLength: int) {
    match k
    case Empty => |m| == 0
    case Oversized => |m| > maxLength
    case TooShort => |m| < MinLength
    case WhitespaceOnly => IsWhitespaceOnly(m)
    case Suspicious => HasSuspiciousPatterns(m)
  }

  /** `_validate_message`: the first failing check in order decides; a message passes
      only when no check objects. */
  function Validate(m: string, maxLength: int): (v: Verdict)
    ensures v.Accept? <==> forall k :: !Fails(k, m, maxLength)
    ensures v.Reject? ==> Fails(v.reason, m, maxLength)
    ensures v.Reject? ==> forall k :: Rank(k) < Rank(v.reason) ==> !Fails(k, m, maxLength)
  {
    if |m| == 0 then assert Fails(Empty, m, maxLength); Reject(Empty)
    else if |m| > maxLength then assert Fails(Oversized, m, maxLength); Reject(Oversized)
    else if |m| < MinLength then assert Fails(TooShort, m, maxLength); Reject(TooShort)
    else if IsWhitespaceOnly(m) then assert Fails(WhitespaceOnly, m, maxLength); Reject(WhitespaceOnly)
    else if HasSuspiciousPatterns(m) then assert Fails(Suspicious, m, maxLength); Reject(Suspicious)
    else Accept
  }

  /** The "more than 20%" test is the integer comparison `5 * count > length`. */
  lemma NonAsciiRatioIntegerForm(m: string)
    ensures (NonAsciiCount(m) as real) > (|m| as real) * 0.2 <==> 5 * NonAsciiCount(m) > |m|
  {
  }

  /** On cleaned text the NUL test can never fire, so only the ratio and the repetition
      tests remain. */
  lemma SuspiciousAfterCleaning(raw: string)
    ensures '\0' !in Clean(raw)
    ensures HasSuspiciousPatterns(Clean(raw)) <==>
      (5 * NonAsciiCount(Clean(raw)) > |Clean(raw)|
       || (|Clean(raw)| > 10 && |Distinct(Clean(raw))| < 3))
  {
    NonAsciiRatioIntegerForm(Clean(raw));
  }

  /** Text of three or more characters without neighbouring whitespace is never
      rejected as whitespace-only. */
  lemma NoRunsNotWhitespaceOnly(c: string, maxLength: int)
    requires NoAdjacentSpaces(c)
    ensures Validate(c, maxLength) != Reject(WhitespaceOnly)
  {
    if |c| >= 2 {
      assert !SpacePairAt(c, 0);
    }
  }

  /** On cleaned text the whitespace-only check is unreachable. */
  lemma WhitespaceCheckUnreachable(raw: string, maxLength: int)
    ensures Validate(Clean(raw), maxLength) != Reject(WhitespaceOnly)
  {
    NoRunsNotWhitespaceOnly(Clean(raw), maxLength);
  }

  // ---------------------------------------------------------------------------
  // Classification and prompt framing
  // ---------------------------------------------------------------------------

  datatype Kind = Test | System | Custom

  /** `re.match(r'^WORD\s+', m, re.IGNORECASE)` for an ASCII `word`. */
  predicate WordThenSpace(m: string, word: string) {
    StartsWithIgnoreCase(m, word) && |m| > |word| && IsSpace(m[|word|])
  }

  /** `re.match(r'^\[.*\]$', m)`: `.` stops at a newline and `$` also matches just
      before a final newline. */
  predicate Bracketed(m: string) {
    var body := if |m| > 0 && m[|m| - 1] == '\n' then m[..|m| - 1] else m;
    && |body| >= 2
    && body[0] == '[' && body[|body| - 1] == ']'
    && forall i :: 0 <= i < |body| ==> body[i] != '\n'
  }

  /** The system patterns of `_classify_message`, any of which makes a message `system`. */
  predicate SystemShaped(m: string) {
    || WordThenSpace(m, "TEST")
    || WordThenSpace(m, "ACORN")
    || WordThenSpace(m, "SYSTEM")
    || Bracketed(m)
  }

  /** `_classify_message`: the sentinel first, then the system patterns, else custom. */
  function Classify(m: string): (k: Kind)
    ensures k == Test <==> m == Sentinel
    ensures k == System <==> m != Sentinel && SystemShaped(m)
  {
    if m == Sentinel then Test
    else if SystemShaped(m) then System
    else Custom
  }

  /** The sentinel also has the `TEST ` shape, so testing it first is what makes it `test`. */
  lemma SentinelIsAlsoSystemShaped()
    ensures SystemShaped(Sentinel) && Classify(Sentinel) == Test
  {
    assert WordThenSpace(Sentinel, "TEST");
  }

  /** On cleaned text the system patterns read simply: a keyword, ignoring ASCII case,
      followed by a blank, or a text that opens with `[` and closes with `]`. */
  lemma ClassifyCleaned(raw: string)
    ensures var c := Clean(raw);
      Classify(c) == System <==>
        && c != Sentinel
        && (|| (StartsWithIgnoreCase(c, "TEST") && |c| > 4 && c[4] == ' ')
            || (StartsWithIgnoreCase(c, "ACORN") && |c| > 5 && c[5] == ' ')
            || (StartsWithIgnoreCase(c, "SYSTEM") && |c| > 6 && c[6] == ' ')
            || (|c| >= 2 && c[0] == '[' && c[|c| - 1] == ']'))
  {
    var c := Clean(raw);
    WordThenBlank(c, "TEST");
    WordThenBlank(c, "ACORN");
    WordThenBlank(c, "SYSTEM");
    BracketedWithoutNewlines(c);
  }

  /** In text whose only whitespace is the blank, a keyword followed by whitespace is a
      keyword followed by a blank. */
  lemma WordThenBlank(c: string, word: string)
    requires BlanksOnly(c)
    ensures WordThenSpace(c, word) <==>
      StartsWithIgnoreCase(c, word) && |c| > |word| && c[|word|] == ' '
  {
  }

  /** Without newlines, the bracket pattern is just the first and last character. */
  lemma BracketedWithoutNewlines(c: string)
    requires forall i :: 0 <= i < |c| ==> c[i] != '\n'
    ensures Bracketed(c) <==> |c| >= 2 && c[0] == '[' && c[|c| - 1] == ']'
  {
  }

  /** One processed message, as the dictionary `process` returns. */
  datatype Processed = Processed(
    raw: string,
    cleaned: string,
    kind: Kind,
    length: nat,
    timestamp: Stamp,
    valid: bool)

  function TagOf(k: Kind): string {
    match k
    case Test => TestTag
    case System => SystemTag
    case Custom => ""
  }

  /** `format_message_for_llm`: a provenance tag in front of test and system messages;
      custom messages pass through unchanged. */
  function FormatForLlm(p: Processed): (prompt: string)
    ensures EndsWith(prompt, p.cleaned)
    ensures |prompt| == |p.cleaned| + |TagOf(p.kind)|
    ensures p.kind == Custom ==> prompt == p.cleaned
    ensures p.kind != Custom ==> StartsWith(prompt, "[ARM System ")
    ensures p.kind == Test ==> prompt == "[ARM System Test] " + p.cleaned
    ensures p.kind == System ==> prompt == "[ARM System Message] " + p.cleaned
  {
    var prompt := TagOf(p.kind) + p.cleaned;
    assert prompt[|prompt| - |p.cleaned|..] == p.cleaned;
    prompt
  }

  // ---------------------------------------------------------------------------
  // Processing with counters
  // ---------------------------------------------------------------------------

  datatype Stats = Stats(
    total: nat,
    valid: nat,
    invalid: nat,
    test: nat,
    custom: nat,
    empty: nat,
    oversized: nat)

  const ZeroStats := Stats(0, 0, 0, 0, 0, 0, 0)

  /** The counters agree with each other: every message is valid or invalid, typed
      messages are valid ones, and the empty/oversized rejections are invalid ones. */
  predicate Consistent(s: Stats) {
    && s.total == s.valid + s.invalid
    && s.test + s.custom <= s.valid
    && s.empty + s.oversized <= s.invalid
  }

  datatype ProcessorConfig = ProcessorConfig(maxMessageLength: Option<int>)

  datatype Processor = Processor(maxLength: int, stats: Stats)

  /** `MessageProcessor.__init__`: the length limit defaults to 512 and every counter is zero. */
  function NewProcessor(config: ProcessorConfig): (p: Processor)
    ensures config.maxMessageLength.None? ==> p.maxLength == DefaultMaxLength
    ensures config.maxMessageLength.Some? ==> p.maxLength == config.maxMessageLength.value
    ensures p.stats == ZeroStats && Consistent(p.stats)
  {
    Processor(
      match config.maxMessageLength case Some(n) => n case None => DefaultMaxLength,
      ZeroStats)
  }

  /** The message `process` would return, ignoring its counters. */
  function Analyze(maxLength: int, raw: string, now: Stamp): (r: Option<Processed>)
    ensures r.Some? <==> Validate(Clean(raw), maxLength) == Accept
    ensures r.Some? ==>
      && r.value.raw == raw
      && r.value.cleaned == Clean(raw)
      && r.value.length == |r.value.cleaned|
      && MinLength <= r.value.length <= maxLength
      && r.value.valid
      && r.value.timestamp == now
      && r.value.kind == Classify(r.value.cleaned)
  {
    var m := Clean(raw);
    match Validate(m, maxLength)
    case Reject(_) => None
    case Accept => Some(Processed(raw, m, Classify(m), |m|, now, true))
  }

  /** Count one message with the given verdict and, for an accepted one, kind. */
  function Tally(s: Stats, v: Verdict, k: Kind): (r: Stats)
    ensures r.total == s.total + 1
    ensures r.valid == s.valid + (if v.Accept? then 1 else 0)
    ensures r.invalid == s.invalid + (if v.Reject? then 1 else 0)
    ensures r.empty == s.empty + (if v == Reject(Empty) then 1 else 0)
    ensures r.oversized == s.oversized + (if v == Reject(Oversized) then 1 else 0)
    ensures r.test == s.test + (if v == Accept && k == Test then 1 else 0)
    ensures r.custom == s.custom + (if v == Accept && k == Custom then 1 else 0)
    ensures Consistent(s) ==> Consistent(r)
  {
    var s1 := s.(total := s.total + 1);
    match v
    case Reject(reason) =>
      var s2 := s1.(invalid := s1.invalid + 1);
      if reason == Empty then s2.(empty := s2.empty + 1)
      else if reason == Oversized then s2.(oversized := s2.oversized + 1)
      else s2
    case Accept =>
      var s2 := s1.(valid := s1.valid + 1);
      if k == Test then s2.(test := s2.test + 1)
      else if k == Custom then s2.(custom := s2.custom + 1)
      else s2
  }

  datatype Step = Step(processor: Processor, result: Option<Processed>)

  /** `process`: one more message counted, and exactly one of valid/invalid with it. */
  function Process(p: Processor, raw: string, now: Stamp): (s: Step)
    ensures s.result == Analyze(p.maxLength, raw, now)
    ensures s.processor.maxLength == p.maxLength
    ensures s.processor.stats.total == p.stats.total + 1
    ensures s.processor.stats.valid + s.processor.stats.invalid == p.stats.valid + p.stats.invalid + 1
    ensures s.result.Some? ==> s.processor.stats.valid == p.stats.valid + 1
    ensures s.result.None? ==> s.processor.stats.invalid == p.stats.invalid + 1
  {
    var m := Clean(raw);
    Step(Processor(p.maxLength, Tally(p.stats, Validate(m, p.maxLength), Classify(m))),
         Analyze(p.maxLength, raw, now))
  }

  /** Per-reason counters: only the empty and the oversized rejections have one, only
      test and custom messages have a type counter, and nothing else moves. */
  lemma ProcessCounters(p: Processor, raw: string, now: Stamp)
    ensures var s := Process(p, raw, now).processor.stats;
      var v := Validate(Clean(raw), p.maxLength);
      && s.empty == p.stats.empty + (if v == Reject(Empty) then 1 else 0)
      && s.oversized == p.stats.oversized + (if v == Reject(Oversized) then 1 else 0)
      && s.test == p.stats.test + (if v == Accept && Classify(Clean(raw)) == Test then 1 else 0)
      && s.custom == p.stats.custom + (if v == Accept && Classify(Clean(raw)) == Custom then 1 else 0)
  {
    var m := Clean(raw);
    assert Process(p, raw, now).processor.stats == Tally(p.stats, Validate(m, p.maxLength), Classify(m));
  }

  /** Processing keeps the counters consistent, so `total == valid + invalid` holds from a
      fresh or reset processor onwards. */
  lemma ProcessKeepsConsistent(p: Processor, raw: string, now: Stamp)
    requires Consistent(p.stats)
    ensures Consistent(Process(p, raw, now).processor.stats)
  {
    var m := Clean(raw);
    assert Process(p, raw, now).processor.stats == Tally(p.stats, Validate(m, p.maxLength), Classify(m));
  }

  /** A too-short message is counted only as total and invalid. */
  lemma TooShortHasNoCounter(p: Processor, raw: string, now: Stamp)
    requires Validate(Clean(raw), p.maxLength) == Reject(TooShort)
    ensures Process(p, raw, now).processor.stats ==
      p.stats.(total := p.stats.total + 1, invalid := p.stats.invalid + 1)
  {
    ProcessTally(p, raw, now);
    TallyTooShort(p.stats, Classify(Clean(raw)));
  }

  lemma ProcessTally(p: Processor, raw: string, now: Stamp)
    ensures Process(p, raw, now).processor.stats ==
      Tally(p.stats, Validate(Clean(raw), p.maxLength), Classify(Clean(raw)))
  {
  }

  lemma TallyTooShort(s: Stats, k: Kind)
    ensures Tally(s, Reject(TooShort), k) == s.(total := s.total + 1, invalid := s.invalid + 1)
  {
  }

  /** `reset_stats`: every counter back to zero. */
  function ResetStats(p: Processor): (q: Processor)
    ensures q.maxLength == p.maxLength
    ensures q.stats.total == 0 && Consistent(q.stats)
    ensures q.stats == ZeroStats
  {
    p.(stats := ZeroStats)
  }

  /** `get_stats` with the three derived percentages. */
  datatype StatsReport = StatsReport(
    counters: Stats,
    validPercentage: real,
    testPercentage: real,
    customPercentage: real)

  function Percentage(part: nat, total: nat): real {
    if total > 0 then (part as real) / (total as real) * 100.0 else 0.0
  }

  function GetStats(p: Processor): (r: StatsReport)
    ensures r.counters == p.stats
    ensures p.stats.total == 0 ==> r.validPercentage == 0.0 && r.testPercentage == 0.0 && r.customPercentage == 0.0
    ensures Consistent(p.stats) ==>
      && 0.0 <= r.validPercentage <= 100.0
      && 0.0 <= r.testPercentage <= r.validPercentage
      && 0.0 <= r.customPercentage <= r.validPercentage
  {
    var s := p.stats;
    PercentagesBounded(s);
    StatsReport(s, Percentage(s.valid, s.total), Percentage(s.test, s.total), Percentage(s.custom, s.total))
  }

  lemma PercentagesBounded(s: Stats)
    ensures Consistent(s) ==>
      && 0.0 <= Percentage(s.valid, s.total) <= 100.0
      && 0.0 <= Percentage(s.test, s.total) <= Percentage(s.valid, s.total)
      && 0.0 <= Percentage(s.custom, s.total) <= Percentage(s.valid, s.total)
  {
    if Consistent(s) && s.total > 0 {
      PercentageMonotone(s.test, s.valid, s.total);
      PercentageMonotone(s.custom, s.valid, s.total);
      PercentageMonotone(s.valid, s.total, s.total);
    }
  }

  lemma PercentageMonotone(a: nat, b: nat, total: nat)
    requires a <= b && total > 0
    ensures 0.0 <= Percentage(a, total) <= Percentage(b, total)
    ensures Percentage(total, total) == 100.0
  {
    var t := total as real;
    var u := 1.0 / t;
    assert u > 0.0;
    assert (a as real) / t == (a as real) * u && (b as real) / t == (b as real) * u;
    assert (a as real) * u <= (b as real) * u;
    assert t / t == 1.0;
  }

  // ---------------------------------------------------------------------------
  // Batch processing
  // ---------------------------------------------------------------------------

  /** The result list entry of one message: the processed message when accepted, else nothing. */
  function Kept(r: Option<Processed>): (rs: seq<Processed>)
    ensures |rs| == (if r.Some? then 1 else 0)
    ensures r.Some? ==> rs == [r.value]
  {
    match r case Some(m) => [m] case None => []
  }

  /** The accepted results of `raws`, in order, the `i`-th message stamped `clock(from + i)`. */
  function AcceptedFrom(maxLength: int, raws: seq<string>, clock: nat -> Stamp, from: nat): (rs: seq<Processed>)
    ensures |rs| <= |raws|
    decreases |raws|
  {
    if |raws| == 0 then []
    else Kept(Analyze(maxLength, raws[0], clock(from))) + AcceptedFrom(maxLength, raws[1..], clock, from + 1)
  }

  lemma AcceptedFromSuffix(maxLength: int, raws: seq<string>, clock: nat -> Stamp, i: nat)
    requires i < |raws|
    ensures AcceptedFrom(maxLength, raws[i..], clock, i) ==
      Kept(Analyze(maxLength, raws[i], clock(i))) + AcceptedFrom(maxLength, raws[i + 1..], clock, i + 1)
  {
    assert raws[i..][1..] == raws[i + 1..];
  }

  lemma AppendStep<T>(done: seq<T>, next: seq<T>, rest: seq<T>, whole: seq<T>)
    requires done + (next + rest) == whole
    ensures (done + next) + rest == whole
  {
  }

  /** `batch_process`: the accepted results in input order, every message counted. */
  /** How many of `raws` are rejected for `reason` once cleaned. */
  function RejectedFor(maxLength: int, raws: seq<string>, reason: Rejection): (n: nat)
    ensures n <= |raws|
    decreases |raws|
  {
    if |raws| == 0 then 0
    else
      var last := raws[|raws| - 1];
      RejectedFor(maxLength, raws[..|raws| - 1], reason)
        + (if Validate(Clean(last), maxLength) == Reject(reason) then 1 else 0)
  }

  /** How many of `raws` are accepted once cleaned and classified as `k`. */
  function AcceptedOfKind(maxLength: int, raws: seq<string>, k: Kind): (n: nat)
    ensures n <= |raws|
    decreases |raws|
  {
    if |raws| == 0 then 0
    else
      var last := raws[|raws| - 1];
      AcceptedOfKind(maxLength, raws[..|raws| - 1], k)
        + (if Validate(Clean(last), maxLength) == Accept && Classify(Clean(last)) == k then 1 else 0)
  }

  /** The counters after processing `raws` one by one, starting from `s`. */
  function TallyAll(s: Stats, maxLength: int, raws: seq<string>): Stats
    decreases |raws|
  {
    if |raws| == 0 then s
    else
      var last := Clean(raws[|raws| - 1]);
      Tally(TallyAll(s, maxLength, raws[..|raws| - 1]), Validate(last, maxLength), Classify(last))
  }

  lemma TallyAllSnoc(s: Stats, maxLength: int, raws: seq<string>, i: nat)
    requires i < |raws|
    ensures var m := Clean(raws[i]);
      TallyAll(s, maxLength, raws[..i + 1]) == Tally(TallyAll(s, maxLength, raws[..i]), Validate(m, maxLength), Classify(m))
  {
    assert raws[..i + 1][..i] == raws[..i];
    assert raws[..i + 1][i] == raws[i];
  }

  /** The per-reason and per-kind counters grow by exactly the matching messages of the batch. */
  lemma {:induction false} TallyAllCounts(s: Stats, maxLength: int, raws: seq<string>)
    ensures var r := TallyAll(s, maxLength, raws);
      && r.total == s.total + |raws|
      && r.valid + r.invalid == s.valid + s.invalid + |raws|
      && (Consistent(s) ==> Consistent(r))
      && r.empty == s.empty + RejectedFor(maxLength, raws, Empty)
      && r.oversized == s.oversized + RejectedFor(maxLength, raws, Oversized)
      && r.test == s.test + AcceptedOfKind(maxLength, raws, Test)
      && r.custom == s.custom + AcceptedOfKind(maxLength, raws, Custom)
    decreases |raws|
  {
    if |raws| > 0 {
      TallyAllCounts(s, maxLength, raws[..|raws| - 1]);
    }
  }

  method BatchProcess(p: Processor, raws: seq<string>, clock: nat -> Stamp) returns (q: Processor, results: seq<Processed>)
    ensures results == AcceptedFrom(p.maxLength, raws, clock, 0)
    ensures |results| <= |raws|
    ensures q.maxLength == p.maxLength
    ensures q.stats.total == p.stats.total + |raws|
    ensures q.stats.valid == p.stats.valid + |results|
    ensures q.stats.invalid == p.stats.invalid + (|raws| - |results|)
    ensures q.stats.empty == p.stats.empty + RejectedFor(p.maxLength, raws, Empty)
    ensures q.stats.oversized == p.stats.oversized + RejectedFor(p.maxLength, raws, Oversized)
    ensures q.stats.test == p.stats.test + AcceptedOfKind(p.maxLength, raws, Test)
    ensures q.stats.custom == p.stats.custom + AcceptedOfKind(p.maxLength, raws, Custom)
    ensures Consistent(p.stats) ==> Consistent(q.stats)
  {
    q := p;
    results := [];
    var i := 0;
    ghost var whole := AcceptedFrom(p.maxLength, raws, clock, 0);
    assert raws[0..] == raws;
    assert raws[..0] == [];
    while i < |raws|
      invariant 0 <= i <= |raws|
      invariant q.maxLength == p.maxLength
      invariant results + AcceptedFrom(p.maxLength, raws[i..], clock, i) == whole
      invariant q.stats == TallyAll(p.stats, p.maxLength, raws[..i])
      invariant q.stats.valid == p.stats.valid + |results|
    {
      AcceptedFromSuffix(p.maxLength, raws, clock, i);
      var step := Process(q, raws[i], clock(i));
      ProcessTally(q, raws[i], clock(i));
      TallyAllSnoc(p.stats, p.maxLength, raws, i);
      AppendStep(results, Kept(step.result), AcceptedFrom(p.maxLength, raws[i + 1..], clock, i + 1), whole);
      q := step.processor;
      results := results + Kept(step.result);
      i := i + 1;
    }
    assert raws[i..] == [];
    assert raws[..i] == raws;
    TallyAllCounts(p.stats, p.maxLength, raws);
  }

  /** Every batch result is the analysis of one of the inputs, with its raw text kept. */
  lemma {:induction false} AcceptedFromSound(maxLength: int, raws: seq<string>, clock: nat -> Stamp, from: nat)
    ensures forall r :: r in AcceptedFrom(maxLength, raws, clock, from) ==>
      r.raw in raws && r.valid && r.cleaned == Clean(r.raw) && r.length == |r.cleaned|
    decreases |raws|
  {
    if |raws| > 0 {
      AcceptedFromSound(maxLength, raws[1..], clock, from + 1);
      forall r | r in AcceptedFrom(maxLength, raws[1..], clock, from + 1)
        ensures r.raw in raws
      {
        assert r.raw in raws[1..];
      }
    }
  }

  // ---------------------------------------------------------------------------
  // Worked examples
  // ---------------------------------------------------------------------------

  /** Whitespace around tidy text is all that cleaning removes. */
  lemma CleanPadded(a: string, r: string, b: string)
    requires SpaceOnly(a) && SpaceOnly(b) && Tidy(r)
    ensures Clean(a + r + b) == r
  {
    StripPadded(a, r, b);
    CleanTidy(r);
  }

  /** Two tidy words separated by any run of non-control whitespace clean to the two words
      with one blank between them. */
  lemma CleanJoinsWords(x: string, w: string, y: string)
    requires Tidy(x) && Tidy(y) && |x| > 0 && |y| > 0
    requires |w| > 0 && SpaceOnly(w) && NoControl(w)
    ensures Clean(x + w + y) == x + " " + y
  {
    var s := x + w + y;
    assert s[0] == x[0] && s[|s| - 1] == y[|y| - 1];
    StripTrimmed(s);
    assert NoControl(s) by {
      forall i | 0 <= i < |s|
        ensures !IsControl(s[i])
      {
        if i < |x| {
          assert s[i] == x[i];
        } else if i < |x| + |w| {
          assert s[i] == w[i - |x|];
        } else {
          assert s[i] == y[i - |x| - |w|];
        }
      }
    }
    CollapseSplit(x, w, y);
    CollapseFromSingleSpaced(x, false);
    CollapseFromSingleSpaced(y, false);
    BlanksHaveNoNewlines(x + " " + y);
    CleanUnfold(s);
  }

  /** The documented input: the sentinel with leading blanks and a trailing newline
      cleans to the sentinel. */
  lemma ExampleSentinelCleaning()
    ensures Clean("  TEST MESSAGE FROM ACORN SYSTEM\n") == Sentinel
  {
    SentinelTidy();
    assert "  TEST MESSAGE FROM ACORN SYSTEM\n" == "  " + Sentinel + "\n";
    CleanPadded("  ", Sentinel, "\n");
  }

  /** Whatever cleans to the sentinel is accepted as a test message and reaches the
      model with the test tag in front. */
  lemma SentinelScenario(p: Processor, raw: string, now: Stamp)
    requires Clean(raw) == Sentinel && p.maxLength >= |Sentinel|
    ensures var s := Process(p, raw, now);
      && s.result.Some?
      && s.result.value.kind == Test
      && FormatForLlm(s.result.value) == TestTag + Sentinel
  {
    SentinelAccepted(p.maxLength);
  }

  lemma SentinelTidy()
    ensures Tidy(Sentinel)
  {
    SentinelNoControl();
    SentinelBlanksOnly();
    SentinelSingleSpaced();
  }

  lemma SentinelNoControl()
    ensures NoControl(Sentinel)
  {
  }

  lemma SentinelBlanksOnly()
    ensures BlanksOnly(Sentinel) && Trimmed(Sentinel)
  {
  }

  lemma SentinelSingleSpaced()
    ensures NoAdjacentSpaces(Sentinel)
  {
    SentinelBlanksOnly();
    forall i | 0 <= i < |Sentinel| - 1
      ensures !SpacePairAt(Sentinel, i)
    {
      assert Sentinel[i] != ' ' || Sentinel[i + 1] != ' ';
    }
  }

  /** The sentinel is already clean. */
  lemma SentinelIsClean()
    ensures Clean(Sentinel) == Sentinel
  {
    SentinelTidy();
    CleanTidy(Sentinel);
  }

  /** Three different characters make a text varied enough for the repetition test. */
  lemma ThreeDistinct(s: string, i: nat, j: nat, k: nat)
    requires i < |s| && j < |s| && k < |s|
    requires s[i] != s[j] && s[j] != s[k] && s[i] != s[k]
    ensures |Distinct(s)| >= 3
  {
    var d := {s[i], s[j], s[k]};
    assert |d| == 3;
    assert d <= Distinct(s);
    SubsetCardinality(d, Distinct(s));
  }

  lemma SubsetCardinality<T>(a: set<T>, b: set<T>)
    requires a <= b
    ensures |a| <= |b|
  {
    assert b == a + (b - a);
  }

  /** Text within the length limits that starts with a visible character, is plain ASCII
      without NUL and has three different characters passes every check. */
  lemma AcceptedWhenPlain(m: string, maxLength: int)
    requires MinLength <= |m| <= maxLength
    requires !IsSpace(m[0])
    requires NonAsciiCount(m) == 0 && '\0' !in m && |Distinct(m)| >= 3
    ensures Validate(m, maxLength) == Accept
  {
  }

  lemma SentinelAccepted(maxLength: int)
    requires maxLength >= |Sentinel|
    ensures Validate(Sentinel, maxLength) == Accept
  {
    SentinelPlain();
    AcceptedWhenPlain(Sentinel, maxLength);
  }

  lemma SentinelPlain()
    ensures NonAsciiCount(Sentinel) == 0 && '\0' !in Sentinel && |Distinct(Sentinel)| >= 3
    ensures |Sentinel| == 30 && !IsSpace(Sentinel[0])
  {
    SentinelVaried();
    SentinelAscii();
    SentinelStart();
  }

  lemma SentinelStart()
    ensures |Sentinel| == 30 && !IsSpace(Sentinel[0])
  {
  }

  lemma SentinelVaried()
    ensures |Distinct(Sentinel)| >= 3
  {
    ThreeDistinct(Sentinel, 0, 1, 2);
  }

  lemma SentinelAscii()
    ensures NonAsciiCount(Sentinel) == 0 && '\0' !in Sentinel
  {
    PrintableAscii(Sentinel);
  }

  /** Printable ASCII text has no character above 127 and no NUL. */
  lemma PrintableAscii(s: string)
    requires forall i :: 0 <= i < |s| ==> 32 <= (s[i] as int) <= 127
    ensures NonAsciiCount(s) == 0 && '\0' !in s
  {
    NoNonAscii(s);
  }

  lemma {:induction false} NoNonAscii(s: string)
    requires forall i :: 0 <= i < |s| ==> (s[i] as int) <= 127
    ensures NonAsciiCount(s) == 0
  {
    if |s| > 0 {
      NoNonAscii(s[1..]);
    }
  }

  /** A control character in front of a blank keeps the blank: stripping happens before
      control characters are deleted. */
  lemma ControlShieldsBlank()
    ensures Clean("\U{1} [abc]") == " [abc]"
  {
    var raw := "\U{1} [abc]";
    assert Trimmed(raw);
    StripTrimmed(raw);
    assert RemoveControls(raw) == " [abc]" by {
      assert raw[1..] == " [abc]";
      assert NoControl(" [abc]");
    }
    BlankBracketShape();
    ShapedSingleSpaced(" [abc]");
  }

  lemma BlankBracketShape()
    ensures BlanksOnly(" [abc]") && NoAdjacentSpaces(" [abc]")
  {
    assert Tidy("[abc]");
    ConsShape(' ', "[abc]");
    assert " [abc]" == [' '] + "[abc]";
  }

  /** Collapsing and dropping trailing newlines keep text whose only whitespace is
      single blanks. */
  lemma ShapedSingleSpaced(s: string)
    requires BlanksOnly(s) && NoAdjacentSpaces(s)
    ensures RStripNewlines(CollapseSpaces(s)) == s
  {
    CollapseFromSingleSpaced(s, false);
    BlanksHaveNoNewlines(s);
  }

  lemma BracketedTextIsTidy()
    ensures Tidy("[abc]") && Clean(" [abc]") == "[abc]"
  {
    BracketTidy();
    LeadingBlank();
    CleanPadded(" ", "[abc]", "");
  }

  lemma BracketTidy()
    ensures Tidy("[abc]")
  {
  }

  lemma LeadingBlank()
    ensures " [abc]" == " " + "[abc]" + "" && SpaceOnly(" ") && SpaceOnly("")
  {
  }

  /** Cleaning is not idempotent: a control character ahead of a blank shields the blank
      from the first strip, and the re-cleaned text classifies differently. */
  lemma ReprocessingCanReclassify()
    ensures Clean("\U{1} [abc]") == " [abc]"
    ensures Clean(Clean("\U{1} [abc]")) == "[abc]"
    ensures Classify(Clean("\U{1} [abc]")) == Custom
    ensures Classify(Clean(Clean("\U{1} [abc]"))) == System
  {
    ControlShieldsBlank();
    BracketedTextIsTidy();
    ClassifyExamples();
  }

  lemma ClassifyExamples()
    ensures Classify(" [abc]") == Custom
    ensures Classify("[abc]") == System
  {
    assert Bracketed("[abc]");
    assert !Bracketed(" [abc]");
  }

  /** Re-processing cleaned sentinel text classifies it as `test` again. */
  lemma SentinelReclassifies(raw: string)
    requires Clean(raw) == Sentinel
    ensures Classify(Clean(Clean(raw))) == Test
  {
    SentinelIsClean();
  }
}
