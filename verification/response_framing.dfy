/**
 * The framing of an LLM answer before it is sent back over the link: a prefix, the answer
 * (cut and marked with "..." when it does not fit) and a suffix, within a length budget.
 */
module ResponseFraming {
  import opened Text

  const DefaultMaxLength: int := 500
  const DefaultPrefix: string := "AI: "
  const DefaultSuffix: string := "\n---\n"
  const Ellipsis: string := "..."

  /** Python's `s[:n]`, where a negative `n` counts from the end. */
  function SliceTo(s: string, n: int): (r: string)
    ensures n >= 0 ==> r == s[..if n <= |s| then n else |s|]
    ensures n < 0 ==> r == s[..if |s| + n >= 0 then |s| + n else 0]
    ensures r <= s
  {
    if n >= 0 then (if n <= |s| then s[..n] else s)
    else (if |s| + n >= 0 then s[..|s| + n] else [])
  }

  /** The room the answer has once prefix and suffix are placed. */
  function Budget(maxLength: int, prefix: string, suffix: string): int {
    maxLength - |prefix| - |suffix|
  }

  /** The answer as it appears between prefix and suffix. */
  function Body(response: string, maxLength: int, prefix: string, suffix: string): (b: string)
    ensures |response| <= Budget(maxLength, prefix, suffix) ==> b == response
    ensures |response| > Budget(maxLength, prefix, suffix) ==>
      EndsWith(b, Ellipsis) && b[..|b| - 3] <= response && (|response| > 0 ==> |b| - 3 < |response|)
  {
    var budget := Budget(maxLength, prefix, suffix);
    if |response| > budget then
      var kept := SliceTo(response, budget - 3);
      var b := kept + Ellipsis;
      assert b[..|b| - 3] == kept;
      assert b[|b| - 3..] == Ellipsis;
      b
    else response
  }

  /** The formatting step: cut an answer that does not fit to `budget - 3` characters plus
      "...", then put prefix and suffix around it. */
  function FrameResponse(response: string, maxLength: int, prefix: string, suffix: string): (f: string)
    ensures StartsWith(f, prefix) && EndsWith(f, suffix)
    ensures |f| == |prefix| + |Body(response, maxLength, prefix, suffix)| + |suffix|
  {
    var f := prefix + Body(response, maxLength, prefix, suffix) + suffix;
    assert f[..|prefix|] == prefix;
    assert f[|f| - |suffix|..] == suffix;
    f
  }

  /** An answer that fits is framed unchanged. */
  lemma FitsUnchanged(response: string, maxLength: int, prefix: string, suffix: string)
    requires |response| <= Budget(maxLength, prefix, suffix)
    ensures FrameResponse(response, maxLength, prefix, suffix) == prefix + response + suffix
    ensures |FrameResponse(response, maxLength, prefix, suffix)| <= maxLength
  {
  }

  /** With room for at least the ellipsis, the framed text never exceeds the limit, and a
      cut answer fills it exactly; the cut keeps the first `budget - 3` characters. */
  lemma FramedWithinLimit(response: string, maxLength: int, prefix: string, suffix: string)
    requires maxLength >= |prefix| + |suffix| + 3
    ensures var f := FrameResponse(response, maxLength, prefix, suffix);
      && |f| <= maxLength
      && (|response| > Budget(maxLength, prefix, suffix) ==>
            |f| == maxLength
            && f == prefix + response[..Budget(maxLength, prefix, suffix) - 3] + Ellipsis + suffix)
  {
  }

  /** Below that bound the source's slice counts from the end, so the framed text can be
      longer than the limit: a limit of 10 with the default prefix and suffix leaves a
      budget of 1, and a 20-character answer keeps 18 of its characters. */
  lemma NegativeSliceOverruns(response: string)
    requires |response| == 20
    ensures |FrameResponse(response, 10, DefaultPrefix, DefaultSuffix)| == 30
  {
    assert Budget(10, DefaultPrefix, DefaultSuffix) == 1;
  }

  /** `s * n` in Python. */
  function Repeat(s: string, n: nat): (r: string)
    ensures |r| == |s| * n
  {
    if n == 0 then [] else s + Repeat(s, n - 1)
  }

  const LongResponse: string := Repeat("This is a very long response ", 10)

  /** The long example answer (290 characters) framed with a limit of 100 comes out at
      exactly 100 characters. */
  lemma LongExample()
    ensures |LongResponse| == 290
    ensures |FrameResponse(LongResponse, 100, DefaultPrefix, DefaultSuffix)| == 100
  {
    FramedWithinLimit(LongResponse, 100, DefaultPrefix, DefaultSuffix);
  }

  const ShortResponse: string := "This is a test response from the AI."

  /** The short example answer (36 characters) fits a limit of 100 and is framed whole. */
  lemma ShortExample()
    ensures |ShortResponse| == 36
    ensures FrameResponse(ShortResponse, 100, DefaultPrefix, DefaultSuffix)
      == DefaultPrefix + ShortResponse + DefaultSuffix
  {
    FitsUnchanged(ShortResponse, 100, DefaultPrefix, DefaultSuffix);
  }
}
