/**
 * Python string primitives the bridge relies on: the whitespace class shared by
 * `str.strip`, `str.isspace` and the regular-expression class `\s`, stripping,
 * prefix/suffix tests and substring containment (`a in b`).
 */
module Text {

  /** Python's notion of whitespace for `str` (CPython `Py_UNICODE_ISSPACE`). */
  predicate IsSpace(c: char) {
    var n := c as int;
    || (9 <= n <= 13)
    || (28 <= n <= 32)
    || n == 0x85 || n == 0xA0 || n == 0x1680
    || (0x2000 <= n <= 0x200A)
    || n == 0x2028 || n == 0x2029 || n == 0x202F || n == 0x205F || n == 0x3000
  }

  /** Every character of `s` is whitespace (true of the empty string). */
  predicate SpaceOnly(s: string) {
    forall i :: 0 <= i < |s| ==> IsSpace(s[i])
  }

  /** Python's `s.isspace()`: non-empty and made of whitespace only. */
  predicate IsWhitespaceOnly(s: string) {
    |s| > 0 && SpaceOnly(s)
  }

  /** Neither end of `s` is whitespace. */
  predicate Trimmed(s: string) {
    |s| == 0 || (!IsSpace(s[0]) && !IsSpace(s[|s| - 1]))
  }

  /** `r` is `s` with the whitespace-only `s[..i]` and `s[i + |r|..]` removed. */
  predicate StripsAt(r: string, s: string, i: int) {
    && 0 <= i && i + |r| <= |s|
    && s[i..i + |r|] == r
    && SpaceOnly(s[..i])
    && SpaceOnly(s[i + |r|..])
  }

  /** `r` is what remains of `s` once whitespace is removed from both ends. */
  predicate StripOf(r: string, s: string) {
    Trimmed(r) && exists i :: 0 <= i <= |s| && StripsAt(r, s, i)
  }

  /** Python's `s.lstrip()`. */
  function LStrip(s: string): (r: string)
    ensures |r| <= |s| && r == s[|s| - |r|..]
    ensures SpaceOnly(s[..|s| - |r|])
    ensures |r| > 0 ==> !IsSpace(r[0])
  {
    if |s| > 0 && IsSpace(s[0]) then LStrip(s[1..]) else s
  }

  /** Python's `s.rstrip()`. */
  function RStrip(s: string): (r: string)
    ensures |r| <= |s| && r == s[..|r|]
    ensures SpaceOnly(s[|r|..])
    ensures |r| > 0 ==> !IsSpace(r[|r| - 1])
  {
    if |s| > 0 && IsSpace(s[|s| - 1]) then RStrip(s[..|s| - 1]) else s
  }

  /** Python's `s.strip()`. */
  function Strip(s: string): (r: string)
    ensures |r| <= |s|
  {
    RStrip(LStrip(s))
  }

  /** `strip()` removes whitespace from both ends and nothing else. */
  lemma StripSpec(s: string)
    ensures StripOf(Strip(s), s)
  {
    StripOfParts(s, LStrip(s), Strip(s));
  }

  /** Where `strip()` cut: the offset of the stripped text within the original. */
  lemma StripWitness(s: string) returns (i: int)
    ensures 0 <= i <= |s| && StripsAt(Strip(s), s, i) && Trimmed(Strip(s))
  {
    StripSpec(s);
    i :| 0 <= i <= |s| && StripsAt(Strip(s), s, i);
  }

  /** Removing a whitespace-only prefix and then a whitespace-only suffix yields a `StripOf`. */
  lemma StripOfParts(s: string, t: string, r: string)
    requires |t| <= |s| && t == s[|s| - |t|..] && SpaceOnly(s[..|s| - |t|])
    requires |t| > 0 ==> !IsSpace(t[0])
    requires |r| <= |t| && r == t[..|r|] && SpaceOnly(t[|r|..])
    requires |r| > 0 ==> !IsSpace(r[|r| - 1])
    ensures StripsAt(r, s, |s| - |t|) && Trimmed(r)
  {
    var i := |s| - |t|;
    assert forall j :: 0 <= j < |r| ==> s[i..i + |r|][j] == s[i + j] == t[j] == r[j];
    assert forall j :: 0 <= j < |s| - (i + |r|) ==> s[i + |r|..][j] == s[i + |r| + j] == t[|r|..][j];
    assert |r| > 0 ==> r[0] == t[0];
  }

  /** A `StripsAt` split puts `s` back together from its three parts. */
  lemma StripSplit(r: string, s: string, i: int)
    requires StripsAt(r, s, i)
    ensures s == s[..i] + r + s[i + |r|..]
  {
  }

  /** A whitespace-only string strips to nothing from the left. */
  lemma LStripAllSpace(s: string, t: string)
    requires SpaceOnly(s)
    requires |t| <= |s| && t == s[|s| - |t|..] && (|t| > 0 ==> !IsSpace(t[0]))
    ensures |t| == 0
  {
  }

  /** The left strip removes exactly the whitespace in front of a `StripsAt` piece. */
  lemma LeadingMatches(r: string, s: string, i: int, t: string)
    requires StripsAt(r, s, i) && |r| > 0 && !IsSpace(r[0])
    requires |t| <= |s| && t == s[|s| - |t|..] && SpaceOnly(s[..|s| - |t|])
    requires |t| > 0 ==> !IsSpace(t[0])
    ensures |s| - |t| == i
    ensures t == r + s[i + |r|..]
  {
    var k := |s| - |t|;
    assert s[i] == r[0];
    assert k == i;
    StripSplit(r, s, i);
  }

  /** The right strip removes exactly the whitespace behind a `StripsAt` piece. */
  lemma TrailingMatches(r: string, b: string, u: string)
    requires SpaceOnly(b) && |r| > 0 && !IsSpace(r[|r| - 1])
    requires |u| <= |r + b| && u == (r + b)[..|u|] && SpaceOnly((r + b)[|u|..])
    requires |u| > 0 ==> !IsSpace(u[|u| - 1])
    ensures u == r
  {
    var t := r + b;
    var m := |u|;
    var e := |r|;
    assert t[e - 1] == r[e - 1];
    assert m == e;
  }

  /** Stripping is determined by its input: any `StripOf` a string is its `strip()`. */
  lemma StripOfIsStrip(r: string, s: string)
    requires StripOf(r, s)
    ensures Strip(s) == r
  {
    var i :| 0 <= i <= |s| && StripsAt(r, s, i);
    var t := LStrip(s);
    if |r| == 0 {
      StripSplit(r, s, i);
      assert SpaceOnly(s) by {
        forall j | 0 <= j < |s|
          ensures IsSpace(s[j])
        {
          if j < i {
            assert s[j] == s[..i][j];
          } else {
            assert s[j] == s[i..][j - i];
          }
        }
      }
      LStripAllSpace(s, t);
    } else {
      LeadingMatches(r, s, i, t);
      TrailingMatches(r, s[i + |r|..], RStrip(t));
    }
  }

  /** Padding a trimmed string with whitespace on both sides and stripping gives it back. */
  lemma StripPadded(a: string, r: string, b: string)
    requires SpaceOnly(a) && SpaceOnly(b) && Trimmed(r)
    ensures Strip(a + r + b) == r
  {
    var s := a + r + b;
    assert s[|a|..|a| + |r|] == r && s[..|a|] == a && s[|a| + |r|..] == b;
    assert StripsAt(r, s, |a|);
    StripOfIsStrip(r, s);
  }

  /** A string without whitespace at either end is left unchanged by `strip`. */
  lemma StripTrimmed(s: string)
    requires Trimmed(s)
    ensures Strip(s) == s
  {
    assert s == [] + s + [];
    StripPadded([], s, []);
  }

  /** Python's `s.startswith(p)`. */
  predicate StartsWith(s: string, p: string) {
    |p| <= |s| && s[..|p|] == p
  }

  /** Python's `s.endswith(p)`. */
  predicate EndsWith(s: string, p: string) {
    |p| <= |s| && s[|s| - |p|..] == p
  }

  /** `needle` occurs in `hay` starting at index `i`. */
  predicate OccursAt(hay: string, needle: string, i: int) {
    0 <= i && i + |needle| <= |hay| && hay[i..i + |needle|] == needle
  }

  /** Python's `needle in hay` for strings. */
  predicate Contains(hay: string, needle: string) {
    exists i :: 0 <= i <= |hay| && OccursAt(hay, needle, i)
  }

  /** ASCII lower-casing; every other character is its own case. */
  function ToLowerAscii(c: char): char {
    if 'A' <= c <= 'Z' then (c as int + 32) as char else c
  }

  /** `s` begins with `word`, compared with ASCII case folding. */
  predicate StartsWithIgnoreCase(s: string, word: string) {
    |word| <= |s| && forall i :: 0 <= i < |word| ==> ToLowerAscii(s[i]) == ToLowerAscii(word[i])
  }
}
