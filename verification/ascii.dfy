/**
 * Bytes on the serial wire and Python's ASCII codec: `str.encode('ascii')`, which
 * raises on any character above 127, and `bytes.decode('ascii', errors='ignore')`,
 * which drops every byte above 127.
 */
module Ascii {
  import opened Wrappers

  type Byte = b: int | 0 <= b < 256

  /** The character is in the 7-bit ASCII range. */
  predicate IsAscii(c: char) {
    (c as int) < 128
  }

  predicate AllAscii(s: string) {
    forall i :: 0 <= i < |s| ==> IsAscii(s[i])
  }

  /** Python's `bytes.decode('ascii', errors='ignore')`. */
  function DecodeIgnore(bs: seq<Byte>): (s: string)
    ensures |s| <= |bs|
    ensures AllAscii(s)
    ensures (forall i :: 0 <= i < |bs| ==> bs[i] < 128) ==> |s| == |bs|
  {
    if |bs| == 0 then []
    else if bs[0] < 128 then [bs[0] as char] + DecodeIgnore(bs[1..])
    else DecodeIgnore(bs[1..])
  }

  /** One byte decodes to its character when it is ASCII and is dropped otherwise. */
  lemma DecodeByte(b: Byte)
    ensures DecodeIgnore([b]) == if b < 128 then [b as char] else []
  {
    assert [b][1..] == [];
  }

  /** Decoding works byte by byte, so it distributes over concatenation; with `DecodeByte`
      this fixes which bytes survive and in what order. */
  lemma {:induction false} DecodeAppend(a: seq<Byte>, b: seq<Byte>)
    ensures DecodeIgnore(a + b) == DecodeIgnore(a) + DecodeIgnore(b)
  {
    if |a| == 0 {
      assert a + b == b;
    } else {
      assert (a + b)[1..] == a[1..] + b;
      DecodeAppend(a[1..], b);
    }
  }

  /** Python's `str.encode('ascii')`: `None` stands for the raised `UnicodeEncodeError`. */
  function Encode(s: string): (r: Option<seq<Byte>>)
    ensures r.Some? <==> AllAscii(s)
    ensures r.Some? ==> |r.value| == |s| && forall i :: 0 <= i < |s| ==> r.value[i] == s[i] as int
  {
    if |s| == 0 then Some([])
    else if !IsAscii(s[0]) then None
    else
      match Encode(s[1..])
      case None => None
      case Some(rest) => Some([s[0] as int as Byte] + rest)
  }

  /** Decoding what was encoded gives the original text back. */
  lemma {:induction false} DecodeEncode(s: string)
    requires AllAscii(s)
    ensures Encode(s).Some? && DecodeIgnore(Encode(s).value) == s
  {
    if |s| > 0 {
      DecodeEncode(s[1..]);
      var bs := Encode(s).value;
      assert bs[1..] == Encode(s[1..]).value;
      assert bs[0] < 128;
      assert (bs[0] as char) == s[0];
    }
  }
}
