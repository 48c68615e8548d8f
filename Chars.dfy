/**
 * The characters of the bootstrap token as `btoa` and `atob` see them: a
 * "binary string", one character per byte, so only characters up to U+00FF
 * can be encoded.
 */
module Chars {
  /** Every character is at most U+00FF, so `btoa` accepts the text. */
  predicate Latin1(text: string)
  {
    forall i :: 0 <= i < |text| ==> text[i] as int <= 0xFF
  }

  /** Adding one to a byte below 255 adds one to its value. */
  lemma ByteSucc(p: bv8)
    requires p as int < 255
    ensures (p + 1) as int == p as int + 1
  {
  }

  /** The byte whose value is `n`. */
  function ByteOf(n: int): (b: bv8)
    requires 0 <= n < 256
    ensures b as int == n
    decreases n
  {
    if n == 0 then 0
    else
      var p := ByteOf(n - 1);
      ByteSucc(p);
      p + 1
  }

  /** The bytes `btoa` encodes: one per character, with the character's code as value. */
  function Latin1Bytes(text: string): (b: seq<bv8>)
    requires Latin1(text)
    ensures |b| == |text|
    ensures forall i :: 0 <= i < |text| ==> b[i] as int == text[i] as int
  {
    seq(|text|, i requires 0 <= i < |text| => ByteOf(text[i] as int))
  }

  /** The text `atob` returns: one character per byte. */
  function BytesText(b: seq<bv8>): (text: string)
    ensures |text| == |b| && Latin1(text)
  {
    seq(|b|, i requires 0 <= i < |b| => (b[i] as int) as char)
  }

  /** `atob` gives back the text `btoa` was given. */
  lemma Latin1RoundTrip(text: string)
    requires Latin1(text)
    ensures BytesText(Latin1Bytes(text)) == text
  {
    var b := Latin1Bytes(text);
    forall i | 0 <= i < |text|
      ensures BytesText(b)[i] == text[i]
    {
      assert b[i] as int == text[i] as int;
    }
  }
}
