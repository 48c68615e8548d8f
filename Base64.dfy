/**
 * The base64 layer of the bootstrap token: the alphabet of section 4 of
 * RFC 4648, the padded encoder the browser's `btoa` implements, and the
 * "forgiving-base64 decode" of the WHATWG Infra standard that `atob`
 * implements (it strips ASCII whitespace, accepts input without `=`
 * padding and rejects a length of 1 modulo 4).
 */
module Base64 {
  import opened Wire

  /** The character for a 6-bit value. */
  function Sym(v: bv8): (c: char)
    requires v < 64
  {
    if v < 26 then ('A' as int + v as int) as char
    else if v < 52 then ('a' as int + (v as int - 26)) as char
    else if v < 62 then ('0' as int + (v as int - 52)) as char
    else if v == 62 then '+'
    else '/'
  }

  predicate IsSym(c: char)
  {
    ('A' <= c <= 'Z') || ('a' <= c <= 'z') || ('0' <= c <= '9') || c == '+' || c == '/'
  }

  /** The 6-bit value of an alphabet character (63 for any other character). */
  function ValueOf(c: char): (v: bv8)
  {
    if 'A' <= c <= 'Z' then (c as int - 'A' as int) as bv8
    else if 'a' <= c <= 'z' then (c as int - 'a' as int + 26) as bv8
    else if '0' <= c <= '9' then (c as int - '0' as int + 52) as bv8
    else if c == '+' then 62
    else 63
  }

  lemma SymValue(v: bv8)
    requires v < 64
    ensures IsSym(Sym(v)) && ValueOf(Sym(v)) == v && Sym(v) != '='
  {
  }

  predicate AllSyms(s: string)
  {
    forall i :: 0 <= i < |s| ==> IsSym(s[i])
  }

  /** The two characters for a final single byte. */
  function Enc1(x0: bv8): (s: string)
    ensures |s| == 2 && AllSyms(s) && '=' !in s
  {
    var v0, v1 := x0 >> 2, (x0 & 3) << 4;
    SymValue(v0); SymValue(v1);
    [Sym(v0), Sym(v1)]
  }

  /** The three characters for a final pair of bytes. */
  function Enc2(x0: bv8, x1: bv8): (s: string)
    ensures |s| == 3 && AllSyms(s) && '=' !in s
  {
    var v0, v1, v2 := x0 >> 2, ((x0 & 3) << 4) | (x1 >> 4), (x1 & 15) << 2;
    SymValue(v0); SymValue(v1); SymValue(v2);
    [Sym(v0), Sym(v1), Sym(v2)]
  }

  /** The four characters for a group of three bytes. */
  function Enc3(x0: bv8, x1: bv8, x2: bv8): (s: string)
    ensures |s| == 4 && AllSyms(s) && '=' !in s
  {
    var v0, v1 := x0 >> 2, ((x0 & 3) << 4) | (x1 >> 4);
    var v2, v3 := ((x1 & 15) << 2) | (x2 >> 6), x2 & 63;
    SymValue(v0); SymValue(v1); SymValue(v2); SymValue(v3);
    [Sym(v0), Sym(v1), Sym(v2), Sym(v3)]
  }

  /** The full 4-character groups and the final 2- or 3-character group, without padding. */
  function Groups(b: seq<bv8>): (s: string)
    decreases |b|
  {
    if |b| == 0 then ""
    else if |b| == 1 then Enc1(b[0])
    else if |b| == 2 then Enc2(b[0], b[1])
    else Enc3(b[0], b[1], b[2]) + Groups(b[3..])
  }

  function Padding(n: nat): (s: string)
  {
    if n % 3 == 1 then "==" else if n % 3 == 2 then "=" else ""
  }

  /** `btoa`: the padded base64 encoding of a byte string. */
  function Encode(b: seq<bv8>): (s: string)
  {
    Groups(b) + Padding(|b|)
  }

  /** The string with every `c` removed (for `=`: the global replace of `[=]*` by the empty string). */
  function RemoveChar(s: string, c: char): (r: string)
  {
    if s == [] then [] else (if s[0] == c then [] else [s[0]]) + RemoveChar(s[1..], c)
  }

  predicate IsAsciiWhitespace(c: char)
  {
    c == '\t' || c == '\n' || c == '\U{C}' || c == '\r' || c == ' '
  }

  function StripWhitespace(s: string): (r: string)
  {
    if s == [] then [] else (if IsAsciiWhitespace(s[0]) then [] else [s[0]]) + StripWhitespace(s[1..])
  }

  /** The byte from the first two characters of a group. */
  function Dec0(c0: char, c1: char): bv8
  {
    (ValueOf(c0) << 2) | (ValueOf(c1) >> 4)
  }

  /** The byte from the second and third characters of a group. */
  function Dec1(c1: char, c2: char): bv8
  {
    (ValueOf(c1) << 4) | (ValueOf(c2) >> 2)
  }

  /** The byte from the last two characters of a group. */
  function Dec2(c2: char, c3: char): bv8
  {
    (ValueOf(c2) << 6) | ValueOf(c3)
  }

  /** Decoding of unpadded groups; None on a character outside the alphabet. */
  function DecodeGroups(t: string): (r: Option<seq<bv8>>)
    decreases |t|
  {
    if |t| == 0 then Some([])
    else if |t| == 1 then None
    else if !IsSym(t[0]) || !IsSym(t[1]) then None
    else if |t| == 2 then Some([Dec0(t[0], t[1])])
    else if !IsSym(t[2]) then None
    else if |t| == 3 then Some([Dec0(t[0], t[1]), Dec1(t[1], t[2])])
    else if !IsSym(t[3]) then None
    else
      match DecodeGroups(t[4..])
      case None => None
      case Some(rest) => Some([Dec0(t[0], t[1]), Dec1(t[1], t[2]), Dec2(t[2], t[3])] + rest)
  }

  /** `atob`: the forgiving base64 decoder. */
  function ForgivingDecode(s: string): (r: Option<seq<bv8>>)
  {
    var d := StripWhitespace(s);
    var t := if |d| % 4 == 0 && |d| >= 2 && d[|d| - 1] == '=' && d[|d| - 2] == '=' then d[..|d| - 2]
             else if |d| % 4 == 0 && |d| >= 1 && d[|d| - 1] == '=' then d[..|d| - 1]
             else d;
    if |t| % 4 == 1 then None else DecodeGroups(t)
  }

  // ---------------------------------------------------------------- proofs

  lemma {:induction false} GroupsShape(b: seq<bv8>)
    ensures AllSyms(Groups(b))
    ensures |Groups(b)| % 4 != 1
    decreases |b|
  {
    if |b| >= 3 {
      GroupsShape(b[3..]);
      var head, tail := Enc3(b[0], b[1], b[2]), Groups(b[3..]);
      assert Groups(b) == head + tail;
      forall i | 0 <= i < |head + tail| ensures IsSym((head + tail)[i]) {
        if i >= 4 { assert (head + tail)[i] == tail[i - 4]; }
      }
    }
  }

  lemma {:induction false} RemoveCharNotPresent(s: string, c: char)
    requires c !in s
    ensures RemoveChar(s, c) == s
  {
    if s != [] {
      assert c !in s[1..];
      RemoveCharNotPresent(s[1..], c);
    }
  }

  lemma {:induction false} RemoveCharAppend(s: string, t: string, c: char)
    ensures RemoveChar(s + t, c) == RemoveChar(s, c) + RemoveChar(t, c)
  {
    if s == [] {
      assert s + t == t;
    } else {
      assert (s + t)[0] == s[0];
      assert (s + t)[1..] == s[1..] + t;
      RemoveCharAppend(s[1..], t, c);
    }
  }

  lemma {:induction false} RemoveCharAbsent(s: string, c: char)
    ensures c !in RemoveChar(s, c)
  {
    if s != [] {
      RemoveCharAbsent(s[1..], c);
    }
  }

  lemma {:induction false} StripWhitespaceSyms(s: string)
    requires AllSyms(s)
    ensures StripWhitespace(s) == s
  {
    if s != [] {
      assert IsSym(s[0]);
      StripWhitespaceSyms(s[1..]);
    }
  }

  /** Stripping every `=` from `btoa`'s output leaves exactly the groups. */
  lemma EncodeWithoutPadding(b: seq<bv8>)
    ensures RemoveChar(Encode(b), '=') == Groups(b)
  {
    GroupsShape(b);
    forall i | 0 <= i < |Groups(b)| ensures Groups(b)[i] != '=' {
      assert IsSym(Groups(b)[i]);
    }
    RemoveCharAppend(Groups(b), Padding(|b|), '=');
    RemoveCharNotPresent(Groups(b), '=');
    assert RemoveChar("", '=') == "";
    assert RemoveChar("=", '=') == "" by { assert "="[1..] == ""; }
    assert RemoveChar("==", '=') == "" by { assert "=="[1..] == "="; }
  }

  lemma Enc3Inverse(x0: bv8, x1: bv8, x2: bv8)
    ensures var s := Enc3(x0, x1, x2);
            Dec0(s[0], s[1]) == x0 && Dec1(s[1], s[2]) == x1 && Dec2(s[2], s[3]) == x2
  {
    SymValue(x0 >> 2); SymValue(((x0 & 3) << 4) | (x1 >> 4));
    SymValue(((x1 & 15) << 2) | (x2 >> 6)); SymValue(x2 & 63);
  }

  lemma Enc2Inverse(x0: bv8, x1: bv8)
    ensures var s := Enc2(x0, x1);
            Dec0(s[0], s[1]) == x0 && Dec1(s[1], s[2]) == x1
  {
    SymValue(x0 >> 2); SymValue(((x0 & 3) << 4) | (x1 >> 4)); SymValue((x1 & 15) << 2);
  }

  lemma Enc1Inverse(x0: bv8)
    ensures var s := Enc1(x0);
            Dec0(s[0], s[1]) == x0
  {
    SymValue(x0 >> 2); SymValue((x0 & 3) << 4);
  }

  lemma {:induction false} DecodeGroupsInverse(b: seq<bv8>)
    ensures DecodeGroups(Groups(b)) == Some(b)
    decreases |b|
  {
    if |b| == 1 {
      Enc1Inverse(b[0]);
      assert [b[0]] == b;
    } else if |b| == 2 {
      Enc2Inverse(b[0], b[1]);
      assert [b[0], b[1]] == b;
    } else if |b| >= 3 {
      var head, tail := Enc3(b[0], b[1], b[2]), Groups(b[3..]);
      var t := head + tail;
      assert Groups(b) == t;
      assert t[0] == head[0] && t[1] == head[1] && t[2] == head[2] && t[3] == head[3];
      assert t[4..] == tail;
      Enc3Inverse(b[0], b[1], b[2]);
      DecodeGroupsInverse(b[3..]);
      assert [b[0], b[1], b[2]] + b[3..] == b;
    }
  }

  /** `atob` undoes `btoa` even after every `=` has been stripped. */
  lemma UnpaddedRoundTrip(b: seq<bv8>)
    ensures ForgivingDecode(RemoveChar(Encode(b), '=')) == Some(b)
  {
    EncodeWithoutPadding(b);
    var s := Groups(b);
    GroupsShape(b);
    StripWhitespaceSyms(s);
    if |s| > 0 {
      assert IsSym(s[|s| - 1]);
    }
    DecodeGroupsInverse(b);
  }
}
