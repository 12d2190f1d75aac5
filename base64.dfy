/** The base64 encoding of section 4 of RFC 4648, as the `encodeBase64` and
    `decodeBase64` helpers of tweetnacl-util implement it: the encoder always
    pads with `=`; the decoder accepts only strings made of complete
    four-character groups, the last of which may end in `==` or `=`, and
    (like the browser's `atob`) ignores the unused low bits of a padded group. */
module Base64 {
  import opened Wrappers
  import opened Bytes

  /** The 64 characters `A-Z a-z 0-9 + /` of the alphabet. */
  predicate IsAlphabetChar(c: char) {
    ('A' <= c <= 'Z') || ('a' <= c <= 'z') || ('0' <= c <= '9') || c == '+' || c == '/'
  }

  /** The character that encodes the 6-bit value `v` (Table 1 of RFC 4648). */
  function CharOf(v: int): (c: char)
    requires 0 <= v < 64
    ensures IsAlphabetChar(c)
  {
    if v < 26 then ('A' as int + v) as char
    else if v < 52 then ('a' as int + (v - 26)) as char
    else if v < 62 then ('0' as int + (v - 52)) as char
    else if v == 62 then '+'
    else '/'
  }

  /** The 6-bit value of an alphabet character. */
  function ValueOf(c: char): (v: int)
    requires IsAlphabetChar(c)
    ensures 0 <= v < 64 && CharOf(v) == c
  {
    if 'A' <= c <= 'Z' then c as int - 'A' as int
    else if 'a' <= c <= 'z' then c as int - 'a' as int + 26
    else if '0' <= c <= '9' then c as int - '0' as int + 52
    else if c == '+' then 62
    else 63
  }

  lemma ValueOfCharOf(v: int)
    requires 0 <= v < 64
    ensures ValueOf(CharOf(v)) == v
  {
  }

  /** Encodes the 24 bits of three bytes as four characters. */
  function EncodeTriple(b0: byte, b1: byte, b2: byte): string {
    [CharOf(b0 / 4), CharOf((b0 % 4) * 16 + b1 / 16), CharOf((b1 % 16) * 4 + b2 / 64), CharOf(b2 % 64)]
  }

  /** Encodes the final one or two bytes of the input, padded with `=`. */
  function EncodeTail(b: Bytes): string
    requires 1 <= |b| <= 2
  {
    if |b| == 1 then [CharOf(b[0] / 4), CharOf((b[0] % 4) * 16), '=', '=']
    else [CharOf(b[0] / 4), CharOf((b[0] % 4) * 16 + b[1] / 16), CharOf((b[1] % 16) * 4), '=']
  }

  /** `encodeBase64`: the padded encoding, `4 * ceil(|b| / 3)` characters long. */
  function Encode(b: Bytes): (s: string)
    ensures |s| == 4 * ((|b| + 2) / 3)
    decreases |b|
  {
    if |b| == 0 then ""
    else if |b| <= 2 then EncodeTail(b)
    else EncodeTriple(b[0], b[1], b[2]) + Encode(b[3..])
  }

  /** Decodes one complete four-character group into three bytes. */
  function DecodeQuad(c0: char, c1: char, c2: char, c3: char): (r: Bytes)
    requires IsAlphabetChar(c0) && IsAlphabetChar(c1) && IsAlphabetChar(c2) && IsAlphabetChar(c3)
    ensures |r| == 3
  {
    var v0, v1, v2, v3 := ValueOf(c0), ValueOf(c1), ValueOf(c2), ValueOf(c3);
    [v0 * 4 + v1 / 16, (v1 % 16) * 16 + v2 / 4, (v2 % 4) * 64 + v3]
  }

  /** `decodeBase64`: `None` where tweetnacl-util throws `invalid encoding`. */
  function Decode(s: string): (r: Option<Bytes>)
    ensures r.Some? ==> |s| % 4 == 0
    decreases |s|
  {
    if |s| == 0 then Some([])
    else if |s| < 4 then None
    else if !(IsAlphabetChar(s[0]) && IsAlphabetChar(s[1])) then None
    else if |s| == 4 && s[2] == '=' && s[3] == '=' then
      Some([ValueOf(s[0]) * 4 + ValueOf(s[1]) / 16])
    else if |s| == 4 && IsAlphabetChar(s[2]) && s[3] == '=' then
      var v1, v2 := ValueOf(s[1]), ValueOf(s[2]);
      Some([ValueOf(s[0]) * 4 + v1 / 16, (v1 % 16) * 16 + v2 / 4])
    else if IsAlphabetChar(s[2]) && IsAlphabetChar(s[3]) then
      match Decode(s[4..])
      case None => None
      case Some(rest) => Some(DecodeQuad(s[0], s[1], s[2], s[3]) + rest)
    else None
  }

  lemma DivMod16(hi: int, lo: int)
    requires 0 <= hi && 0 <= lo < 16
    ensures (hi * 16 + lo) / 16 == hi && (hi * 16 + lo) % 16 == lo
  {
  }

  lemma DivMod4(hi: int, lo: int)
    requires 0 <= hi && 0 <= lo < 4
    ensures (hi * 4 + lo) / 4 == hi && (hi * 4 + lo) % 4 == lo
  {
  }

  lemma DecodeEncodeTriple(b0: byte, b1: byte, b2: byte)
    ensures var e := EncodeTriple(b0, b1, b2);
      IsAlphabetChar(e[0]) && IsAlphabetChar(e[1]) && IsAlphabetChar(e[2]) && IsAlphabetChar(e[3]) &&
      DecodeQuad(e[0], e[1], e[2], e[3]) == [b0, b1, b2]
  {
    var v0, v1, v2, v3 := b0 / 4, (b0 % 4) * 16 + b1 / 16, (b1 % 16) * 4 + b2 / 64, b2 % 64;
    ValueOfCharOf(v0);
    ValueOfCharOf(v1);
    ValueOfCharOf(v2);
    ValueOfCharOf(v3);
    DivMod16(b0 % 4, b1 / 16);
    DivMod4(b1 % 16, b2 / 64);
    assert v0 * 4 + v1 / 16 == b0;
    assert (v1 % 16) * 16 + v2 / 4 == b1;
    assert (v2 % 4) * 64 + v3 == b2;
  }

  lemma DecodeEncodeTail(b: Bytes)
    requires 1 <= |b| <= 2
    ensures Decode(EncodeTail(b)) == Some(b)
  {
    var e := EncodeTail(b);
    ValueOfCharOf(b[0] / 4);
    if |b| == 1 {
      ValueOfCharOf((b[0] % 4) * 16);
      assert ((b[0] % 4) * 16) / 16 == b[0] % 4;
      assert b == [b[0]];
    } else {
      ValueOfCharOf((b[0] % 4) * 16 + b[1] / 16);
      ValueOfCharOf((b[1] % 16) * 4);
      assert b == [b[0], b[1]];
    }
  }

  /** A complete group in front decodes to its three bytes, ahead of the
      rest of the string. */
  lemma DecodeGroup(q: string, rest: string)
    requires |q| == 4
    requires IsAlphabetChar(q[0]) && IsAlphabetChar(q[1]) && IsAlphabetChar(q[2]) && IsAlphabetChar(q[3])
    ensures Decode(q + rest) ==
      match Decode(rest)
      case None => None
      case Some(r) => Some(DecodeQuad(q[0], q[1], q[2], q[3]) + r)
  {
    var s := q + rest;
    assert s[..4] == q && s[4..] == rest;
  }

  /** Round trip: decoding an encoding gives back the bytes. */
  lemma {:induction false} DecodeEncode(b: Bytes)
    ensures Decode(Encode(b)) == Some(b)
    decreases |b|
  {
    if |b| == 0 {
    } else if |b| <= 2 {
      DecodeEncodeTail(b);
    } else {
      var t, rest := EncodeTriple(b[0], b[1], b[2]), Encode(b[3..]);
      assert Encode(b) == t + rest;
      DecodeEncodeTriple(b[0], b[1], b[2]);
      DecodeEncode(b[3..]);
      DecodeGroup(t, rest);
      assert b == [b[0], b[1], b[2]] + b[3..];
    }
  }

  /** Shape of an encoding: every character is an alphabet character or `=`,
      and `=` appears only among the last two characters. */
  lemma {:induction false} EncodeAlphabet(b: Bytes)
    ensures forall i :: 0 <= i < |Encode(b)| ==> IsAlphabetChar(Encode(b)[i]) || Encode(b)[i] == '='
    ensures forall i :: 0 <= i < |Encode(b)| - 2 ==> IsAlphabetChar(Encode(b)[i])
    decreases |b|
  {
    if |b| > 2 {
      EncodeAlphabet(b[3..]);
      var e, t := Encode(b), EncodeTriple(b[0], b[1], b[2]);
      assert e == t + Encode(b[3..]);
      forall i | 0 <= i < |e|
        ensures IsAlphabetChar(e[i]) || e[i] == '='
        ensures i < |e| - 2 ==> IsAlphabetChar(e[i])
      {
        if i >= 4 {
          assert e[i] == Encode(b[3..])[i - 4];
        }
      }
    }
  }
}
