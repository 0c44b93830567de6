/** PHP's `base64_encode` (RFC 4648 section 4, standard alphabet, `=` padding) and
    its non-strict `base64_decode`, which skips every character outside the
    alphabet (padding included) and drops an incomplete trailing 6-bit group. */
module Base64 {
  import opened Common
  import Query

  predicate IsAlphabetChar(c: char) {
    ('A' <= c <= 'Z') || ('a' <= c <= 'z') || ('0' <= c <= '9') || c == '+' || c == '/'
  }

  /** Value of an alphabet character (RFC 4648 table 1). */
  function IndexOf(c: char): (i: int)
    requires IsAlphabetChar(c)
    ensures 0 <= i < 64
  {
    if 'A' <= c <= 'Z' then c as int - 'A' as int
    else if 'a' <= c <= 'z' then c as int - 'a' as int + 26
    else if '0' <= c <= '9' then c as int - '0' as int + 52
    else if c == '+' then 62
    else 63
  }

  /** Alphabet character of a 6-bit value (RFC 4648 table 1). */
  function CharOf(i: int): (c: char)
    requires 0 <= i < 64
    ensures IsAlphabetChar(c) && IndexOf(c) == i
  {
    if i < 26 then ('A' as int + i) as char
    else if i < 52 then ('a' as int + i - 26) as char
    else if i < 62 then ('0' as int + i - 52) as char
    else if i == 62 then '+'
    else '/'
  }

  /** The encoding without padding: 4 characters per 3 bytes, 2 or 3 for a
      trailing group of 1 or 2 bytes. */
  function EncodeUnpadded(s: Bytes): (r: string)
    ensures forall k :: 0 <= k < |r| ==> IsAlphabetChar(r[k])
  {
    if |s| == 0 then ""
    else if |s| == 1 then [CharOf(s[0] / 4), CharOf((s[0] % 4) * 16)]
    else if |s| == 2 then
      [CharOf(s[0] / 4), CharOf((s[0] % 4) * 16 + s[1] / 16), CharOf((s[1] % 16) * 4)]
    else
      [CharOf(s[0] / 4), CharOf((s[0] % 4) * 16 + s[1] / 16),
       CharOf((s[1] % 16) * 4 + s[2] / 64), CharOf(s[2] % 64)] + EncodeUnpadded(s[3..])
  }

  /** `=` characters that complete the last 4-character group. */
  function Padding(n: nat): (p: string)
    ensures forall k :: 0 <= k < |p| ==> p[k] == '='
  {
    if n % 3 == 1 then "==" else if n % 3 == 2 then "=" else ""
  }

  /** `base64_encode`. */
  function Encode(s: Bytes): string {
    EncodeUnpadded(s) + Padding(|s|)
  }

  /** Decoding of a string made of alphabet characters only. */
  function DecodeClean(s: string): Bytes
    requires forall k :: 0 <= k < |s| ==> IsAlphabetChar(s[k])
  {
    if |s| < 2 then []
    else
      var b0 := IndexOf(s[0]) * 4 + IndexOf(s[1]) / 16;
      if |s| == 2 then [b0]
      else
        var b1 := (IndexOf(s[1]) % 16) * 16 + IndexOf(s[2]) / 4;
        if |s| == 3 then [b0, b1]
        else [b0, b1, (IndexOf(s[2]) % 4) * 64 + IndexOf(s[3])] + DecodeClean(s[4..])
  }

  /** `base64_decode` in its default, non-strict mode: never fails. */
  function Decode(s: string): Bytes {
    DecodeClean(Query.Filter(s, IsAlphabetChar))
  }

  /** `Filter` drops a string none of whose characters are in the alphabet. */
  lemma {:induction false} FilterDropsNonAlphabet(pad: string)
    requires forall k :: 0 <= k < |pad| ==> !IsAlphabetChar(pad[k])
    ensures Query.Filter(pad, IsAlphabetChar) == []
  {
    if |pad| > 0 {
      FilterDropsNonAlphabet(pad[1..]);
    }
  }

  /** `Filter` keeps a string whose characters are all in the alphabet, and drops
      a tail none of whose characters are. */
  lemma {:induction false} FilterKeepsAlphabet(a: string, pad: string)
    requires forall k :: 0 <= k < |a| ==> IsAlphabetChar(a[k])
    requires forall k :: 0 <= k < |pad| ==> !IsAlphabetChar(pad[k])
    ensures Query.Filter(a + pad, IsAlphabetChar) == a
  {
    if |a| == 0 {
      assert a + pad == pad;
      FilterDropsNonAlphabet(pad);
    } else {
      var u := a + pad;
      assert u[0] == a[0] && u[1..] == a[1..] + pad;
      FilterKeepsAlphabet(a[1..], pad);
      assert Query.Filter(u, IsAlphabetChar) == [a[0]] + Query.Filter(u[1..], IsAlphabetChar);
      assert [a[0]] + a[1..] == a;
    }
  }

  /** The four characters of a full group decode back to its three bytes. */
  lemma DecodeGroup(s: Bytes)
    requires |s| >= 3
    ensures var e := EncodeUnpadded(s);
            && |e| >= 4
            && e[4..] == EncodeUnpadded(s[3..])
            && IndexOf(e[0]) * 4 + IndexOf(e[1]) / 16 == s[0]
            && (IndexOf(e[1]) % 16) * 16 + IndexOf(e[2]) / 4 == s[1]
            && (IndexOf(e[2]) % 4) * 64 + IndexOf(e[3]) == s[2]
  {
  }

  /** Decoding undoes encoding, one group of three bytes at a time. */
  lemma {:induction false} DecodeEncodeUnpadded(s: Bytes)
    ensures DecodeClean(EncodeUnpadded(s)) == s
  {
    if |s| >= 3 {
      DecodeGroup(s);
      DecodeEncodeUnpadded(s[3..]);
      assert [s[0], s[1], s[2]] + s[3..] == s;
    }
  }

  /** `base64_decode(base64_encode(s)) == s`. */
  lemma DecodeEncode(s: Bytes)
    ensures Decode(Encode(s)) == s
  {
    FilterKeepsAlphabet(EncodeUnpadded(s), Padding(|s|));
    DecodeEncodeUnpadded(s);
  }

  /** The decoder also accepts the encoding with its padding stripped. */
  lemma DecodeEncodeWithoutPadding(s: Bytes)
    ensures Decode(EncodeUnpadded(s)) == s
  {
    FilterKeepsAlphabet(EncodeUnpadded(s), "");
    assert EncodeUnpadded(s) + "" == EncodeUnpadded(s);
    DecodeEncodeUnpadded(s);
  }
}
