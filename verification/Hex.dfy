/** Hexadecimal text: encoding in lower case, decoding in either case, trimming of white space. */
module Hex {
  import opened Wrappers
  import opened Bsv

  function Digit(n: nat): (c: char)
    requires n < 16
  {
    "0123456789abcdef"[n]
  }

  function DigitValue(c: char): (n: Option<nat>)
    ensures n.Some? ==> n.value < 16
  {
    if '0' <= c <= '9' then Some((c - '0') as nat)
    else if 'a' <= c <= 'f' then Some((c - 'a') as nat + 10)
    else if 'A' <= c <= 'F' then Some((c - 'A') as nat + 10)
    else None
  }

  function Lower(c: char): char {
    if 'A' <= c <= 'Z' then 'a' + (c - 'A') else c
  }

  function Lowered(s: string): string {
    seq(|s|, i requires 0 <= i < |s| => Lower(s[i]))
  }

  function EncodeByte(b: byte): (s: string)
    ensures |s| == 2
  {
    [Digit(b as nat / 16), Digit(b as nat % 16)]
  }

  /** `hex::encode`. */
  function Encode(bytes: Bytes): (s: string)
    ensures |s| == 2 * |bytes|
  {
    if bytes == [] then "" else EncodeByte(bytes[0]) + Encode(bytes[1..])
  }

  /** `hex::decode`: nothing for odd lengths and foreign characters. */
  function Decode(s: string): (r: Option<Bytes>)
    ensures r.Some? ==> |s| == 2 * |r.value|
    decreases |s|
  {
    if s == "" then Some([])
    else if |s| == 1 then None
    else
      match (DigitValue(s[0]), DigitValue(s[1]), Decode(s[2..]))
      case (Some(high), Some(low), Some(rest)) => Some([(16 * high + low) as byte] + rest)
      case _ => None
  }

  /** Unicode White_Space, which `str::trim` strips. */
  predicate IsWhitespace(c: char) {
    || '\U{0009}' <= c <= '\U{000D}' || c == '\U{0020}' || c == '\U{0085}' || c == '\U{00A0}' || c == '\U{1680}'
    || '\U{2000}' <= c <= '\U{200A}' || c == '\U{2028}' || c == '\U{2029}' || c == '\U{202F}' || c == '\U{205F}'
    || c == '\U{3000}'
  }

  function TrimStart(s: string): string {
    if s != "" && IsWhitespace(s[0]) then TrimStart(s[1..]) else s
  }

  function TrimEnd(s: string): string {
    if s != "" && IsWhitespace(s[|s| - 1]) then TrimEnd(s[..|s| - 1]) else s
  }

  function Trim(s: string): string {
    TrimEnd(TrimStart(s))
  }

  lemma DigitRoundTrip(n: nat)
    requires n < 16
    ensures DigitValue(Digit(n)) == Some(n) && !IsWhitespace(Digit(n))
  {
  }

  // ---------------------------------------------------------------- the coding spelled out

  /** A digit of either case decodes to its place in the list of digits, and nothing else decodes. */
  lemma DigitValueIff(c: char, n: nat)
    requires n < 16
    ensures DigitValue(c) == Some(n) <==> c == "0123456789abcdef"[n] || c == "0123456789ABCDEF"[n]
  {
  }

  /** Encoding puts the two digits of byte `i`, high one first, at position `2 * i`. */
  lemma {:induction false} EncodeAt(bytes: Bytes, i: nat)
    requires i < |bytes|
    ensures Encode(bytes)[2 * i] == "0123456789abcdef"[bytes[i] as nat / 16]
    ensures Encode(bytes)[2 * i + 1] == "0123456789abcdef"[bytes[i] as nat % 16]
  {
    assert Encode(bytes) == EncodeByte(bytes[0]) + Encode(bytes[1..]);
    if i > 0 {
      EncodeAt(bytes[1..], i - 1);
    }
  }

  /** The digits of byte `i`, in either case. */
  predicate SpellsByte(s: string, i: nat, b: byte)
    requires 2 * i + 1 < |s|
  {
    DigitValue(s[2 * i]) == Some(b as nat / 16) && DigitValue(s[2 * i + 1]) == Some(b as nat % 16)
  }

  /** Text decodes to given bytes exactly when it has two digits for each, in order. */
  lemma {:induction false} DecodeIff(s: string, bytes: Bytes)
    ensures Decode(s) == Some(bytes) <==>
              |s| == 2 * |bytes| && forall i :: 0 <= i < |bytes| ==> SpellsByte(s, i, bytes[i])
    decreases |s|
  {
    if |s| == 2 * |bytes| && bytes != [] {
      DecodeIff(s[2..], bytes[1..]);
      SpellsTail(s, bytes);
      DecodeFirst(s, bytes);
    }
  }

  lemma SpellsTail(s: string, bytes: Bytes)
    requires bytes != [] && |s| == 2 * |bytes|
    ensures (forall i :: 0 <= i < |bytes| ==> SpellsByte(s, i, bytes[i])) <==>
              && SpellsByte(s, 0, bytes[0])
              && forall i :: 0 <= i < |bytes[1..]| ==> SpellsByte(s[2..], i, bytes[1..][i])
  {
    if SpellsByte(s, 0, bytes[0]) && forall i :: 0 <= i < |bytes[1..]| ==> SpellsByte(s[2..], i, bytes[1..][i]) {
      forall i | 0 <= i < |bytes| ensures SpellsByte(s, i, bytes[i]) {
        if i > 0 {
          assert SpellsByte(s[2..], i - 1, bytes[1..][i - 1]);
        }
      }
    }
    if forall i :: 0 <= i < |bytes| ==> SpellsByte(s, i, bytes[i]) {
      forall i | 0 <= i < |bytes[1..]| ensures SpellsByte(s[2..], i, bytes[1..][i]) {
        assert SpellsByte(s, i + 1, bytes[i + 1]);
      }
    }
  }

  lemma DecodeFirst(s: string, bytes: Bytes)
    requires bytes != [] && |s| == 2 * |bytes|
    ensures Decode(s) == Some(bytes) <==> SpellsByte(s, 0, bytes[0]) && Decode(s[2..]) == Some(bytes[1..])
  {
    if SpellsByte(s, 0, bytes[0]) && Decode(s[2..]) == Some(bytes[1..]) {
      DecodePair(s, bytes[0] as nat / 16, bytes[0] as nat % 16, bytes[1..]);
      assert [bytes[0]] + bytes[1..] == bytes;
    }
    if Decode(s) == Some(bytes) {
      var high, low := DigitValue(s[0]).value, DigitValue(s[1]).value;
      DecodePair(s, high, low, Decode(s[2..]).value);
      assert bytes[1..] == Decode(s[2..]).value;
    }
  }

  predicate AllWhitespace(s: string) {
    forall i :: 0 <= i < |s| ==> IsWhitespace(s[i])
  }

  /** The 25 characters of the Unicode property White_Space, and no others. */
  lemma WhitespaceIff(c: char)
    ensures IsWhitespace(c) <==>
              || c in "\t\n\U{000B}\U{000C}\r "
              || c in "\U{0085}\U{00A0}\U{1680}\U{2028}\U{2029}\U{202F}\U{205F}\U{3000}"
              || c in "\U{2000}\U{2001}\U{2002}\U{2003}\U{2004}\U{2005}\U{2006}\U{2007}\U{2008}\U{2009}\U{200A}"
  {
  }

  /** Trimming takes exactly the white space off both ends. */
  lemma TrimIff(before: string, core: string, after: string)
    requires AllWhitespace(before) && AllWhitespace(after)
    requires core == "" || (!IsWhitespace(core[0]) && !IsWhitespace(core[|core| - 1]))
    ensures Trim(before + core + after) == core
  {
    assert before + core + after == before + (core + after);
    TrimStartOf(before, core + after);
    if core == "" {
      assert core + after == after + "";
      TrimStartOf(after, "");
    } else {
      TrimEndOf(core, after);
    }
  }

  lemma {:induction false} TrimStartOf(before: string, rest: string)
    requires AllWhitespace(before)
    ensures TrimStart(before + rest) == TrimStart(rest)
  {
    if before == "" {
      assert before + rest == rest;
    } else {
      assert (before + rest)[1..] == before[1..] + rest;
      TrimStartOf(before[1..], rest);
    }
  }

  lemma {:induction false} TrimEndOf(core: string, after: string)
    requires AllWhitespace(after) && core != "" && !IsWhitespace(core[|core| - 1])
    ensures TrimEnd(core + after) == core
    decreases |after|
  {
    if after == "" {
      assert core + after == core;
    } else {
      var n := |after| - 1;
      assert (core + after)[..|core + after| - 1] == core + after[..n];
      TrimEndOf(core, after[..n]);
    }
  }

  // ---------------------------------------------------------------- round trips

  lemma DecodePair(s: string, high: nat, low: nat, rest: Bytes)
    requires |s| >= 2 && DigitValue(s[0]) == Some(high) && DigitValue(s[1]) == Some(low) && Decode(s[2..]) == Some(rest)
    ensures high < 16 && low < 16 && Decode(s) == Some([(16 * high + low) as byte] + rest)
  {
  }

  /** Decoding undoes encoding. */
  lemma {:induction false} DecodeEncode(bytes: Bytes)
    ensures Decode(Encode(bytes)) == Some(bytes)
  {
    if bytes != [] {
      var b, s := bytes[0], Encode(bytes);
      var high, low := b as nat / 16, b as nat % 16;
      DecodeEncode(bytes[1..]);
      assert s[2..] == Encode(bytes[1..]);
      assert DigitValue(s[0]) == Some(high) && DigitValue(s[1]) == Some(low) by {
        DigitRoundTrip(high);
        DigitRoundTrip(low);
      }
      DecodePair(s, high, low, bytes[1..]);
      assert (16 * high + low) as byte == b && [b] + bytes[1..] == bytes;
    }
  }

  /** Whatever decodes is, up to case, the encoding of the result. */
  lemma {:induction false} EncodeDecode(s: string)
    requires Decode(s).Some?
    ensures Encode(Decode(s).value) == Lowered(s)
    decreases |s|
  {
    if s != "" {
      var bytes := Decode(s).value;
      var high, low := DigitValue(s[0]).value, DigitValue(s[1]).value;
      DigitOfValue(s[0]);
      DigitOfValue(s[1]);
      assert bytes[0] as nat / 16 == high && bytes[0] as nat % 16 == low;
      assert bytes[1..] == Decode(s[2..]).value;
      EncodeDecode(s[2..]);
      assert Lowered(s) == [Lower(s[0]), Lower(s[1])] + Lowered(s[2..]);
    }
  }

  lemma DigitOfValue(c: char)
    requires DigitValue(c).Some?
    ensures Digit(DigitValue(c).value) == Lower(c)
  {
  }

  /** Encoded text has no white space to trim. */
  lemma TrimEncoded(bytes: Bytes)
    ensures Trim(Encode(bytes)) == Encode(bytes)
  {
    if bytes != [] {
      EncodedEnds(bytes);
    }
  }

  lemma {:induction false} EncodedEnds(bytes: Bytes)
    requires bytes != []
    ensures var s := Encode(bytes);
            !IsWhitespace(s[0]) && !IsWhitespace(s[|s| - 1])
  {
    DigitRoundTrip(bytes[0] as nat / 16);
    DigitRoundTrip(bytes[0] as nat % 16);
    if |bytes| > 1 {
      EncodedEnds(bytes[1..]);
    }
  }
}
