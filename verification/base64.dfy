/** The Base 64 encoding of section 4 of RFC 4648, with the padding of section 3.2, and the
    decoder that a JavaScript host exposes as `atob`.

    `atob` follows the "forgiving-base64 decode" algorithm: when the length is a multiple of
    four it drops one or two trailing '=' characters, it then rejects a length that leaves a
    remainder of 1 modulo 4 and any character outside the alphabet, and it decodes what is left,
    discarding the bits that do not fill a whole byte. `Decode` is that algorithm on inputs
    without whitespace (the host would first delete ASCII whitespace; this model does not). */
module Base64 {

  import opened Optional

  /** An 8-bit value, the element type of a `Uint8Array`. */
  type Byte = b: int | 0 <= b < 256

  /** A 6-bit value, the number one character of the alphabet carries. */
  type Sextet = v: int | 0 <= v < 64

  const PadChar: char := '='

  /** The 64 characters of Table 1 in section 4 of RFC 4648. */
  predicate IsAlphabetChar(c: char)
  {
    ('A' <= c <= 'Z') || ('a' <= c <= 'z') || ('0' <= c <= '9') || c == '+' || c == '/'
  }

  predicate AllAlphabet(s: string)
  {
    forall i :: 0 <= i < |s| ==> IsAlphabetChar(s[i])
  }

  /** The value Table 1 gives to an alphabet character. */
  function CharToSextet(c: char): (v: Sextet)
    requires IsAlphabetChar(c)
  {
    if 'A' <= c <= 'Z' then c as int - 'A' as int
    else if 'a' <= c <= 'z' then c as int - 'a' as int + 26
    else if '0' <= c <= '9' then c as int - '0' as int + 52
    else if c == '+' then 62
    else 63
  }

  /** The alphabet character Table 1 gives to a 6-bit value. */
  function SextetToChar(v: Sextet): (c: char)
    ensures IsAlphabetChar(c)
    ensures CharToSextet(c) == v
  {
    if v < 26 then ('A' as int + v) as char
    else if v < 52 then ('a' as int + (v - 26)) as char
    else if v < 62 then ('0' as int + (v - 52)) as char
    else if v == 62 then '+'
    else '/'
  }

  // ---------------------------------------------------------------------------------------
  // Encoding
  // ---------------------------------------------------------------------------------------

  /** The four characters of one full 24-bit input group. */
  function EncodeGroup(b0: Byte, b1: Byte, b2: Byte): (q: string)
    ensures |q| == 4 && AllAlphabet(q)
  {
    [SextetToChar(b0 / 4), SextetToChar((b0 % 4) * 16 + b1 / 16),
     SextetToChar((b1 % 16) * 4 + b2 / 64), SextetToChar(b2 % 64)]
  }

  /** The alphabet characters of the encoding, without the trailing padding: two characters for
      a final group of one byte, three for a final group of two bytes. */
  function EncodeUnpadded(data: seq<Byte>): (s: string)
    ensures AllAlphabet(s)
    decreases |data|
  {
    if |data| == 0 then ""
    else if |data| == 1 then
      [SextetToChar(data[0] / 4), SextetToChar((data[0] % 4) * 16)]
    else if |data| == 2 then
      [SextetToChar(data[0] / 4), SextetToChar((data[0] % 4) * 16 + data[1] / 16),
       SextetToChar((data[1] % 16) * 4)]
    else
      EncodeGroup(data[0], data[1], data[2]) + EncodeUnpadded(data[3..])
  }

  /** The '=' characters that complete the final quantum (section 3.2 of RFC 4648). */
  function Padding(n: nat): (p: string)
  {
    if n % 3 == 1 then "==" else if n % 3 == 2 then "=" else ""
  }

  /** The unpadded characters come in whole quanta of four, except for a final run of two
      (one byte left) or three (two bytes left), which the padding completes. */
  lemma {:induction false} UnpaddedQuanta(data: seq<Byte>)
    ensures |EncodeUnpadded(data)| % 4 != 1
    ensures (|EncodeUnpadded(data)| + |Padding(|data|)|) % 4 == 0
    decreases |data|
  {
    if |data| >= 3 {
      UnpaddedQuanta(data[3..]);
      var u, rest := EncodeUnpadded(data), EncodeUnpadded(data[3..]);
      var pad := |Padding(|data| - 3)|;
      assert |u| == |rest| + 4;
      assert |Padding(|data|)| == pad by {
        PaddingShift(|data|);
      }
      ShiftByQuantum(|rest|);
      ShiftByQuantum(|rest| + pad);
    }
  }

  /** Three more bytes leave the same final group, so the same padding. */
  lemma PaddingShift(n: nat)
    requires n >= 3
    ensures Padding(n) == Padding(n - 3)
  {
    assert n % 3 == (n - 3) % 3;
  }

  /** Base 64 encoding of `data`; the client's `readAsDataURL` produces this text. */
  function Encode(data: seq<Byte>): (s: string)
    ensures |s| % 4 == 0
  {
    UnpaddedQuanta(data);
    EncodeUnpadded(data) + Padding(|data|)
  }

  /** Three bytes become four characters: the unpadded text has ⌈4n/3⌉ characters. */
  lemma {:induction false} UnpaddedLength(data: seq<Byte>)
    ensures |EncodeUnpadded(data)| == (4 * |data| + 2) / 3
    decreases |data|
  {
    if |data| >= 3 {
      UnpaddedLength(data[3..]);
      var n := |data|;
      assert |EncodeUnpadded(data)| == |EncodeUnpadded(data[3..])| + 4;
      assert 4 * n + 2 == (4 * (n - 3) + 2) + 12;
    }
  }

  /** The encoding has 4·⌈n/3⌉ characters: one full quantum per started group of three bytes. */
  lemma EncodeLength(data: seq<Byte>)
    ensures |Encode(data)| == (|data| + 2) / 3 * 4
  {
    UnpaddedLength(data);
    var n := |data|;
    var q, r := n / 3, n % 3;
    assert n == 3 * q + r;
    if r == 0 {
      assert (4 * n + 2) / 3 == 4 * q && (n + 2) / 3 == q;
    } else if r == 1 {
      assert (4 * n + 2) / 3 == 4 * q + 2 && (n + 2) / 3 == q + 1;
    } else {
      assert (4 * n + 2) / 3 == 4 * q + 3 && (n + 2) / 3 == q + 1;
    }
  }

  // ---------------------------------------------------------------------------------------
  // Decoding (the host's atob)
  // ---------------------------------------------------------------------------------------

  /** Step 2 of forgiving-base64: a length that is a multiple of four loses one or two
      trailing '=' characters. */
  function StripPadding(s: string): (t: string)
    ensures t <= s && |s| - 2 <= |t|
  {
    if |s| % 4 == 0 && |s| >= 2 && s[|s| - 1] == PadChar && s[|s| - 2] == PadChar then s[..|s| - 2]
    else if |s| % 4 == 0 && |s| >= 1 && s[|s| - 1] == PadChar then s[..|s| - 1]
    else s
  }

  /** The three bytes of one full quantum of four characters. */
  function DecodeGroup(c0: char, c1: char, c2: char, c3: char): (r: seq<Byte>)
    requires IsAlphabetChar(c0) && IsAlphabetChar(c1) && IsAlphabetChar(c2) && IsAlphabetChar(c3)
    ensures |r| == 3
  {
    var v0, v1, v2, v3 := CharToSextet(c0), CharToSextet(c1), CharToSextet(c2), CharToSextet(c3);
    [v0 * 4 + v1 / 16, (v1 % 16) * 16 + v2 / 4, (v2 % 4) * 64 + v3]
  }

  /** The bytes carried by a run of alphabet characters; a trailing run of two (three)
      characters yields one (two) bytes and its leftover bits are discarded. */
  function DecodeBody(t: string): (r: seq<Byte>)
    requires AllAlphabet(t) && |t| % 4 != 1
    decreases |t|
  {
    if |t| == 0 then []
    else if |t| == 2 then
      var v0, v1 := CharToSextet(t[0]), CharToSextet(t[1]);
      [v0 * 4 + v1 / 16]
    else if |t| == 3 then
      var v0, v1, v2 := CharToSextet(t[0]), CharToSextet(t[1]), CharToSextet(t[2]);
      [v0 * 4 + v1 / 16, (v1 % 16) * 16 + v2 / 4]
    else
      DecodeGroup(t[0], t[1], t[2], t[3]) + DecodeBody(t[4..])
  }

  /** The host's `atob`, at the level of bytes: `None` is the thrown "invalid character" error. */
  function Decode(s: string): (r: Option<seq<Byte>>)
    ensures r.Some? ==> |s| % 4 != 1
  {
    var t := StripPadding(s);
    if |t| % 4 == 1 || !AllAlphabet(t) then None
    else Some(DecodeBody(t))
  }

  /** Every full quantum yields three bytes, a final run of two (three) characters one (two). */
  lemma {:induction false} DecodeBodyLength(t: string)
    requires AllAlphabet(t) && |t| % 4 != 1
    ensures |DecodeBody(t)| == |t| * 3 / 4
    decreases |t|
  {
    if |t| >= 4 {
      DecodeBodyLength(t[4..]);
      assert |t| * 3 == (|t| - 4) * 3 + 12;
    }
  }

  /** On success `atob` yields three bytes per four characters left after the padding goes. */
  lemma DecodeLength(s: string)
    requires Decode(s).Some?
    ensures |Decode(s).value| == |StripPadding(s)| * 3 / 4
  {
    DecodeBodyLength(StripPadding(s));
  }

  /** What step 2 removes is '=' characters only. */
  lemma StripPaddingRemovesPads(s: string)
    ensures forall i :: |StripPadding(s)| <= i < |s| ==> s[i] == PadChar
  {
  }

  /** A character that is neither in the alphabet nor '=' makes `atob` throw. */
  lemma ForeignCharacterRejected(s: string, i: nat)
    requires i < |s| && !IsAlphabetChar(s[i]) && s[i] != PadChar
    ensures Decode(s).None?
  {
    var t := StripPadding(s);
    StripPaddingRemovesPads(s);
    if i < |t| {
      assert t[i] == s[i];
    }
  }

  /** The "binary string" `atob` returns: one character per byte, whose code is the byte. */
  function BinaryString(bytes: seq<Byte>): (b: string)
    ensures |b| == |bytes|
    ensures forall j :: 0 <= j < |b| ==> b[j] as int == bytes[j]
  {
    seq(|bytes|, j requires 0 <= j < |bytes| => bytes[j] as char)
  }

  /** The host's `atob`: the decoded bytes as a binary string, or `None` when it throws. */
  function Atob(s: string): (r: Option<string>)
    ensures r.Some? <==> Decode(s).Some?
    ensures r.Some? ==> forall j :: 0 <= j < |r.value| ==> r.value[j] as int < 256
  {
    match Decode(s)
    case None => None
    case Some(bytes) => Some(BinaryString(bytes))
  }

  // ---------------------------------------------------------------------------------------
  // Round trips
  // ---------------------------------------------------------------------------------------

  /** One full group decodes back to the three bytes it was encoded from. */
  lemma GroupRoundTrip(b0: Byte, b1: Byte, b2: Byte)
    ensures var q := EncodeGroup(b0, b1, b2); DecodeGroup(q[0], q[1], q[2], q[3]) == [b0, b1, b2]
  {
    var v0, v1, v2, v3 := b0 / 4, (b0 % 4) * 16 + b1 / 16, (b1 % 16) * 4 + b2 / 64, b2 % 64;
    assert v1 / 16 == b0 % 4;
    assert v1 % 16 == b1 / 16;
    assert v2 / 4 == b1 % 16;
    assert v2 % 4 == b2 / 64;
    assert v0 * 4 + v1 / 16 == b0;
    assert (v1 % 16) * 16 + v2 / 4 == b1;
    assert (v2 % 4) * 64 + v3 == b2;
  }

  /** Decoding the unpadded encoding gives back the bytes. */
  lemma {:induction false} DecodeBodyOfEncodeUnpadded(data: seq<Byte>)
    ensures |EncodeUnpadded(data)| % 4 != 1
    ensures DecodeBody(EncodeUnpadded(data)) == data
    decreases |data|
  {
    UnpaddedQuanta(data);
    if |data| == 1 {
      ShortRoundTrip1(data[0]);
      assert data == [data[0]];
    } else if |data| == 2 {
      ShortRoundTrip2(data[0], data[1]);
      assert data == [data[0], data[1]];
    } else if |data| >= 3 {
      DecodeBodyOfEncodeUnpadded(data[3..]);
      GroupThenRest(data);
    }
  }

  /** The step of `DecodeBodyOfEncodeUnpadded`: a full group in front of the rest. */
  lemma GroupThenRest(data: seq<Byte>)
    requires |data| >= 3
    requires |EncodeUnpadded(data[3..])| % 4 != 1
    requires DecodeBody(EncodeUnpadded(data[3..])) == data[3..]
    ensures |EncodeUnpadded(data)| % 4 != 1
    ensures DecodeBody(EncodeUnpadded(data)) == data
  {
    var q := EncodeGroup(data[0], data[1], data[2]);
    var rest := EncodeUnpadded(data[3..]);
    assert EncodeUnpadded(data) == q + rest;
    DecodeBodyGroupFirst(q, rest);
    GroupRoundTrip(data[0], data[1], data[2]);
    assert data == [data[0], data[1], data[2]] + data[3..];
  }

  /** A quantum of four alphabet characters in front of a body decodes to its group first. */
  lemma DecodeBodyGroupFirst(q: string, rest: string)
    requires |q| == 4 && AllAlphabet(q)
    requires AllAlphabet(rest) && |rest| % 4 != 1
    ensures AllAlphabet(q + rest) && |q + rest| % 4 != 1
    ensures DecodeBody(q + rest) == DecodeGroup(q[0], q[1], q[2], q[3]) + DecodeBody(rest)
  {
    var u := q + rest;
    AllAlphabetAppend(q, rest);
    assert |u| == |rest| + 4;
    ShiftByQuantum(|rest|);
    assert u[4..] == rest;
    assert u[0] == q[0] && u[1] == q[1] && u[2] == q[2] && u[3] == q[3];
    DecodeBodyUnfold(u);
  }

  /** A quantum of four alphabet characters in front of a body decodes on its own. */
  lemma DecodeBodyQuantumFirst(q: string, rest: string)
    requires |q| == 4 && AllAlphabet(q)
    requires AllAlphabet(rest) && |rest| % 4 != 1
    ensures AllAlphabet(q + rest) && |q + rest| % 4 != 1
    ensures DecodeBody(q + rest) == DecodeBody(q) + DecodeBody(rest)
  {
    DecodeBodyGroupFirst(q, rest);
    assert q[4..] == "";
    DecodeBodyUnfold(q);
  }

  /** A final group of one byte: two characters that decode back to it. */
  lemma ShortRoundTrip1(b0: Byte)
    ensures DecodeBody(EncodeUnpadded([b0])) == [b0]
  {
    var v0, v1 := b0 / 4, (b0 % 4) * 16;
    assert v0 * 4 + v1 / 16 == b0;
  }

  /** A final group of two bytes: three characters that decode back to them. */
  lemma ShortRoundTrip2(b0: Byte, b1: Byte)
    ensures DecodeBody(EncodeUnpadded([b0, b1])) == [b0, b1]
  {
    var v0, v1, v2 := b0 / 4, (b0 % 4) * 16 + b1 / 16, (b1 % 16) * 4;
    assert v1 / 16 == b0 % 4;
    assert v1 % 16 == b1 / 16;
    assert v2 / 4 == b1 % 16;
    assert v0 * 4 + v1 / 16 == b0;
    assert (v1 % 16) * 16 + v2 / 4 == b1;
  }

  /** The padding added by `Encode` is exactly what step 2 of `atob` removes. */
  lemma StripPaddingOfEncode(data: seq<Byte>)
    ensures StripPadding(Encode(data)) == EncodeUnpadded(data)
  {
    var u := EncodeUnpadded(data);
    var s := Encode(data);
    if |data| % 3 == 0 {
      assert s == u;
      if |u| > 0 {
        assert IsAlphabetChar(u[|u| - 1]);
      }
    } else if |data| % 3 == 1 {
      assert s[..|s| - 2] == u;
    } else {
      assert s[|s| - 2] == u[|u| - 1];
      assert IsAlphabetChar(u[|u| - 1]);
      assert s[..|s| - 1] == u;
    }
  }

  /** Encode-then-decode is the identity for every byte sequence. */
  lemma DecodeEncode(data: seq<Byte>)
    ensures Decode(Encode(data)) == Some(data)
  {
    StripPaddingOfEncode(data);
    DecodeBodyOfEncodeUnpadded(data);
  }

  // ---------------------------------------------------------------------------------------
  // Decoding a concatenation
  // ---------------------------------------------------------------------------------------

  /** Full quanta in front of a body decode on their own: the bytes of `a + b` are the bytes
      of `a` followed by the bytes of `b`. */
  lemma {:induction false} DecodeBodyAppend(a: string, b: string)
    requires AllAlphabet(a) && |a| % 4 == 0
    requires AllAlphabet(b) && |b| % 4 != 1
    ensures AllAlphabet(a + b) && |a + b| % 4 != 1
    ensures DecodeBody(a + b) == DecodeBody(a) + DecodeBody(b)
    decreases |a|
  {
    if |a| == 0 {
      assert a + b == b;
    } else {
      var q, a' := a[..4], a[4..];
      SplitQuantum(a);
      DecodeBodyAppend(a', b);
      var g, rest, tail := DecodeBody(q), DecodeBody(a'), DecodeBody(b);
      assert DecodeBody(a) == g + rest by {
        DecodeBodyQuantumFirst(q, a');
      }
      assert AllAlphabet(a + b) && |a + b| % 4 != 1 && DecodeBody(a + b) == g + (rest + tail) by {
        assert a + b == q + (a' + b);
        DecodeBodyQuantumFirst(q, a' + b);
      }
      AppendAssociative(g, rest, tail);
    }
  }

  /** Concatenation is associative. */
  lemma AppendAssociative<T>(x: seq<T>, y: seq<T>, z: seq<T>)
    ensures x + (y + z) == (x + y) + z
  {
  }

  /** The first quantum of a run of full quanta, and the full quanta after it. */
  lemma SplitQuantum(a: string)
    requires AllAlphabet(a) && |a| % 4 == 0 && |a| >= 4
    ensures a == a[..4] + a[4..]
    ensures AllAlphabet(a[..4]) && AllAlphabet(a[4..]) && |a[4..]| % 4 == 0
  {
    assert a == a[..4] + a[4..];
    AllAlphabetAppend(a[..4], a[4..]);
  }

  /** Adding a full quantum of four characters keeps the length's remainder modulo 4. */
  lemma ShiftByQuantum(n: nat)
    ensures (n + 4) % 4 == n % 4
  {
  }

  /** Adding whole quanta keeps the length's remainder modulo 4. */
  lemma ShiftByQuanta(m: nat, n: nat)
    requires m % 4 == 0
    ensures (m + n) % 4 == n % 4
  {
    assert m == 4 * (m / 4);
  }

  /** A body of at least one full quantum decodes its first quantum, then the rest. */
  lemma DecodeBodyUnfold(t: string)
    requires AllAlphabet(t) && |t| % 4 != 1 && |t| >= 4
    ensures DecodeBody(t) == DecodeGroup(t[0], t[1], t[2], t[3]) + DecodeBody(t[4..])
  {
  }

  /** A concatenation is all alphabet exactly when both parts are. */
  lemma AllAlphabetAppend(a: string, b: string)
    ensures AllAlphabet(a + b) <==> AllAlphabet(a) && AllAlphabet(b)
  {
    var ab := a + b;
    if AllAlphabet(ab) {
      forall i | 0 <= i < |a|
        ensures IsAlphabetChar(a[i])
      {
        assert a[i] == ab[i];
      }
      forall i | 0 <= i < |b|
        ensures IsAlphabetChar(b[i])
      {
        assert b[i] == ab[|a| + i];
      }
    }
  }

  /** Step 2 of `atob` only looks at the end of the string, so full quanta of alphabet
      characters in front are left alone. */
  lemma StripPaddingAppend(a: string, b: string)
    requires AllAlphabet(a) && |a| % 4 == 0
    ensures StripPadding(a + b) == a + StripPadding(b)
  {
    var ab := a + b;
    ShiftByQuanta(|a|, |b|);
    if |b| == 0 {
      assert ab == a;
      if |a| > 0 {
        assert IsAlphabetChar(a[|a| - 1]);
      }
    } else if |b| == 1 {
      assert |ab| % 4 == 1;
    } else {
      assert ab[|ab| - 1] == b[|b| - 1];
      assert ab[|ab| - 2] == b[|b| - 2];
      assert ab[..|ab| - 2] == a + b[..|b| - 2];
      assert ab[..|ab| - 1] == a + b[..|b| - 1];
    }
  }

  /** Full quanta of alphabet characters alone decode without any padding step. */
  lemma DecodeCleanQuanta(a: string)
    requires AllAlphabet(a) && |a| % 4 == 0
    ensures Decode(a) == Some(DecodeBody(a))
  {
    if |a| > 0 {
      assert IsAlphabetChar(a[|a| - 1]);
    }
    assert StripPadding(a) == a;
  }

  /** `atob` of a string that starts with full quanta of alphabet characters fails exactly when
      `atob` of the rest fails, and otherwise puts the bytes of the quanta in front. */
  lemma DecodeAppend(a: string, b: string)
    requires AllAlphabet(a) && |a| % 4 == 0
    ensures Decode(a + b).None? <==> Decode(b).None?
    ensures Decode(b).Some? ==> Decode(a + b) == Some(DecodeBody(a) + Decode(b).value)
  {
    var t, tb := StripPadding(a + b), StripPadding(b);
    StripPaddingAppend(a, b);
    assert t == a + tb;
    assert |t| % 4 == |tb| % 4 by {
      ShiftByQuanta(|a|, |tb|);
    }
    assert AllAlphabet(t) <==> AllAlphabet(tb) by {
      AllAlphabetAppend(a, tb);
    }
    if |tb| % 4 != 1 && AllAlphabet(tb) {
      DecodeBodyAppend(a, tb);
    }
  }
}
