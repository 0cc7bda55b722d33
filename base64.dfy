/**
 * The base64 encoding of section 4 of RFC 4648, as `Buffer.toString("base64")`
 * produces it and `Buffer.from(data, "base64")` reads it back.
 */
module Base64 {
  import opened Common

  /** A 6-bit group: the value one encoded character stands for. */
  type sextet = x: int | 0 <= x < 64

  const PAD: char := '='

  /** Table 1 of RFC 4648: the character that encodes a 6-bit group. */
  function Char(v: sextet): (c: char)
    ensures IsAlphabet(c)
  {
    if v < 26 then ('A' as int + v) as char
    else if v < 52 then ('a' as int + v - 26) as char
    else if v < 62 then ('0' as int + v - 52) as char
    else if v == 62 then '+'
    else '/'
  }

  predicate IsAlphabet(c: char)
  {
    'A' <= c <= 'Z' || 'a' <= c <= 'z' || '0' <= c <= '9' || c == '+' || c == '/'
  }

  /** Table 1 read backwards. */
  function Value(c: char): (v: sextet)
    requires IsAlphabet(c)
    ensures Char(v) == c
  {
    if 'A' <= c <= 'Z' then c as int - 'A' as int
    else if 'a' <= c <= 'z' then c as int - 'a' as int + 26
    else if '0' <= c <= '9' then c as int - '0' as int + 52
    else if c == '+' then 62
    else 63
  }

  /** The four characters of one full 24-bit group. */
  function Quantum(b0: byte, b1: byte, b2: byte): (q: string)
    ensures |q| == 4 && IsAlphabet(q[0]) && IsAlphabet(q[1]) && IsAlphabet(q[2]) && IsAlphabet(q[3])
  {
    [Char(b0 / 4), Char(b0 % 4 * 16 + b1 / 16), Char(b1 % 16 * 4 + b2 / 64), Char(b2 % 64)]
  }

  /**
   * Every 24-bit group becomes four characters; a final group of one or two
   * octets is padded with "==" or "=" (section 4 of RFC 4648).
   */
  function Encode(b: seq<byte>): string
    decreases |b|
  {
    if |b| == 0 then ""
    else if |b| == 1 then
      [Char(b[0] / 4), Char(b[0] % 4 * 16), PAD, PAD]
    else if |b| == 2 then
      [Char(b[0] / 4), Char(b[0] % 4 * 16 + b[1] / 16), Char(b[1] % 16 * 4), PAD]
    else Quantum(b[0], b[1], b[2]) + Encode(b[3..])
  }

  /** One more group of three octets adds one to the number of started groups. */
  lemma DivideAfterGroup(n: nat)
    ensures (n + 3 + 2) / 3 == (n + 2) / 3 + 1
  {
  }

  /** The encoding of n octets has 4 characters per started group of 3. */
  lemma {:induction false} EncodeLength(b: seq<byte>)
    ensures |Encode(b)| == 4 * ((|b| + 2) / 3)
    decreases |b|
  {
    if |b| > 3 {
      EncodeLength(b[3..]);
      DivideAfterGroup(|b[3..]|);
    }
  }

  /** Every character of an encoding is in the alphabet or is padding. */
  lemma {:induction false} EncodeAlphabet(b: seq<byte>)
    ensures forall i :: 0 <= i < |Encode(b)| ==> IsAlphabet(Encode(b)[i]) || Encode(b)[i] == PAD
    decreases |b|
  {
    if |b| > 3 {
      EncodeAlphabet(b[3..]);
      var q, t := Quantum(b[0], b[1], b[2]), Encode(b[3..]);
      assert Encode(b) == q + t;
      forall i | 0 <= i < |Encode(b)|
        ensures IsAlphabet(Encode(b)[i]) || Encode(b)[i] == PAD
      {
        if i >= 4 {
          assert Encode(b)[i] == t[i - 4];
        }
      }
    }
  }

  /** Four alphabet characters give back three octets. */
  function DecodeQuantum(q: string): Option<seq<byte>>
    requires |q| == 4
  {
    if IsAlphabet(q[0]) && IsAlphabet(q[1]) && IsAlphabet(q[2]) && IsAlphabet(q[3]) then
      var v0, v1, v2, v3 := Value(q[0]), Value(q[1]), Value(q[2]), Value(q[3]);
      Some([v0 * 4 + v1 / 16, v1 % 16 * 16 + v2 / 4, v2 % 4 * 64 + v3])
    else None
  }

  /** The last quantum may end in padding and then gives back one or two octets. */
  function DecodeFinal(q: string): Option<seq<byte>>
    requires |q| == 4
  {
    if IsAlphabet(q[0]) && IsAlphabet(q[1]) && q[2] == PAD && q[3] == PAD then
      Some([Value(q[0]) * 4 + Value(q[1]) / 16])
    else if IsAlphabet(q[0]) && IsAlphabet(q[1]) && IsAlphabet(q[2]) && q[3] == PAD then
      var v0, v1, v2 := Value(q[0]), Value(q[1]), Value(q[2]);
      Some([v0 * 4 + v1 / 16, v1 % 16 * 16 + v2 / 4])
    else DecodeQuantum(q)
  }

  /** None for text that is not well-formed base64. */
  function Decode(s: string): (r: Option<seq<byte>>)
    ensures r.Some? ==> |s| % 4 == 0
    decreases |s|
  {
    if |s| == 0 then Some([])
    else if |s| < 4 then None
    else if |s| == 4 then DecodeFinal(s)
    else match DecodeQuantum(s[..4])
      case None => None
      case Some(head) =>
        match Decode(s[4..])
        case None => None
        case Some(tail) => Some(head + tail)
  }

  lemma CharValue(v: sextet)
    ensures Value(Char(v)) == v
  {
  }

  /** The arithmetic of one full 24-bit group, there and back. */
  lemma QuantumRoundTrip(b0: byte, b1: byte, b2: byte)
    ensures b0 / 4 * 4 + (b0 % 4 * 16 + b1 / 16) / 16 == b0
    ensures (b0 % 4 * 16 + b1 / 16) % 16 * 16 + (b1 % 16 * 4 + b2 / 64) / 4 == b1
    ensures (b1 % 16 * 4 + b2 / 64) % 4 * 64 + b2 % 64 == b2
  {
  }

  /** One octet, padded with "==", decodes back to itself. */
  lemma DecodeOne(b0: byte)
    ensures DecodeFinal([Char(b0 / 4), Char(b0 % 4 * 16), PAD, PAD]) == Some([b0])
  {
    CharValue(b0 / 4);
    CharValue(b0 % 4 * 16);
  }

  /** Two octets, padded with "=", decode back to themselves. */
  lemma DecodeTwo(b0: byte, b1: byte)
    ensures DecodeFinal([Char(b0 / 4), Char(b0 % 4 * 16 + b1 / 16), Char(b1 % 16 * 4), PAD]) == Some([b0, b1])
  {
    CharValue(b0 / 4);
    CharValue(b0 % 4 * 16 + b1 / 16);
    CharValue(b1 % 16 * 4);
    QuantumRoundTrip(b0, b1, 0);
  }

  /** Three octets decode back to themselves. */
  lemma DecodeThree(b0: byte, b1: byte, b2: byte)
    ensures DecodeQuantum(Quantum(b0, b1, b2)) == Some([b0, b1, b2])
  {
    CharValue(b0 / 4);
    CharValue(b0 % 4 * 16 + b1 / 16);
    CharValue(b1 % 16 * 4 + b2 / 64);
    CharValue(b2 % 64);
    QuantumRoundTrip(b0, b1, b2);
  }

  /** A last quantum without padding decodes like any other. */
  lemma FinalOfFull(q: string)
    requires |q| == 4 && IsAlphabet(q[2]) && IsAlphabet(q[3])
    ensures DecodeFinal(q) == DecodeQuantum(q)
  {
  }

  /** Decoding a full quantum followed by more text. */
  lemma {:induction false} DecodeAppend(q: string, t: string, head: seq<byte>, tail: seq<byte>)
    requires |q| == 4 && t != []
    requires DecodeQuantum(q) == Some(head) && Decode(t) == Some(tail)
    ensures Decode(q + t) == Some(head + tail)
  {
    var s := q + t;
    assert s[..4] == q && s[4..] == t;
  }

  lemma {:induction false} DecodeEncodeOne(b: seq<byte>)
    requires |b| == 1
    ensures Decode(Encode(b)) == Some(b)
  {
    DecodeOne(b[0]);
    assert Encode(b) == [Char(b[0] / 4), Char(b[0] % 4 * 16), PAD, PAD];
    assert b == [b[0]];
  }

  lemma {:induction false} DecodeEncodeTwo(b: seq<byte>)
    requires |b| == 2
    ensures Decode(Encode(b)) == Some(b)
  {
    DecodeTwo(b[0], b[1]);
    assert Encode(b) == [Char(b[0] / 4), Char(b[0] % 4 * 16 + b[1] / 16), Char(b[1] % 16 * 4), PAD];
    assert b == [b[0], b[1]];
  }

  lemma {:induction false} DecodeEncodeThree(b: seq<byte>)
    requires |b| == 3
    ensures Decode(Encode(b)) == Some(b)
  {
    var q := Quantum(b[0], b[1], b[2]);
    assert Encode(b) == q;
    assert Decode(q) == DecodeQuantum(q) by {
      FinalOfFull(q);
    }
    assert DecodeQuantum(q) == Some([b[0], b[1], b[2]]) by {
      DecodeThree(b[0], b[1], b[2]);
    }
    assert Decode(Encode(b)) == Some([b[0], b[1], b[2]]);
    GroupOfThree(b);
  }

  /** The first three octets of a longer string encode as one full quantum in front of the rest. */
  lemma {:induction false} EncodeUnfold(b: seq<byte>)
    requires |b| > 3
    ensures Encode(b) == Quantum(b[0], b[1], b[2]) + Encode(b[3..])
    ensures Encode(b[3..]) != []
  {
  }

  /** One step of the induction: a full quantum in front of text that round-trips. */
  lemma {:induction false} DecodeEncodeStep(b0: byte, b1: byte, b2: byte, t: string, rest: seq<byte>)
    requires t != [] && Decode(t) == Some(rest)
    ensures Decode(Quantum(b0, b1, b2) + t) == Some([b0, b1, b2] + rest)
  {
    DecodeThree(b0, b1, b2);
    DecodeAppend(Quantum(b0, b1, b2), t, [b0, b1, b2], rest);
  }

  lemma GroupOfThree(b: seq<byte>)
    requires |b| == 3
    ensures b == [b[0], b[1], b[2]]
  {
  }

  lemma SplitGroup(b: seq<byte>)
    requires |b| >= 3
    ensures b == [b[0], b[1], b[2]] + b[3..]
  {
  }

  /** Decoding undoes encoding, for every octet string. */
  lemma {:induction false} DecodeEncode(b: seq<byte>)
    ensures Decode(Encode(b)) == Some(b)
    decreases |b|
  {
    if |b| == 1 {
      DecodeEncodeOne(b);
    } else if |b| == 2 {
      DecodeEncodeTwo(b);
    } else if |b| == 3 {
      DecodeEncodeThree(b);
    } else if |b| > 3 {
      DecodeEncode(b[3..]);
      EncodeUnfold(b);
      DecodeEncodeStep(b[0], b[1], b[2], Encode(b[3..]), b[3..]);
      SplitGroup(b);
    }
  }
}
