/** base64.urlsafe_b64encode: the "base64url" encoding of section 5 of RFC 4648, with '='
    padding, producing ASCII bytes. Decode is its left inverse; it exists here to prove that
    the encoding loses nothing, so that distinct key material gives distinct Fernet keys. */
module Base64Url {
  import opened Bytes
  import opened Outcomes

  /** ASCII code of '=' */
  const PAD: byte := 61

  /** The alphabet of section 5 of RFC 4648: A-Z, a-z, 0-9, '-', '_'. */
  function Digit(x: int): (c: byte)
    requires 0 <= x < 64
  {
    if x < 26 then 65 + x
    else if x < 52 then 97 + (x - 26)
    else if x < 62 then 48 + (x - 52)
    else if x == 62 then 45
    else 95
  }

  /** The 6-bit value an alphabet character stands for. */
  function Value(c: byte): (r: Option<int>)
    ensures r.Some? ==> 0 <= r.value < 64 && Digit(r.value) == c
    ensures c == PAD ==> r.None?
  {
    if 65 <= c <= 90 then Some(c - 65)
    else if 97 <= c <= 122 then Some(c - 71)
    else if 48 <= c <= 57 then Some(c + 4)
    else if c == 45 then Some(62)
    else if c == 95 then Some(63)
    else None
  }

  lemma ValueOfDigit(x: int)
    requires 0 <= x < 64
    ensures Value(Digit(x)) == Some(x)
  {
  }

  predicate InAlphabet(c: byte)
  {
    Value(c).Some?
  }

  /** Four characters for three bytes. */
  function Quantum(b0: byte, b1: byte, b2: byte): seq<byte>
  {
    [Digit(b0 / 4), Digit((b0 % 4) * 16 + b1 / 16), Digit((b1 % 16) * 4 + b2 / 64), Digit(b2 % 64)]
  }

  function Encode(b: Bytes): (r: Bytes)
    ensures |r| == 4 * ((|b| + 2) / 3)
    decreases |b|
  {
    if |b| == 0 then []
    else if |b| == 1 then [Digit(b[0] / 4), Digit((b[0] % 4) * 16), PAD, PAD]
    else if |b| == 2 then [Digit(b[0] / 4), Digit((b[0] % 4) * 16 + b[1] / 16), Digit((b[1] % 16) * 4), PAD]
    else Quantum(b[0], b[1], b[2]) + Encode(b[3..])
  }

  /** The output is alphabet characters and padding, and the first two characters of every
      group of four are never padding. */
  lemma {:induction false} EncodeAlphabet(b: Bytes)
    ensures forall i :: 0 <= i < |Encode(b)| ==> InAlphabet(Encode(b)[i]) || Encode(b)[i] == PAD
    ensures forall i :: 0 <= i < |Encode(b)| && i % 4 < 2 ==> InAlphabet(Encode(b)[i])
    decreases |b|
  {
    if |b| >= 3 {
      EncodeAlphabet(b[3..]);
      var q, rest := Quantum(b[0], b[1], b[2]), Encode(b[3..]);
      assert Encode(b) == q + rest;
      forall i | 4 <= i < |Encode(b)|
        ensures Encode(b)[i] == rest[i - 4] && (i - 4) % 4 == i % 4
      {
      }
    }
  }

  /** Bytes for one group of four characters, the last one or two of which may be padding. */
  function DecodeQuantum(q: Bytes): Option<Bytes>
    requires |q| == 4
  {
    var v0, v1, v2, v3 := Value(q[0]), Value(q[1]), Value(q[2]), Value(q[3]);
    if v0.None? || v1.None? then None
    else
      var x := v0.value * 4 + v1.value / 16;
      if q[2] == PAD && q[3] == PAD then Some([x])
      else if v2.None? then None
      else
        var y := (v1.value % 16) * 16 + v2.value / 4;
        if q[3] == PAD then Some([x, y])
        else if v3.None? then None
        else Some([x, y, (v2.value % 4) * 64 + v3.value])
  }

  /** The arithmetic of one quantum: the 6-bit groups put back together give the bytes. */
  lemma Regroup(b0: byte, b1: byte, b2: byte)
    ensures (b0 / 4) * 4 + ((b0 % 4) * 16 + b1 / 16) / 16 == b0
    ensures (((b0 % 4) * 16 + b1 / 16) % 16) * 16 + ((b1 % 16) * 4 + b2 / 64) / 4 == b1
    ensures (((b1 % 16) * 4 + b2 / 64) % 4) * 64 + b2 % 64 == b2
  {
  }

  function Decode(t: Bytes): Option<Bytes>
    decreases |t|
  {
    if |t| == 0 then Some([])
    else if |t| < 4 then None
    else
      match DecodeQuantum(t[..4])
      case None => None
      case Some(head) =>
        if |head| < 3 && |t| > 4 then None   // padding only in the last group
        else match Decode(t[4..])
          case None => None
          case Some(tail) => Some(head + tail)
  }

  lemma QuantumRoundTrip(b0: byte, b1: byte, b2: byte)
    ensures DecodeQuantum(Quantum(b0, b1, b2)) == Some([b0, b1, b2])
  {
    var s0, s1, s2, s3 := b0 / 4, (b0 % 4) * 16 + b1 / 16, (b1 % 16) * 4 + b2 / 64, b2 % 64;
    ValueOfDigit(s0); ValueOfDigit(s1); ValueOfDigit(s2); ValueOfDigit(s3);
    Regroup(b0, b1, b2);
  }

  lemma PaddedQuantum1(b0: byte)
    ensures DecodeQuantum([Digit(b0 / 4), Digit((b0 % 4) * 16), PAD, PAD]) == Some([b0])
  {
    ValueOfDigit(b0 / 4); ValueOfDigit((b0 % 4) * 16);
    Regroup(b0, 0, 0);
  }

  lemma PaddedQuantum2(b0: byte, b1: byte)
    ensures DecodeQuantum([Digit(b0 / 4), Digit((b0 % 4) * 16 + b1 / 16), Digit((b1 % 16) * 4), PAD])
         == Some([b0, b1])
  {
    ValueOfDigit(b0 / 4); ValueOfDigit((b0 % 4) * 16 + b1 / 16); ValueOfDigit((b1 % 16) * 4);
    Regroup(b0, b1, 0);
  }

  /** A final group decodes on its own. */
  lemma DecodeLastQuantum(t: Bytes, d: Bytes)
    requires |t| == 4 && DecodeQuantum(t) == Some(d)
    ensures Decode(t) == Some(d)
  {
    assert t[..4] == t && t[4..] == [];
    assert d + [] == d;
  }

  lemma RoundTrip1(b: Bytes)
    requires |b| == 1
    ensures Decode(Encode(b)) == Some(b)
  {
    PaddedQuantum1(b[0]);
    assert b == [b[0]];
    DecodeLastQuantum(Encode(b), b);
  }

  lemma RoundTrip2(b: Bytes)
    requires |b| == 2
    ensures Decode(Encode(b)) == Some(b)
  {
    PaddedQuantum2(b[0], b[1]);
    assert b == [b[0], b[1]];
    DecodeLastQuantum(Encode(b), b);
  }

  /** A full group followed by a decodable rest. */
  lemma DecodeCons(q: Bytes, rest: Bytes, head: Bytes, tail: Bytes)
    requires |q| == 4 && DecodeQuantum(q) == Some(head) && |head| == 3
    requires Decode(rest) == Some(tail)
    ensures Decode(q + rest) == Some(head + tail)
  {
    var t := q + rest;
    assert t[..4] == q && t[4..] == rest;
  }

  /** One full quantum in front of a round-tripping rest. */
  lemma RoundTripStep(b: Bytes)
    requires |b| >= 3 && Decode(Encode(b[3..])) == Some(b[3..])
    ensures Decode(Encode(b)) == Some(b)
  {
    QuantumRoundTrip(b[0], b[1], b[2]);
    DecodeCons(Quantum(b[0], b[1], b[2]), Encode(b[3..]), [b[0], b[1], b[2]], b[3..]);
    SplitFirstThree(b);
  }

  lemma SplitFirstThree(b: Bytes)
    requires |b| >= 3
    ensures b == [b[0], b[1], b[2]] + b[3..]
  {
  }

  /** Decode undoes Encode, so Encode is injective. */
  lemma {:induction false} DecodeEncode(b: Bytes)
    ensures Decode(Encode(b)) == Some(b)
    decreases |b|
  {
    if |b| == 1 {
      RoundTrip1(b);
    } else if |b| == 2 {
      RoundTrip2(b);
    } else if |b| >= 3 {
      DecodeEncode(b[3..]);
      RoundTripStep(b);
    }
  }

  lemma EncodeInjective(a: Bytes, b: Bytes)
    requires Encode(a) == Encode(b)
    ensures a == b
  {
    DecodeEncode(a);
    DecodeEncode(b);
  }
}
