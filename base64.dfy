/** The "basic" Base64 encoding of section 4 of RFC 4648, as the Java platform's
    `Base64.getEncoder()` and `Base64.getDecoder()` implement it.

    The encoder always pads with `=`.  The decoder accepts a final unit of two or three
    alphabet characters with or without its padding, rejects a final unit of one character,
    rejects any character outside the alphabet, any `=` that is not correct trailing padding
    and anything after the padding, and does not check that the unused low bits of the
    last character are zero. */
module Base64 {
  import opened Wrappers

  const PAD: char := '='

  /** The 64 characters of Table 1 of RFC 4648. */
  predicate IsAlphabetChar(c: char) {
    ('A' <= c <= 'Z') || ('a' <= c <= 'z') || ('0' <= c <= '9') || c == '+' || c == '/'
  }

  /** The value a character of the alphabet stands for. */
  function CharValue(c: char): (v: bv8)
    requires IsAlphabetChar(c)
    ensures v < 64
  {
    if 'A' <= c <= 'Z' then (c as int - 'A' as int) as bv8
    else if 'a' <= c <= 'z' then (c as int - 'a' as int + 26) as bv8
    else if '0' <= c <= '9' then (c as int - '0' as int + 52) as bv8
    else if c == '+' then 62
    else 63
  }

  /** The character of the alphabet that encodes a 6-bit value. */
  function ValueChar(v: bv8): (c: char)
    requires v < 64
    ensures IsAlphabetChar(c) && CharValue(c) == v
  {
    if v < 26 then ('A' as int + v as int) as char
    else if v < 52 then ('a' as int + (v as int - 26)) as char
    else if v < 62 then ('0' as int + (v as int - 52)) as char
    else if v == 62 then '+'
    else '/'
  }

  /** Number of `=` characters that end the encoding of `n` bytes. */
  function Padding(n: nat): nat {
    (3 - n % 3) % 3
  }

  /** `s` is alphabet characters followed by exactly `pad` padding characters. */
  predicate WellPadded(s: seq<char>, pad: nat) {
    && pad <= |s|
    && (forall i :: 0 <= i < |s| - pad ==> IsAlphabetChar(s[i]))
    && (forall i :: |s| - pad <= i < |s| ==> s[i] == PAD)
  }

  // The 6-bit groups of a 24-bit quantum b0 b1 b2 (section 4 of RFC 4648).
  function Sextet0(b0: bv8): bv8 { b0 >> 2 }
  function Sextet1(b0: bv8, b1: bv8): bv8 { ((b0 & 3) << 4) | (b1 >> 4) }
  function Sextet2(b1: bv8, b2: bv8): bv8 { ((b1 & 15) << 2) | (b2 >> 6) }
  function Sextet3(b2: bv8): bv8 { b2 & 63 }

  // The bytes that four 6-bit values v0 v1 v2 v3 stand for; unused low bits are dropped.
  function Octet0(v0: bv8, v1: bv8): bv8 { (v0 << 2) | (v1 >> 4) }
  function Octet1(v1: bv8, v2: bv8): bv8 { (v1 << 4) | (v2 >> 2) }
  function Octet2(v2: bv8, v3: bv8): bv8 { (v2 << 6) | v3 }

  lemma QuantumRoundTrip(b0: bv8, b1: bv8, b2: bv8)
    ensures Sextet0(b0) < 64 && Sextet1(b0, b1) < 64 && Sextet2(b1, b2) < 64 && Sextet3(b2) < 64
    ensures Octet0(Sextet0(b0), Sextet1(b0, b1)) == b0
    ensures Octet1(Sextet1(b0, b1), Sextet2(b1, b2)) == b1
    ensures Octet2(Sextet2(b1, b2), Sextet3(b2)) == b2
  {
  }

  /** Four alphabet characters for three bytes. */
  function EncodeQuantum(b0: bv8, b1: bv8, b2: bv8): (q: seq<char>)
    ensures |q| == 4 && forall i :: 0 <= i < 4 ==> IsAlphabetChar(q[i])
  {
    QuantumRoundTrip(b0, b1, b2);
    [ValueChar(Sextet0(b0)), ValueChar(Sextet1(b0, b1)), ValueChar(Sextet2(b1, b2)), ValueChar(Sextet3(b2))]
  }

  /** Four characters for the last one or two bytes: the quantum is completed with zero
      bits and the characters that stand for no input are replaced by padding. */
  function EncodeFinal(data: seq<bv8>): (q: seq<char>)
    requires 1 <= |data| <= 2
    ensures |q| == 4 && WellPadded(q, Padding(|data|))
  {
    var b1: bv8 := if |data| == 2 then data[1] else 0;
    QuantumRoundTrip(data[0], b1, 0);
    var e := [ValueChar(Sextet0(data[0])), ValueChar(Sextet1(data[0], b1))];
    if |data| == 1 then e + [PAD, PAD] else e + [ValueChar(Sextet2(b1, 0)), PAD]
  }

  lemma WellPaddedAfterQuantum(q: seq<char>, rest: seq<char>, pad: nat)
    requires forall i :: 0 <= i < |q| ==> IsAlphabetChar(q[i])
    requires WellPadded(rest, pad)
    ensures WellPadded(q + rest, pad)
  {
    forall i | 0 <= i < |q + rest| - pad
      ensures IsAlphabetChar((q + rest)[i])
    {
      if i >= |q| { assert (q + rest)[i] == rest[i - |q|]; }
    }
  }

  /** Base64.getEncoder().encode: every three bytes become four characters; a final one or
      two bytes become four characters ending in `==` or `=`. */
  function Encode(data: seq<bv8>): (s: seq<char>)
    ensures |s| == 4 * ((|data| + 2) / 3)
    ensures WellPadded(s, Padding(|data|))
    decreases |data|
  {
    if |data| == 0 then []
    else if |data| < 3 then EncodeFinal(data)
    else
      var q, rest := EncodeQuantum(data[0], data[1], data[2]), Encode(data[3..]);
      QuantumCount(|data|);
      WellPaddedAfterQuantum(q, rest, Padding(|data|));
      q + rest
  }

  /** Three more bytes need one more quantum and the same padding. */
  lemma QuantumCount(n: nat)
    requires n >= 3
    ensures (n + 2) / 3 == (n - 3 + 2) / 3 + 1
    ensures Padding(n) == Padding(n - 3)
  {
  }

  predicate IsFullQuantum(s: seq<char>) {
    |s| >= 4 && IsAlphabetChar(s[0]) && IsAlphabetChar(s[1]) && IsAlphabetChar(s[2]) && IsAlphabetChar(s[3])
  }

  /** A last unit the decoder accepts: two or three alphabet characters, followed by the
      padding that completes them to four, or by none. */
  predicate IsFinalUnit(s: seq<char>) {
    && 2 <= |s| <= 4
    && IsAlphabetChar(s[0]) && IsAlphabetChar(s[1])
    && (|s| == 3 ==> IsAlphabetChar(s[2]))
    && (|s| == 4 ==> s[3] == PAD && (IsAlphabetChar(s[2]) || s[2] == PAD))
  }

  lemma FinalUnitShape(s: seq<char>)
    requires IsFinalUnit(s)
    ensures PaddedShape(s)
  {
    if |s| < 4 {
      assert WellPadded(s, 0);
    } else if s[2] == PAD {
      assert WellPadded(s, 2);
    } else {
      assert WellPadded(s, 1);
    }
  }

  /** The last unit of the input, which is not four alphabet characters. */
  function DecodeFinalUnit(s: seq<char>): (r: Option<seq<bv8>>)
    ensures r.Some? <==> IsFinalUnit(s)
    ensures r.Some? ==> PaddedShape(s)
  {
    if !IsFinalUnit(s) then None
    else
      FinalUnitShape(s);
      var v0, v1 := CharValue(s[0]), CharValue(s[1]);
      if |s| == 2 || s[2] == PAD then Some([Octet0(v0, v1)])
      else Some([Octet0(v0, v1), Octet1(v1, CharValue(s[2]))])
  }

  /** The shape of text the decoder accepts: alphabet characters, then one or two `=` only
      when the length is a multiple of four, and never one character over a multiple of four. */
  predicate PaddedShape(s: seq<char>) {
    && |s| % 4 != 1
    && (WellPadded(s, 0) || (|s| % 4 == 0 && (WellPadded(s, 1) || WellPadded(s, 2))))
  }

  lemma PaddedShapeAfterQuantum(s: seq<char>)
    requires IsFullQuantum(s) && PaddedShape(s[4..])
    ensures PaddedShape(s)
  {
    var q, rest := s[..4], s[4..];
    assert s == q + rest;
    var pad := if WellPadded(rest, 0) then 0 else if WellPadded(rest, 1) then 1 else 2;
    WellPaddedAfterQuantum(q, rest, pad);
  }

  /** Once a full quantum is removed, what is left of well-shaped text is well shaped. */
  lemma PaddedShapeOfRest(s: seq<char>)
    requires IsFullQuantum(s) && PaddedShape(s)
    ensures PaddedShape(s[4..])
  {
    var rest := s[4..];
    if |rest| == 0 {
      assert WellPadded(rest, 0);
    } else {
      var pad := if WellPadded(s, 0) then 0 else if WellPadded(s, 1) then 1 else 2;
      assert WellPadded(s, pad);
      forall i | 0 <= i < |rest|
        ensures rest[i] == s[i + 4]
      {
      }
      assert WellPadded(rest, pad);
    }
  }

  /** Well-shaped text that does not start with a full quantum is a last unit. */
  lemma FinalUnitOfShape(s: seq<char>)
    requires |s| > 0 && !IsFullQuantum(s) && PaddedShape(s)
    ensures IsFinalUnit(s)
  {
    var pad := if WellPadded(s, 0) then 0 else if WellPadded(s, 1) then 1 else 2;
    assert WellPadded(s, pad);
    assert IsAlphabetChar(s[0]);
    if |s| >= 4 {
      assert |s| == 4 && pad > 0;
    }
  }

  /** Base64.getDecoder().decode: `None` where Java throws IllegalArgumentException.  Text is
      accepted exactly when it is well shaped; the unused low bits of the last character are
      not checked. */
  function Decode(s: seq<char>): (r: Option<seq<bv8>>)
    ensures r.Some? <==> PaddedShape(s)
    decreases |s|
  {
    if |s| == 0 then
      assert WellPadded(s, 0);
      Some([])
    else if IsFullQuantum(s) then
      match Decode(s[4..])
      case None =>
        if PaddedShape(s) then PaddedShapeOfRest(s); None else None
      case Some(rest) =>
        PaddedShapeAfterQuantum(s);
        Some(DecodeQuantum(s[..4]) + rest)
    else
      if PaddedShape(s) then FinalUnitOfShape(s); DecodeFinalUnit(s) else DecodeFinalUnit(s)
  }

  /** The three bytes that a full quantum of four alphabet characters stands for. */
  function DecodeQuantum(q: seq<char>): (b: seq<bv8>)
    requires IsFullQuantum(q)
  {
    var v0, v1, v2, v3 := CharValue(q[0]), CharValue(q[1]), CharValue(q[2]), CharValue(q[3]);
    [Octet0(v0, v1), Octet1(v1, v2), Octet2(v2, v3)]
  }

  lemma DecodeQuantumOfEncoded(b0: bv8, b1: bv8, b2: bv8)
    ensures IsFullQuantum(EncodeQuantum(b0, b1, b2))
    ensures DecodeQuantum(EncodeQuantum(b0, b1, b2)) == [b0, b1, b2]
  {
    QuantumRoundTrip(b0, b1, b2);
  }

  /** A leading full quantum is decoded on its own and the rest of the input after it. */
  lemma DecodeAfterQuantum(q: seq<char>, rest: seq<char>)
    requires |q| == 4 && IsFullQuantum(q)
    ensures Decode(q + rest) == match Decode(rest)
                                case None => None
                                case Some(tail) => Some(DecodeQuantum(q) + tail)
  {
    assert IsFullQuantum(q + rest);
    assert (q + rest)[4..] == rest;
  }

  /** The last one or two bytes, padded or not, decode back to themselves. */
  lemma DecodeEncodeFinal(data: seq<bv8>, padded: bool)
    requires 1 <= |data| <= 2
    ensures var e := EncodeFinal(data);
            Decode(if padded then e else e[..4 - Padding(|data|)]) == Some(data)
  {
    var b1: bv8 := if |data| == 2 then data[1] else 0;
    QuantumRoundTrip(data[0], b1, 0);
    var e := [ValueChar(Sextet0(data[0])), ValueChar(Sextet1(data[0], b1))];
    var q := EncodeFinal(data);
    var s := if padded then q else q[..4 - Padding(|data|)];
    if |data| == 1 {
      assert q == e + [PAD, PAD];
      assert s == if padded then e + [PAD, PAD] else e;
      assert DecodeFinalUnit(s) == Some([data[0]]);
      assert data == [data[0]];
    } else {
      var e' := e + [ValueChar(Sextet2(b1, 0))];
      assert q == e' + [PAD];
      assert s == if padded then e' + [PAD] else e';
      assert DecodeFinalUnit(s) == Some([data[0], data[1]]);
      assert data == [data[0], data[1]];
    }
    assert !IsFullQuantum(s);
    assert Decode(s) == DecodeFinalUnit(s);
  }

  lemma EncodeUnfold(data: seq<bv8>)
    requires |data| >= 3
    ensures Encode(data) == EncodeQuantum(data[0], data[1], data[2]) + Encode(data[3..])
  {
  }

  lemma DecodeQuantumPrefix(data: seq<bv8>)
    requires |data| >= 3
    ensures DecodeQuantum(EncodeQuantum(data[0], data[1], data[2])) + data[3..] == data
  {
    DecodeQuantumOfEncoded(data[0], data[1], data[2]);
    assert data[..3] == [data[0], data[1], data[2]];
    assert data[..3] + data[3..] == data;
  }

  /** One step of the round trip: a leading quantum of three bytes comes back in front
      of whatever the rest decodes to. */
  lemma DecodeEncodeStep(data: seq<bv8>)
    requires |data| >= 3
    requires Decode(Encode(data[3..])) == Some(data[3..])
    ensures Decode(Encode(data)) == Some(data)
  {
    var q := EncodeQuantum(data[0], data[1], data[2]);
    EncodeUnfold(data);
    DecodeQuantumOfEncoded(data[0], data[1], data[2]);
    DecodeAfterQuantum(q, Encode(data[3..]));
    DecodeQuantumPrefix(data);
  }

  /** Decoding what the encoder produced gives back the original bytes, for every byte
      sequence including the empty one. */
  lemma {:induction false} DecodeEncode(data: seq<bv8>)
    ensures Decode(Encode(data)) == Some(data)
    decreases |data|
  {
    if |data| == 0 {
    } else if |data| < 3 {
      DecodeEncodeFinal(data, true);
    } else {
      DecodeEncode(data[3..]);
      DecodeEncodeStep(data);
    }
  }

  /** The encoding with its trailing padding left off. */
  function EncodeUnpadded(data: seq<bv8>): (s: seq<char>)
    ensures forall i :: 0 <= i < |s| ==> IsAlphabetChar(s[i])
  {
    var padded := Encode(data);
    padded[..|padded| - Padding(|data|)]
  }

  lemma PrefixOfConcat(q: seq<char>, rest: seq<char>, k: nat)
    requires k <= |rest|
    ensures (q + rest)[..|q| + k] == q + rest[..k]
  {
  }

  lemma EncodeUnpaddedUnfold(data: seq<bv8>)
    requires |data| >= 3
    ensures EncodeUnpadded(data) == EncodeQuantum(data[0], data[1], data[2]) + EncodeUnpadded(data[3..])
  {
    var q, rest := EncodeQuantum(data[0], data[1], data[2]), Encode(data[3..]);
    var p := Padding(|data|);
    QuantumCount(|data|);
    EncodeUnfold(data);
    PrefixOfConcat(q, rest, |rest| - p);
  }

  /** The decoder also accepts the encoding with its trailing padding removed. */
  lemma {:induction false} DecodeUnpadded(data: seq<bv8>)
    ensures Decode(EncodeUnpadded(data)) == Some(data)
    decreases |data|
  {
    if |data| == 0 {
    } else if |data| < 3 {
      DecodeEncodeFinal(data, false);
    } else {
      DecodeUnpadded(data[3..]);
      EncodeUnpaddedUnfold(data);
      DecodeQuantumOfEncoded(data[0], data[1], data[2]);
      DecodeAfterQuantum(EncodeQuantum(data[0], data[1], data[2]), EncodeUnpadded(data[3..]));
      DecodeQuantumPrefix(data);
    }
  }

  /** A last unit of a single character carries fewer than eight bits: the decoder
      rejects every input whose length leaves one character over. */
  lemma {:induction false} DecodeRejectsDanglingChar(s: seq<char>)
    requires |s| % 4 == 1
    ensures Decode(s) == None
    decreases |s|
  {
    if IsFullQuantum(s) {
      DecodeRejectsDanglingChar(s[4..]);
    } else {
      assert Decode(s) == DecodeFinalUnit(s);
    }
  }

  /** The unused low bits of the last character are not checked: "QR==" carries the bits
      0100 0001 0001 and decodes to the one byte 0x41, as "QQ==" does. */
  lemma UnusedBitsIgnored()
    ensures Decode("QR==") == Some([0x41])
    ensures Decode("QQ==") == Some([0x41])
  {
    assert IsFinalUnit("QR==") && IsFinalUnit("QQ==");
  }

  lemma VectorQuanta()
    ensures EncodeQuantum(0x66, 0x6f, 0x6f) == "Zm9v"
    ensures EncodeQuantum(0x62, 0x61, 0x72) == "YmFy"
  {
  }

  lemma VectorFinalsF()
    ensures EncodeFinal([0x66]) == "Zg=="
    ensures EncodeFinal([0x66, 0x6f]) == "Zm8="
  {
  }

  lemma VectorFinalsB()
    ensures EncodeFinal([0x62]) == "Yg=="
    ensures EncodeFinal([0x62, 0x61]) == "YmE="
  {
  }

  /** The test vectors of section 10 of RFC 4648 ("", "f", "fo", ... "foobar"). */
  lemma TestVectors()
    ensures Encode([]) == ""
    ensures Encode([0x66]) == "Zg=="
    ensures Encode([0x66, 0x6f]) == "Zm8="
    ensures Encode([0x66, 0x6f, 0x6f]) == "Zm9v"
    ensures Encode([0x66, 0x6f, 0x6f, 0x62]) == "Zm9vYg=="
    ensures Encode([0x66, 0x6f, 0x6f, 0x62, 0x61]) == "Zm9vYmE="
    ensures Encode([0x66, 0x6f, 0x6f, 0x62, 0x61, 0x72]) == "Zm9vYmFy"
  {
    VectorQuanta();
    VectorFinalsF();
    VectorFinalsB();
    var foo: seq<bv8> := [0x66, 0x6f, 0x6f];
    var bar: seq<bv8> := [0x62, 0x61, 0x72];
    EncodeUnfold(foo);
    EncodeUnfold(bar);
    EncodeUnfold(foo + [0x62]);
    EncodeUnfold(foo + [0x62, 0x61]);
    EncodeUnfold(foo + bar);
    assert foo[3..] == [] && bar[3..] == [];
    assert (foo + [0x62])[3..] == [0x62];
    assert (foo + [0x62, 0x61])[3..] == [0x62, 0x61];
    assert (foo + bar)[3..] == bar;
    assert foo + [0x62] == [0x66, 0x6f, 0x6f, 0x62];
    assert foo + [0x62, 0x61] == [0x66, 0x6f, 0x6f, 0x62, 0x61];
    assert foo + bar == [0x66, 0x6f, 0x6f, 0x62, 0x61, 0x72];
  }
}
