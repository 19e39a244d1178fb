/** Lower-case hexadecimal text, as `hex::encode` and the Trojan auth line write it and `hex::decode` reads it. */
module Hex {
  import opened Prelude
  import opened Ascii

  function Digit(n: nat): (c: byte)
    requires n < 16
    ensures 48 <= c <= 57 || 97 <= c <= 102
  {
    if n < 10 then 48 + n else 87 + n
  }

  function Value(c: byte): (r: Option<nat>)
    ensures r.Some? ==> r.value < 16
  {
    if 48 <= c <= 57 then Some(c - 48)
    else if 97 <= c <= 102 then Some(c - 87)
    else if 65 <= c <= 70 then Some(c - 55)
    else None
  }

  function Encode(b: Bytes): (t: Bytes)
    ensures |t| == 2 * |b|
  {
    if b == [] then [] else Encode(b[..|b| - 1]) + [Digit(b[|b| - 1] / 16), Digit(b[|b| - 1] % 16)]
  }

  function Decode(t: Bytes): Option<Bytes> {
    if t == [] then Some([])
    else if |t| == 1 then None
    else
      var rest := Decode(t[..|t| - 2]);
      var hi := Value(t[|t| - 2]);
      var lo := Value(t[|t| - 1]);
      if rest.None? || hi.None? || lo.None? then None
      else Some(rest.value + [16 * hi.value + lo.value])
  }

  lemma DigitValue(x: byte)
    ensures Value(Digit(x / 16)) == Some(x / 16) && Value(Digit(x % 16)) == Some(x % 16)
    ensures 16 * (x / 16) + x % 16 == x
  {
  }

  /** Two digits more are one byte more. */
  lemma DecodePair(t: Bytes, x: byte)
    requires Decode(t).Some?
    ensures Decode(t + [Digit(x / 16), Digit(x % 16)]) == Some(Decode(t).value + [x])
  {
    var u := t + [Digit(x / 16), Digit(x % 16)];
    DigitValue(x);
    assert u[..|u| - 2] == t && u[|u| - 2] == Digit(x / 16) && u[|u| - 1] == Digit(x % 16);
  }

  lemma EncodeSnoc(front: Bytes, x: byte)
    ensures Encode(front + [x]) == Encode(front) + [Digit(x / 16), Digit(x % 16)]
  {
    assert (front + [x])[..|front|] == front;
  }

  lemma DecodeEncodeSnoc(front: Bytes, x: byte)
    requires Decode(Encode(front)) == Some(front)
    ensures Decode(Encode(front + [x])) == Some(front + [x])
  {
    EncodeSnoc(front, x);
    DecodePair(Encode(front), x);
  }

  lemma {:induction false} DecodeEncode(b: Bytes)
    ensures Decode(Encode(b)) == Some(b)
  {
    if b == [] {
    } else {
      var front, last := b[..|b| - 1], b[|b| - 1];
      assert b == front + [last];
      DecodeEncode(front);
      DecodeEncodeSnoc(front, last);
    }
  }

  /** Encoded text holds digits only: no white space, no line break. */
  lemma {:induction false} EncodeDigits(b: Bytes, i: nat)
    requires i < 2 * |b|
    ensures 48 <= Encode(b)[i] <= 57 || 97 <= Encode(b)[i] <= 102
  {
    if i < 2 * |b| - 2 {
      EncodeDigits(b[..|b| - 1], i);
    }
  }

  lemma EncodeTrimmed(b: Bytes)
    ensures Trimmed(Encode(b))
  {
    if b != [] {
      EncodeDigits(b, 0);
      EncodeDigits(b, 2 * |b| - 1);
    }
  }

  lemma TrimEncode(b: Bytes)
    ensures Trim(Encode(b)) == Encode(b)
  {
    EncodeTrimmed(b);
    TrimFixed(Encode(b));
  }

  predicate IsHex(c: byte) {
    '0' <= c as char <= '9' || 'a' <= c as char <= 'f' || 'A' <= c as char <= 'F'
  }

  lemma DigitBack(c: byte)
    ensures IsHex(c) <==> Value(c).Some?
    ensures IsHex(c) ==> Digit(Value(c).value) == LowerChar(c)
  {
  }

  predicate AllHex(t: Bytes) {
    forall i :: 0 <= i < |t| ==> IsHex(t[i])
  }

  lemma AllHexSnoc(front: Bytes, hi: byte, lo: byte)
    ensures AllHex(front + [hi, lo]) <==> AllHex(front) && IsHex(hi) && IsHex(lo)
  {
    var t := front + [hi, lo];
    assert t[|front|] == hi && t[|front| + 1] == lo;
    assert forall i :: 0 <= i < |front| ==> t[i] == front[i];
  }

  lemma DecodeSnoc(front: Bytes, hi: byte, lo: byte)
    ensures var r := Decode(front + [hi, lo]);
            if Decode(front).None? || Value(hi).None? || Value(lo).None? then r.None?
            else r.Some? && |r.value| == |Decode(front).value| + 1 && r.value[..|r.value| - 1] == Decode(front).value
                 && r.value[|r.value| - 1] == 16 * Value(hi).value + Value(lo).value
  {
    var t := front + [hi, lo];
    assert t[..|t| - 2] == front && t[|t| - 2] == hi && t[|t| - 1] == lo;
  }

  /** Exactly the texts of an even number of hex digits, of either case, are decoded. */
  lemma {:induction false} DecodeIff(t: Bytes)
    ensures Decode(t).Some? <==> |t| % 2 == 0 && AllHex(t)
  {
    if |t| < 2 {
    } else {
      var n := |t| - 2;
      assert t == t[..n] + [t[n], t[n + 1]];
      DecodeIff(t[..n]);
      AllHexSnoc(t[..n], t[n], t[n + 1]);
      DigitBack(t[n]);
      DigitBack(t[n + 1]);
      DecodeSnoc(t[..n], t[n], t[n + 1]);
    }
  }

  /** Encoding gives them back in lower case. */
  lemma {:induction false} EncodeDecoded(t: Bytes)
    requires Decode(t).Some?
    ensures Encode(Decode(t).value) == Lower(t)
  {
    if t == [] {
    } else {
      var n := |t| - 2;
      assert t == t[..n] + [t[n], t[n + 1]];
      DigitBack(t[n]);
      DigitBack(t[n + 1]);
      EncodeDecoded(t[..n]);
      PairBack(t[..n], t[n], t[n + 1]);
    }
  }

  lemma EncodeNibbles(b: Bytes, hi: nat, lo: nat)
    requires hi < 16 && lo < 16
    ensures Encode(b + [16 * hi + lo]) == Encode(b) + [Digit(hi), Digit(lo)]
  {
    EncodeSnoc(b, 16 * hi + lo);
  }

  lemma LowerPair(front: Bytes, hi: byte, lo: byte)
    ensures Lower(front + [hi, lo]) == Lower(front) + [LowerChar(hi), LowerChar(lo)]
  {
  }

  lemma PairBack(front: Bytes, hi: byte, lo: byte)
    requires Decode(front).Some? && IsHex(hi) && IsHex(lo) && Encode(Decode(front).value) == Lower(front)
    ensures Decode(front + [hi, lo]).Some?
    ensures Encode(Decode(front + [hi, lo]).value) == Lower(front + [hi, lo])
  {
    DigitBack(hi);
    DigitBack(lo);
    DecodeSnoc(front, hi, lo);
    var b, r := Decode(front).value, Decode(front + [hi, lo]).value;
    assert r == b + [16 * Value(hi).value + Value(lo).value];
    EncodeNibbles(b, Value(hi).value, Value(lo).value);
    LowerPair(front, hi, lo);
  }
}
