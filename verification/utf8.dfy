/** UTF-8 (section 3 of RFC 3629) with the decoder's error handlers: strict encoding,
    decoding that replaces or drops each ill-formed run. */
module Utf8 {
  import opened Texts

  type Byte = b: int | 0 <= b < 256

  type Bytes = seq<Byte>

  /** Every code point but the surrogates has an encoding. */
  predicate Scalar(c: Code) {
    !(0xd800 <= c <= 0xdfff)
  }

  predicate Encodable(t: Text) {
    forall c <- t :: Scalar(c)
  }

  function EncodeCode(c: Code): (e: Bytes)
    requires Scalar(c)
    ensures 1 <= |e| <= 4
  {
    if c < 0x80 then [c]
    else if c < 0x800 then [0xc0 + c / 64, 0x80 + c % 64]
    else if c < 0x1_0000 then [0xe0 + c / 4096, 0x80 + c / 64 % 64, 0x80 + c % 64]
    else [0xf0 + c / 0x4_0000, 0x80 + c / 4096 % 64, 0x80 + c / 64 % 64, 0x80 + c % 64]
  }

  function Encode(t: Text): (e: Bytes)
    requires Encodable(t)
    ensures |e| >= |t|
  {
    if t == [] then [] else EncodeCode(t[0]) + Encode(t[1..])
  }

  /** How many bytes the sequence opened by `b` needs; 0 when `b` opens none. */
  function Needed(b: Byte): nat {
    if b < 0x80 then 1
    else if 0xc2 <= b <= 0xdf then 2
    else if 0xe0 <= b <= 0xef then 3
    else if 0xf0 <= b <= 0xf4 then 4
    else 0
  }

  /** Whether `b` may stand at position `i` of a sequence opened by `lead`. */
  predicate Continues(lead: Byte, i: nat, b: Byte) {
    && 0x80 <= b <= 0xbf
    && (i == 1 && lead == 0xe0 ==> 0xa0 <= b)
    && (i == 1 && lead == 0xed ==> b <= 0x9f)
    && (i == 1 && lead == 0xf0 ==> 0x90 <= b)
    && (i == 1 && lead == 0xf4 ==> b <= 0x8f)
  }

  /** The payload bits of byte `b` under the marker `base`. */
  function Bits(b: Byte, base: int): int {
    b - base
  }

  function Value(s: Bytes): int
    requires 1 <= |s| <= 4
  {
    if |s| == 1 then s[0]
    else if |s| == 2 then Bits(s[0], 0xc0) * 64 + Bits(s[1], 0x80)
    else if |s| == 3 then Bits(s[0], 0xe0) * 4096 + Bits(s[1], 0x80) * 64 + Bits(s[2], 0x80)
    else Bits(s[0], 0xf0) * 0x4_0000 + Bits(s[1], 0x80) * 4096 + Bits(s[2], 0x80) * 64
         + Bits(s[3], 0x80)
  }

  /** How far the sequence at the front of `s` is well formed, at most `Needed(s[0])` bytes. */
  function WellFormed(s: Bytes, i: nat): (n: nat)
    requires 1 <= i <= |s| && i <= Needed(s[0])
    ensures i <= n <= Needed(s[0]) && n <= |s|
    ensures forall k :: i <= k < n ==> Continues(s[0], k, s[k])
    ensures n < Needed(s[0]) && n < |s| ==> !Continues(s[0], n, s[n])
    decreases |s| - i
  {
    if i == Needed(s[0]) || i == |s| || !Continues(s[0], i, s[i]) then i
    else WellFormed(s, i + 1)
  }

  /** One decoding step: the bytes consumed, and the code point unless they are ill formed. */
  function Step(s: Bytes): (r: (nat, Option<Code>))
    requires s != []
    ensures 1 <= r.0 <= |s|
  {
    if Needed(s[0]) == 0 then (1, None)
    else
      var n := WellFormed(s, 1);
      if n < Needed(s[0]) then (n, None) else (n, Some(Value(s[..n])))
  }

  /** Decoding, with `onError` in place of every ill-formed run. */
  function Decode(s: Bytes, onError: Text): (t: Text) {
    if s == [] then []
    else
      var (n, c) := Step(s);
      (if c.Some? then [c.value] else onError) + Decode(s[n..], onError)
  }

  const REPLACEMENT: Text := [0xfffd]

  function DecodeReplace(s: Bytes): (t: Text)
    ensures t == [] <==> s == []
  {
    Decode(s, REPLACEMENT)
  }

  function DecodeIgnore(s: Bytes): Text {
    Decode(s, [])
  }

  // ---- round trip ----------------------------------------------------------------------

  /** An encoding announces its own length, continues it, and carries its code point. */
  lemma {:induction false} EncodedShape(c: Code)
    requires Scalar(c)
    ensures var e := EncodeCode(c);
            && Needed(e[0]) == |e| && Value(e) == c
            && forall k :: 1 <= k < |e| ==> Continues(e[0], k, e[k])
  {
    var e := EncodeCode(c);
    if |e| == 3 {
      assert c / 64 == c / 4096 * 64 + c / 64 % 64;
    } else if |e| == 4 {
      assert c / 64 == c / 4096 * 64 + c / 64 % 64;
      assert c / 4096 == c / 0x4_0000 * 64 + c / 4096 % 64;
    }
  }

  lemma {:induction false} StepEncoded(c: Code, rest: Bytes)
    requires Scalar(c)
    ensures Step(EncodeCode(c) + rest) == (|EncodeCode(c)|, Some(c))
  {
    var e := EncodeCode(c);
    var s := e + rest;
    EncodedShape(c);
    assert forall k :: 1 <= k < |e| ==> s[k] == e[k];
    assert s[..|e|] == e;
  }

  /** A sequence cut short is one ill-formed run. */
  lemma {:induction false} StepCut(c: Code, k: nat)
    requires Scalar(c) && 0 < k < |EncodeCode(c)|
    ensures Step(EncodeCode(c)[..k]) == (k, None)
  {
    var e := EncodeCode(c);
    EncodedShape(c);
    assert forall j :: 1 <= j < k ==> e[..k][j] == e[j];
  }

  lemma {:induction false} Quotient(x: int, k: int, q: int, r: int)
    requires k > 0 && x == k * q + r && 0 <= r < k
    ensures x / k == q && x % k == r
  {
    var d := x / k - q;
    assert k * d == r - x % k;
    assert d >= 1 ==> k * d >= k;
    assert d <= -1 ==> k * d <= -k;
  }

  lemma {:induction false} Digits(x: int, a: int, b: int, c: int, d: int)
    requires x == a * 0x4_0000 + b * 4096 + c * 64 + d
    requires 0 <= b < 64 && 0 <= c < 64 && 0 <= d < 64
    ensures x / 64 == a * 4096 + b * 64 + c && x % 64 == d
    ensures x / 64 % 64 == c && x / 4096 == a * 64 + b
    ensures x / 4096 % 64 == b && x / 0x4_0000 == a
  {
    Quotient(x, 64, a * 4096 + b * 64 + c, d);
    Quotient(x / 64, 64, a * 64 + b, c);
    Quotient(x, 4096, a * 64 + b, c * 64 + d);
    Quotient(x / 4096, 64, a, b);
    Quotient(x, 0x4_0000, a, b * 4096 + c * 64 + d);
  }

  /** The decoder takes nothing but encodings: what a step decodes is the code point whose encoding
      it consumed. */
  lemma {:induction false} StepExact(s: Bytes)
    requires s != []
    ensures var (n, c) := Step(s);
            c.Some? ==> Scalar(c.value) && n == |EncodeCode(c.value)| && s[..n] == EncodeCode(c.value)
  {
    var n := if Needed(s[0]) == 0 then 1 else WellFormed(s, 1);
    if Needed(s[0]) > 0 && n == Needed(s[0]) {
      TakenExactly(s[..n]);
    }
  }

  lemma {:induction false} TakenExactly(e: Bytes)
    requires e != [] && Needed(e[0]) == |e| && forall k :: 1 <= k < |e| ==> Continues(e[0], k, e[k])
    ensures 0 <= Value(e) < 0x11_0000 && Scalar(Value(e)) && EncodeCode(Value(e)) == e
  {
    if |e| == 2 {
      Digits(Value(e), 0, 0, Bits(e[0], 0xc0), Bits(e[1], 0x80));
    } else if |e| == 3 {
      Digits(Value(e), 0, Bits(e[0], 0xe0), Bits(e[1], 0x80), Bits(e[2], 0x80));
    } else if |e| == 4 {
      Digits(Value(e), Bits(e[0], 0xf0), Bits(e[1], 0x80), Bits(e[2], 0x80), Bits(e[3], 0x80));
    }
  }

  lemma {:induction false} DecodeFirst(c: Code, rest: Bytes, onError: Text)
    requires Scalar(c)
    ensures Decode(EncodeCode(c) + rest, onError) == [c] + Decode(rest, onError)
  {
    StepEncoded(c, rest);
    assert (EncodeCode(c) + rest)[|EncodeCode(c)|..] == rest;
  }

  lemma {:induction false} DecodeEncoded(t: Text, rest: Bytes, onError: Text)
    requires Encodable(t)
    ensures Decode(Encode(t) + rest, onError) == t + Decode(rest, onError)
  {
    if t == [] {
      assert Encode(t) + rest == rest;
    } else {
      var more := Encode(t[1..]) + rest;
      calc {
        Decode(Encode(t) + rest, onError);
      == { EncodeFirst(t, rest); }
        Decode(EncodeCode(t[0]) + more, onError);
      == { DecodeFirst(t[0], more, onError); }
        [t[0]] + Decode(more, onError);
      == { DecodeEncoded(t[1..], rest, onError); }
        [t[0]] + (t[1..] + Decode(rest, onError));
      == { assert [t[0]] + t[1..] == t; }
        t + Decode(rest, onError);
      }
    }
  }

  lemma {:induction false} EncodeFirst(t: Text, rest: Bytes)
    requires t != [] && Encodable(t)
    ensures Encode(t) + rest == EncodeCode(t[0]) + (Encode(t[1..]) + rest)
  {
  }

  /** Decoding gives back exactly the text encoded, whatever the error handler. */
  lemma {:induction false} RoundTrip(t: Text, onError: Text)
    requires Encodable(t)
    ensures Decode(Encode(t), onError) == t
  {
    DecodeEncoded(t, [], onError);
    assert Encode(t) + [] == Encode(t);
  }

  lemma {:induction false} EncodeAppend(a: Text, b: Text)
    requires Encodable(a) && Encodable(b)
    ensures Encodable(a + b) && Encode(a + b) == Encode(a) + Encode(b)
  {
    if a == [] {
      assert a + b == b;
    } else {
      assert (a + b)[1..] == a[1..] + b;
      EncodeAppend(a[1..], b);
    }
  }

  lemma {:induction false} EncodeAscii(t: Text)
    requires forall i :: 0 <= i < |t| ==> t[i] < 0x80
    ensures Encodable(t) && |Encode(t)| == |t|
  {
    if t != [] {
      EncodeAscii(t[1..]);
    }
  }

  /** Decoded text is always encodable: surrogates never come out of the decoder. */
  lemma {:induction false} DecodeEncodable(s: Bytes, onError: Text)
    requires Encodable(onError)
    ensures Encodable(Decode(s, onError))
  {
    if s != [] {
      var (n, c) := Step(s);
      DecodeEncodable(s[n..], onError);
    }
  }
}
