/** The library's printers of integers and bytes, and its lenient readers of the same. */
module Readers {
  import opened Texts
  import Utf8
  import Cron

  type Bytes = Utf8.Bytes

  type Digit = d: int | 0 <= d < 10

  const PLUS: Code := 43
  const MINUS: Code := 45
  const UNDERSCORE: Code := 95

  // ---- integers ------------------------------------------------------------------------

  /** `str(n)` */
  function Str(n: int): Text {
    if n < 0 then [MINUS] + Decimal(-n) else Decimal(n)
  }

  function Decimal(n: nat): (t: Text)
    ensures Cron.IsDecimal(t)
  {
    if n < 10 then [48 + n] else Decimal(n / 10) + [48 + n % 10]
  }

  predicate IsBlankByte(c: int) {
    9 <= c <= 13 || c == 32
  }

  /** Every other script's digits and spaces are read as the ASCII ones. */
  function Transformed(t: Text, digit: Code -> Option<Digit>): (r: Text)
    ensures |r| == |t|
  {
    seq(|t|, i requires 0 <= i < |t| =>
      var c := t[i];
      if c < 127 then c
      else if IsSpace(c) then 32
      else match digit(c) case Some(d) => 48 + d case None => 63)
  }

  function TrimLeft(t: Text): Text {
    if t != [] && IsBlankByte(t[0]) then TrimLeft(t[1..]) else t
  }

  function TrimRight(t: Text): Text {
    if t != [] && IsBlankByte(t[|t| - 1]) then TrimRight(t[..|t| - 1]) else t
  }

  /** Digits, with single underscores between them. */
  function ReadDigits(t: Text): Option<int> {
    var parts := Split(t, UNDERSCORE);
    if forall i :: 0 <= i < |parts| ==> Cron.IsDecimal(parts[i]) then
      ConcatDecimal(parts);
      Some(Cron.Value(Concat(parts)))
    else None
  }

  /** `int(t)`, `None` for a ValueError. */
  function ReadInt(t: Text, digit: Code -> Option<Digit>): Option<int> {
    var s := TrimRight(TrimLeft(Transformed(t, digit)));
    if s != [] && s[0] == MINUS then
      match ReadDigits(s[1..]) case Some(n) => Some(-n) case None => None
    else if s != [] && s[0] == PLUS then
      ReadDigits(s[1..])
    else
      ReadDigits(s)
  }

  lemma {:induction false} ConcatDecimal(parts: seq<Text>)
    requires forall i :: 0 <= i < |parts| ==> Cron.IsDecimal(parts[i])
    ensures Concat(parts) == [] || Cron.IsDecimal(Concat(parts))
  {
    if parts != [] {
      ConcatDecimal(parts[..|parts| - 1]);
    }
  }

  lemma {:induction false} ValueDecimal(n: nat)
    ensures Cron.Value(Decimal(n)) == n
  {
    if n < 10 {
      assert [48 + n][..0] == [];
    } else {
      ValueDecimal(n / 10);
      assert Decimal(n)[..|Decimal(n)| - 1] == Decimal(n / 10);
    }
  }

  lemma {:induction false} ReadDigitsDecimal(n: nat)
    ensures ReadDigits(Decimal(n)) == Some(n)
  {
    var t := Decimal(n);
    assert UNDERSCORE !in t;
    SplitFree(t, UNDERSCORE);
    ConcatSnoc([], t);
    assert [] + [t] == [t];
    ValueDecimal(n);
  }

  /** What `str` prints, `int` reads back. */
  lemma {:induction false} IntRoundTrip(n: int, digit: Code -> Option<Digit>)
    ensures ReadInt(Str(n), digit) == Some(n)
  {
    var t := Str(n);
    assert forall i :: 0 <= i < |t| ==> 45 <= t[i] <= 57 && !IsBlankByte(t[i]);
    assert Transformed(t, digit) == t;
    if n < 0 {
      assert t[1..] == Decimal(-n);
      ReadDigitsDecimal(-n);
    } else {
      ReadDigitsDecimal(n);
    }
  }

  // ---- bytes ---------------------------------------------------------------------------

  function Nibble(d: int): Code
    requires 0 <= d < 16
  {
    if d < 10 then 48 + d else 87 + d
  }

  /** `b.hex()` */
  function Hex(b: Bytes): (t: Text)
    ensures |t| == 2 * |b|
    ensures forall i :: 0 <= i < |t| ==> 48 <= t[i] <= 57 || 97 <= t[i] <= 102
  {
    if b == [] then [] else [Nibble(b[0] / 16), Nibble(b[0] % 16)] + Hex(b[1..])
  }

  function HexDigit(c: Code): (d: Option<nat>)
    ensures d.Some? ==> d.value < 16
  {
    if 48 <= c <= 57 then Some(c - 48)
    else if 97 <= c <= 102 then Some(c - 87)
    else if 65 <= c <= 70 then Some(c - 55)
    else None
  }

  /** `bytes.fromhex(t)`, `None` for a ValueError: blanks may stand between the pairs, and
      either case is read. */
  function FromHex(t: Text): Option<Bytes> {
    if t == [] then Some([])
    else if IsBlankByte(t[0]) then FromHex(t[1..])
    else if |t| < 2 then None
    else
      match (HexDigit(t[0]), HexDigit(t[1]), FromHex(t[2..]))
      case (Some(high), Some(low), Some(rest)) => Some([high * 16 + low] + rest)
      case _ => None
  }

  /** What `hex` prints, `fromhex` reads back. */
  lemma {:induction false} HexRoundTrip(b: Bytes)
    ensures FromHex(Hex(b)) == Some(b)
  {
    if b != [] {
      HexRoundTrip(b[1..]);
      var t := Hex(b);
      assert t[2..] == Hex(b[1..]);
      assert HexDigit(t[0]) == Some(b[0] / 16) && HexDigit(t[1]) == Some(b[0] % 16);
      assert [b[0]] + b[1..] == b;
    }
  }

  lemma {:induction false} HexInjective(a: Bytes, b: Bytes)
    requires Hex(a) == Hex(b)
    ensures a == b
  {
    HexRoundTrip(a);
    HexRoundTrip(b);
  }

  /** The readers take more than the printers print: a sign, and capitals. */
  lemma {:induction false} SignIsRead(n: nat, digit: Code -> Option<Digit>)
    ensures ReadInt([PLUS] + Str(n), digit) == ReadInt(Str(n), digit) == Some(n)
    ensures [PLUS] + Str(n) != Str(n)
  {
    IntRoundTrip(n, digit);
    ReadDigitsDecimal(n);
    var t := [PLUS] + Str(n);
    assert forall i :: 0 <= i < |t| ==> 43 <= t[i] <= 57 && !IsBlankByte(t[i]);
    assert Transformed(t, digit) == t;
    assert t[1..] == Str(n);
  }

  function Capital(c: Code): Code {
    if 97 <= c <= 102 then c - 32 else c
  }

  function Capitals(t: Text): (r: Text)
    ensures |r| == |t|
  {
    seq(|t|, i requires 0 <= i < |t| => Capital(t[i]))
  }

  lemma {:induction false} CapitalsAreRead(b: Bytes)
    ensures FromHex(Capitals(Hex(b))) == FromHex(Hex(b)) == Some(b)
  {
    HexRoundTrip(b);
    if b != [] {
      CapitalsAreRead(b[1..]);
      var t, u := Hex(b), Capitals(Hex(b));
      assert u[2..] == Capitals(Hex(b[1..])) by {
        assert t[2..] == Hex(b[1..]);
      }
      assert HexDigit(u[0]) == Some(b[0] / 16) && HexDigit(u[1]) == Some(b[0] % 16);
      assert [b[0]] + b[1..] == b;
    }
  }
}
