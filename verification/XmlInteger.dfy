/** `string_to_integer` and `integer_to_string`: conversions that detect overflow from wrapped results. */
module XmlInteger {
  import opened Digits
  import opened XmlChars
  import opened XmlDecode
  import opened Arithmetic

  // ------------------------------------------------------------------ what a text means

  /** The first character from k on that is no `0`. */
  function ZerosEnd(s: string, k: nat): (r: nat)
    requires k <= |s|
    ensures k <= r <= |s| && At(s, r) != '0'
    decreases |s| - k
  {
    if At(s, k) == '0' then ZerosEnd(s, k + 1) else k
  }

  /** A sign and digits without leading zeros: text[begin..end]. */
  datatype Literal = Literal(negative: bool, hex: bool, begin: nat, end: nat)

  predicate IsSign(c: char) {
    c == '+' || c == '-'
  }

  /** A hexadecimal prefix. */
  predicate HexAt(s: string, k: nat) {
    At(s, k) == '0' && (At(s, k + 1) == 'x' || At(s, k + 1) == 'X')
  }

  function LiteralIn(s: string): (l: Literal)
    ensures IsLiteral(s, l)
  {
    var sign := SpaceEnd(s, 0);
    var k := if IsSign(At(s, sign)) then sign + 1 else sign;
    var hex := HexAt(s, k);
    var begin := ZerosEnd(s, if hex then k + 2 else k);
    Literal(At(s, sign) == '-', hex, begin, DigitsEnd(hex, s, begin))
  }

  predicate IsLiteral(s: string, l: Literal) {
    && l.begin <= l.end <= |s| && At(s, l.begin) != '0'
    && forall j | l.begin <= j < l.end :: IsDigitOf(l.hex, s[j])
  }

  function Base(hex: bool): nat {
    if hex then 16 else 10
  }

  /** The number that digits stand for. */
  function Value(hex: bool, s: string, k: nat, e: nat): nat
    requires k <= e <= |s| && forall j | k <= j < e :: IsDigitOf(hex, s[j])
  {
    if e == k then 0
    else
      assert IsDigitOf(hex, s[e - 1]);
      Base(hex) * Value(hex, s, k, e - 1) + HexValue(s[e - 1])
  }

  /** The integer a text stands for. */
  function Meant(s: string): int {
    var l := LiteralIn(s);
    var m: int := Value(l.hex, s, l.begin, l.end);
    if l.negative then -m else m
  }

  // -------------------------------------------------------------------------- widths

  datatype Width = Bits16 | Bits32 | Bits64

  function Bytes(w: Width): nat {
    match w
    case Bits16 => 2
    case Bits32 => 4
    case Bits64 => 8
  }

  function Modulus(w: Width): (m: nat)
    ensures m > 0
  {
    match w
    case Bits16 => 0x1_0000
    case Bits32 => 0x1_0000_0000
    case Bits64 => 0x1_0000_0000_0000_0000
  }

  function Half(w: Width): nat {
    Modulus(w) / 2
  }

  /** The most digits a decimal number of this width can have. */
  function MaxDigits(w: Width): nat {
    match w
    case Bits16 => 5
    case Bits32 => 10
    case Bits64 => 20
  }

  /** The leading digit of the largest number with that many digits. */
  function MaxLead(w: Width): nat {
    match w
    case Bits16 => 6
    case Bits32 => 4
    case Bits64 => 1
  }

  // ---------------------------------------------------------------------- overflow

  function Pow(b: nat, n: nat): nat {
    if n == 0 then 1 else b * Pow(b, n - 1)
  }

  lemma {:induction false} PowGrows(b: nat, m: nat, n: nat)
    requires b > 0 && m <= n
    ensures Pow(b, m) <= Pow(b, n)
    decreases n
  {
    if m < n {
      PowGrows(b, m, n - 1);
      AtLeastOnce(b, Pow(b, n - 1));
    }
  }

  lemma AtLeastOnce(b: nat, x: nat)
    requires b > 0
    ensures x <= b * x
  {
    assert b * x == x + (b - 1) * x;
  }

  /** A number lies between its leading digit and the next one, at the place of the leading digit. */
  lemma {:induction false} ValueBounds(hex: bool, s: string, k: nat, e: nat)
    requires k < e <= |s| && (forall j | k <= j < e :: IsDigitOf(hex, s[j])) && IsDigitOf(hex, s[k])
    ensures HexValue(s[k]) * Pow(Base(hex), e - k - 1) <= Value(hex, s, k, e) < (HexValue(s[k]) + 1) * Pow(Base(hex), e - k - 1)
    decreases e - k
  {
    var b, c := Base(hex), HexValue(s[k]);
    if e == k + 1 {
      assert Value(hex, s, k, k) == 0;
    } else {
      var p, v, d := Pow(b, e - k - 2), Value(hex, s, k, e - 1), HexValue(s[e - 1]);
      ValueBounds(hex, s, k, e - 1);
      assert IsDigitOf(hex, s[e - 1]);
      OneMoreDigit(b, c, p, v, d);
    }
  }

  lemma Swapped(b: nat, c: nat, p: nat)
    ensures b * (c * p) == c * (b * p)
  {
  }

  lemma OneMoreDigit(b: nat, c: nat, p: nat, v: nat, d: nat)
    requires c * p <= v < (c + 1) * p && d < b
    ensures c * (b * p) <= b * v + d < (c + 1) * (b * p)
  {
    ProductGrows(b, c * p, v);
    Swapped(b, c, p);
    ProductGrows(b, v + 1, (c + 1) * p);
    Swapped(b, c + 1, p);
    assert b * (v + 1) == b * v + b;
  }

  lemma Powers()
    ensures Pow(10, 4) == 10000 && Pow(10, 9) == 1_000_000_000 && Pow(10, 19) == 10_000_000_000_000_000_000
    ensures Pow(16, 3) == 0x1000 && Pow(16, 4) == 0x1_0000
    ensures Pow(16, 7) == 0x1000_0000 && Pow(16, 8) == 0x1_0000_0000
    ensures Pow(16, 15) == 0x1000_0000_0000_0000 && Pow(16, 16) == 0x1_0000_0000_0000_0000
  {
    assert Pow(10, 2) == 100;
    assert Pow(10, 4) == 10000;
    assert Pow(10, 6) == 1_000_000;
    assert Pow(10, 8) == 100_000_000;
    assert Pow(10, 9) == 1_000_000_000;
    assert Pow(10, 11) == 100_000_000_000;
    assert Pow(10, 13) == 10_000_000_000_000;
    assert Pow(10, 15) == 1_000_000_000_000_000;
    assert Pow(10, 17) == 100_000_000_000_000_000;
    assert Pow(16, 2) == 0x100;
    assert Pow(16, 3) == 0x1000;
    assert Pow(16, 5) == 0x10_0000;
    assert Pow(16, 7) == 0x1000_0000;
    assert Pow(16, 9) == 0x10_0000_0000;
    assert Pow(16, 11) == 0x1000_0000_0000;
    assert Pow(16, 13) == 0x10_0000_0000_0000;
    assert Pow(16, 15) == 0x1000_0000_0000_0000;
  }

  /** The code's test, on a wrapped result. */
  predicate Overflows(w: Width, hex: bool, s: string, k: nat, e: nat, result: nat)
    requires k <= e <= |s| && forall j | k <= j < e :: IsDigitOf(hex, s[j])
  {
    var digits := e - k;
    if hex then digits > 2 * Bytes(w)
    else
      digits >= MaxDigits(w)
      && !(digits == MaxDigits(w)
           && (At(s, k) < LeadChar(w) || (At(s, k) == LeadChar(w) && result / Half(w) > 0)))
  }

  function LeadChar(w: Width): char {
    '0' + MaxLead(w) as char
  }

  /** A hexadecimal number does not fit exactly when it has too many digits. */
  lemma HexOverflow(w: Width, s: string, k: nat, e: nat)
    requires k < e <= |s| && (forall j | k <= j < e :: IsDigitOf(true, s[j])) && IsDigitOf(true, s[k]) && s[k] != '0'
    ensures e - k > 2 * Bytes(w) <==> Value(true, s, k, e) >= Modulus(w)
  {
    var n := 2 * Bytes(w);
    ValueBounds(true, s, k, e);
    Powers();
    assert Pow(16, n) == Modulus(w);
    var p := Pow(16, e - k - 1);
    if e - k > n {
      PowGrows(16, n, e - k - 1);
      AtLeastOnce(HexValue(s[k]), p);
    } else {
      PowGrows(16, e - k - 1, n - 1);
      Products(HexValue(s[k]) + 1, p, 16, Pow(16, n - 1));
    }
  }

  lemma Products(a: nat, p: nat, b: nat, q: nat)
    requires a <= b && p <= q
    ensures a * p <= b * q
  {
    ProductGrows(a, p, q);
    ProductGrows(q, a, b);
  }

  /** The largest power of ten with as many digits as the largest number. */
  function Place(w: Width): nat {
    match w
    case Bits16 => 10000
    case Bits32 => 1_000_000_000
    case Bits64 => 10_000_000_000_000_000_000
  }

  lemma PlaceIs(w: Width)
    ensures Pow(10, MaxDigits(w) - 1) == Place(w)
  {
    Powers();
  }

  /** With one digit less than the most, every number fits; with one more, none does. */
  lemma DecimalShort(w: Width, s: string, k: nat, e: nat)
    requires k < e <= |s| && (forall j | k <= j < e :: IsDigitOf(false, s[j])) && IsDigitOf(false, s[k]) && s[k] != '0'
    ensures e - k < MaxDigits(w) ==> Value(false, s, k, e) < Modulus(w)
    ensures e - k > MaxDigits(w) ==> Value(false, s, k, e) >= Modulus(w)
  {
    var p, c, n := Pow(10, e - k - 1), HexValue(s[k]), MaxDigits(w);
    ValueBounds(false, s, k, e);
    PlaceIs(w);
    if e - k < n {
      PowGrows(10, e - k - 1, n - 2);
      Products(c + 1, p, 10, Pow(10, n - 2));
    } else if e - k > n {
      PowGrows(10, n, e - k - 1);
      AtLeastOnce(c, p);
    }
  }

  /** With the most digits, the leading digit and the high bit of the wrapped result decide. */
  lemma DecimalFull(w: Width, s: string, k: nat, e: nat)
    requires k < e <= |s| && (forall j | k <= j < e :: IsDigitOf(false, s[j])) && IsDigitOf(false, s[k]) && s[k] != '0'
    requires e - k == MaxDigits(w)
    ensures var v := Value(false, s, k, e);
            v < Modulus(w) <==> s[k] < LeadChar(w) || (s[k] == LeadChar(w) && v % Modulus(w) / Half(w) > 0)
  {
    var v, c := Value(false, s, k, e), HexValue(s[k]);
    ValueBounds(false, s, k, e);
    PlaceIs(w);
    assert s[k] < LeadChar(w) <==> c < MaxLead(w);
    assert s[k] == LeadChar(w) <==> c == MaxLead(w);
    LeadDecides(w, v, c);
  }

  lemma LeadDecides(w: Width, v: nat, c: nat)
    requires c * Place(w) <= v < (c + 1) * Place(w) && 1 <= c < 10
    ensures v < Modulus(w) <==> c < MaxLead(w) || (c == MaxLead(w) && v % Modulus(w) / Half(w) > 0)
  {
    if c < MaxLead(w) {
      ProductGrows(Place(w), c + 1, MaxLead(w));
    } else if c > MaxLead(w) {
      ProductGrows(Place(w), MaxLead(w) + 1, c);
    } else {
      HighBit(w, v);
    }
  }

  lemma HighBit16(v: nat)
    requires 60000 <= v < 70000
    ensures v < 0x1_0000 <==> v % 0x1_0000 / 0x8000 > 0
  {
  }

  lemma HighBit32(v: nat)
    requires 4_000_000_000 <= v < 5_000_000_000
    ensures v < 0x1_0000_0000 <==> v % 0x1_0000_0000 / 0x8000_0000 > 0
  {
  }

  lemma HighBit64(v: nat)
    requires 10_000_000_000_000_000_000 <= v < 20_000_000_000_000_000_000
    ensures v < 0x1_0000_0000_0000_0000 <==> v % 0x1_0000_0000_0000_0000 / 0x8000_0000_0000_0000 > 0
  {
  }

  /** A number with the leading digit of the largest one that wraps around lacks the high bit. */
  lemma HighBit(w: Width, v: nat)
    requires MaxLead(w) * Place(w) <= v < (MaxLead(w) + 1) * Place(w)
    ensures v < Modulus(w) <==> v % Modulus(w) / Half(w) > 0
  {
    match w
    case Bits16 => HighBit16(v);
    case Bits32 => HighBit32(v);
    case Bits64 => HighBit64(v);
  }

  /** The code's test tells exactly whether the result has wrapped around. */
  lemma OverflowMeaning(w: Width, hex: bool, s: string, k: nat, e: nat)
    requires k <= e <= |s| && (forall j | k <= j < e :: IsDigitOf(hex, s[j])) && (k < e ==> s[k] != '0')
    ensures Overflows(w, hex, s, k, e, Value(hex, s, k, e) % Modulus(w)) <==> Value(hex, s, k, e) >= Modulus(w)
  {
    if k < e {
      assert IsDigitOf(hex, s[k]);
      if hex {
        HexOverflow(w, s, k, e);
      } else {
        DecimalShort(w, s, k, e);
        if e - k == MaxDigits(w) {
          DecimalFull(w, s, k, e);
        }
      }
    }
  }

  // ------------------------------------------------------------------------- reading

  function Clamp(v: int, low: int, high: int): int {
    if v < low then low else if v > high then high else v
  }

  /** The integer that the smallest value of a type, given without a sign, stands for. */
  function Lowest(w: Width, minv: nat): int
    requires minv < Modulus(w)
  {
    if minv == 0 then 0 else minv - Modulus(w)
  }

  /** With 16 bits `0 - minv` is computed with more bits and is negative, so that every result is larger. */
  predicate Promotes(w: Width, minv: nat) {
    w == Bits16 && minv != 0
  }

  /** What a text is converted to, modulo the width. */
  function Converted(w: Width, value: string, minv: nat, maxv: nat): nat
    requires minv < Modulus(w) && maxv < Modulus(w)
  {
    if LiteralIn(value).negative && Promotes(w, minv) then minv
    else Clamp(Meant(value), Lowest(w, minv), maxv) % Modulus(w)
  }

  /** The end of `string_to_integer`. */
  method Limit(w: Width, negative: bool, overflow: bool, result: nat, minv: nat, maxv: nat, ghost m: nat) returns (r: nat)
    requires minv < Modulus(w) && maxv < Modulus(w)
    requires result == m % Modulus(w) && (overflow <==> m >= Modulus(w))
    ensures r == if negative && Promotes(w, minv) then minv
                 else Clamp(if negative then 0 - m else m, Lowest(w, minv), maxv) % Modulus(w)
  {
    if !overflow {
      WrapsNot(m, Modulus(w));
    }
    if negative {
      var limit: int := if w == Bits16 then 0 - minv else if minv == 0 then 0 else Modulus(w) - minv;
      r := if overflow || result > limit then minv else if result == 0 then 0 else Modulus(w) - result;
      if r != minv {
        Wraps(r, Modulus(w), 0 - m);
      } else {
        Wraps(minv, Modulus(w), Lowest(w, minv));
      }
    } else {
      r := if overflow || result > maxv then maxv else result;
      WrapsNot(r, Modulus(w));
    }
  }

  lemma WrapsNot(m: nat, n: nat)
    requires n > 0
    ensures m < n ==> m % n == m
  {
  }

  /** r is v modulo n when the two are at most one n apart. */
  lemma Wraps(r: nat, n: nat, v: int)
    requires r < n && (v == r || v == r - n)
    ensures v % n == r
  {
  }

  /** One more digit, wrapped or not. */
  lemma WrappedDigit(b: nat, v: nat, d: nat, n: nat)
    requires n > 0
    ensures (b * (v % n) + d) % n == (b * v + d) % n
  {
    var q := v / n;
    assert v == n * q + v % n;
    assert b * v + d == b * (v % n) + d + n * (b * q);
    AddMultiple(b * (v % n) + d, n, b * q);
  }

  lemma AddMultiple(x: nat, n: nat, q: nat)
    requires n > 0
    ensures (x + n * q) % n == x % n
  {
    var a, r := x / n, x % n;
    assert x == n * a + r;
    assert x + n * q == n * (a + q) + r;
    RemainderIs(x + n * q, n, a + q, r);
  }

  /** The digit loops: the wrapped value and the end of the digits. */
  method ReadDigits(w: Width, s: string, hex: bool, start: nat) returns (result: nat, e: nat)
    requires start <= |s|
    ensures e == DigitsEnd(hex, s, start) && result == Value(hex, s, start, e) % Modulus(w)
  {
    result, e := 0, start;
    while IsDigitOf(hex, At(s, e))
      invariant start <= e <= |s| && DigitsEnd(hex, s, e) == DigitsEnd(hex, s, start)
      invariant (forall j | start <= j < e :: IsDigitOf(hex, s[j])) && result == Value(hex, s, start, e) % Modulus(w)
      decreases |s| - e
    {
      WrappedDigit(Base(hex), Value(hex, s, start, e), HexValue(s[e]), Modulus(w));
      result := (Base(hex) * result + HexValue(s[e])) % Modulus(w);
      e := e + 1;
    }
  }

  method SkipSpace(s: string) returns (k: nat)
    ensures k == SpaceEnd(s, 0)
  {
    k := 0;
    while IsSpace(At(s, k))
      invariant k <= |s| && SpaceEnd(s, k) == SpaceEnd(s, 0)
      decreases |s| - k
    {
      k := k + 1;
    }
  }

  method SkipZeros(s: string, start: nat) returns (k: nat)
    requires start <= |s|
    ensures k == ZerosEnd(s, start)
  {
    k := start;
    while At(s, k) == '0'
      invariant k <= |s| && ZerosEnd(s, k) == ZerosEnd(s, start)
      decreases |s| - k
    {
      k := k + 1;
    }
  }

  /** `string_to_integer` */
  method StringToInteger(w: Width, value: string, minv: nat, maxv: nat) returns (r: nat)
    requires minv < Modulus(w) && maxv < Modulus(w)
    ensures r == Converted(w, value, minv, maxv)
  {
    var s := SkipSpace(value);
    var negative := At(value, s) == '-';
    if IsSign(At(value, s)) {
      s := s + 1;
    }
    var hex := HexAt(value, s);
    // the digit count means nothing with leading zeros
    var start := SkipZeros(value, if hex then s + 2 else s);
    r := ConvertLiteral(w, value, negative, hex, start, minv, maxv);
  }

  /** The digits and the range. */
  method ConvertLiteral(w: Width, value: string, negative: bool, hex: bool, start: nat, minv: nat, maxv: nat) returns (r: nat)
    requires minv < Modulus(w) && maxv < Modulus(w) && start <= |value|
    requires LiteralIn(value) == Literal(negative, hex, start, DigitsEnd(hex, value, start))
    ensures r == Converted(w, value, minv, maxv)
  {
    var result, e := ReadDigits(w, value, hex, start);
    OverflowMeaning(w, hex, value, start, e);
    var overflow := Overflows(w, hex, value, start, e, result);
    r := Limit(w, negative, overflow, result, minv, maxv, Value(hex, value, start, e));
  }

  /** The result is the clamped integer, for every text and every range, unless 16 bits meet a sign. */
  lemma ConvertedExactly(w: Width, value: string, minv: nat, maxv: nat)
    requires minv < Modulus(w) && maxv < Modulus(w)
    ensures Converted(w, value, minv, maxv) == Clamp(Meant(value), Lowest(w, minv), maxv) % Modulus(w) <==>
            !(LiteralIn(value).negative && Promotes(w, minv)) || Meant(value) <= Lowest(w, minv)
  {
    if LiteralIn(value).negative && Promotes(w, minv) {
      Wraps(minv, Modulus(w), Lowest(w, minv));
      var v := Meant(value);
      if v > Lowest(w, minv) {
        Wraps(if v == 0 then 0 else v + Modulus(w), Modulus(w), v);
      }
    }
  }

  /** With 16 bits even "-1" becomes the smallest value. */
  lemma MinusOneLost()
    ensures Converted(Bits16, "-1", 0x8000, 0x7FFF) == 0x8000
    ensures Clamp(Meant("-1"), Lowest(Bits16, 0x8000), 0x7FFF) % Modulus(Bits16) == 0xFFFF
  {
    var s := "-1";
    assert SpaceEnd(s, 0) == 0 && ZerosEnd(s, 1) == 1;
    assert DigitsEnd(false, s, 1) == 2 by {
      assert DigitsEnd(false, s, 2) == 2;
    }
    assert LiteralIn(s) == Literal(true, false, 1, 2);
    assert Value(false, s, 1, 2) == 10 * Value(false, s, 1, 1) + HexValue('1') == 1;
  }

  // ------------------------------------------------------------------------ printing

  /** The magnitude that is printed: `0 - value` for a negative number. */
  function Printable(w: Width, value: nat, negative: bool): nat
    requires value < Modulus(w)
  {
    if negative && value > 0 then Modulus(w) - value else value
  }

  function Printed(w: Width, value: nat, negative: bool): string
    requires value < Modulus(w)
  {
    (if negative then "-" else "") + Decimal(Printable(w, value, negative))
  }

  /** The digits of n: those of rest, and d behind them. */
  ghost predicate Writing(n: nat, rest: nat, d: string) {
    if rest > 0 then Decimal(n) == Decimal(rest) + d else Decimal(n) == d
  }

  /** rest is what is left of n after k digits. */
  ghost predicate Shrunk(n: nat, rest: nat, k: nat) {
    rest > 0 ==> Pow(10, k) * rest <= n
  }

  lemma DigitStep(n: nat, rest: nat, d: string)
    requires rest > 0 && Writing(n, rest, d)
    ensures Writing(n, rest / 10, [Digit(rest % 10)] + d)
  {
    if rest >= 10 {
      assert Decimal(rest / 10) + [Digit(rest % 10)] + d == Decimal(rest / 10) + ([Digit(rest % 10)] + d);
    }
  }

  lemma ShrinkStep(n: nat, rest: nat, k: nat)
    requires rest > 0 && Shrunk(n, rest, k)
    ensures Shrunk(n, rest / 10, k + 1)
  {
    if rest / 10 > 0 {
      ProductGrows(Pow(10, k), 10 * (rest / 10), rest);
      Swapped(Pow(10, k), 10, rest / 10);
      Swapped(10, Pow(10, k), rest / 10);
    }
  }

  lemma TwentyPlaces(k: nat)
    ensures k >= 20 ==> Pow(10, k) >= 100_000_000_000_000_000_000
  {
    Powers();
    assert Pow(10, 20) == 10 * Pow(10, 19);
    if k >= 20 {
      PowGrows(10, 20, k);
    }
  }

  /** After twenty digits nothing of a 64-bit number is left. */
  lemma TwentyDigits(w: Width, n: nat, rest: nat, k: nat)
    requires n < Modulus(w) && rest > 0 && Shrunk(n, rest, k)
    ensures k < 20
  {
    TwentyPlaces(k);
    AtLeastOnce(rest, Pow(10, k));
  }

  /** After k digits d of n, rest is still to be written. */
  ghost predicate Printing(w: Width, n: nat, rest: nat, k: nat, d: string) {
    n < Modulus(w) && 1 <= k <= 20 && |d| == k && Writing(n, rest, d) && Shrunk(n, rest, k)
  }

  lemma PrintStep(w: Width, n: nat, rest: nat, k: nat, d: string)
    requires Printing(w, n, rest, k, d) && rest > 0
    ensures Printing(w, n, rest / 10, k + 1, [Digit(rest % 10)] + d)
  {
    TwentyDigits(w, n, rest, k);
    DigitStep(n, rest, d);
    ShrinkStep(n, rest, k);
  }

  /** Writes one more digit in front of the others. */
  method PutDigit(buffer: array<char>, k: nat, digit: char)
    requires 0 < k < buffer.Length
    modifies buffer
    ensures buffer[buffer.Length - k - 1..] == [digit] + old(buffer[buffer.Length - k..])
  {
    ghost var d := buffer[buffer.Length - k..];
    buffer[buffer.Length - k - 1] := digit;
    assert buffer[buffer.Length - k..] == d;
  }

  /** `integer_to_string`: digits are written from the end of the buffer backwards. */
  method IntegerToString(w: Width, buffer: array<char>, value: nat, negative: bool) returns (begin: nat)
    requires buffer.Length == 64 && value < Modulus(w)
    modifies buffer
    ensures begin <= 64 && buffer[begin..] == Printed(w, value, negative)
  {
    ghost var n := Printable(w, value, negative);
    var rest := Printable(w, value, negative);
    var k := 1;
    buffer[63] := Digit(rest % 10);
    FirstDigit(n);
    rest := rest / 10;
    assert buffer[63..] == [Digit(n % 10)];
    while rest > 0
      invariant 1 <= k <= 20 && Printing(w, n, rest, k, buffer[64 - k..])
      decreases rest
    {
      PrintStep(w, n, rest, k, buffer[64 - k..]);
      PutDigit(buffer, k, Digit(rest % 10));
      k := k + 1;
      rest := rest / 10;
    }
    begin := PutSign(buffer, k, negative);
  }

  /** Puts a sign in front of the digits, and leaves it out unless the number is negative. */
  method PutSign(buffer: array<char>, k: nat, negative: bool) returns (begin: nat)
    requires buffer.Length == 64 && 0 < k < 64
    modifies buffer
    ensures begin <= 64 && buffer[begin..] == (if negative then "-" else "") + old(buffer[64 - k..])
  {
    ghost var d := buffer[64 - k..];
    PutDigit(buffer, k, '-');
    begin := if negative then 63 - k else 64 - k;
    assert buffer[64 - k..] == buffer[63 - k..][1..] == d;
    assert "" + d == d;
  }

  lemma FirstDigit(n: nat)
    ensures Writing(n, n / 10, [Digit(n % 10)]) && Shrunk(n, n / 10, 1)
  {
    assert Pow(10, 1) == 10;
  }

  // ---------------------------------------------------------------------- round trip

  lemma {:induction false} DigitsEndIs(s: string, k: nat)
    requires k <= |s| && forall j | k <= j < |s| :: IsDigit(s[j])
    ensures DigitsEnd(false, s, k) == |s|
    decreases |s| - k
  {
    if k < |s| {
      DigitsEndIs(s, k + 1);
    }
  }

  /** The value of a printed number behind a sign. */
  lemma {:induction false} DecimalReads(sign: string, n: nat)
    ensures (forall j | |sign| <= j < |sign + Decimal(n)| :: IsDigitOf(false, (sign + Decimal(n))[j]))
    ensures Value(false, sign + Decimal(n), |sign|, |sign + Decimal(n)|) == n
  {
    var s := sign + Decimal(n);
    if n >= 10 {
      var t := sign + Decimal(n / 10);
      DecimalReads(sign, n / 10);
      assert s == t + [Digit(n % 10)];
      ValuePrefix(s, t, |sign|, |t|);
      assert s[|t|] == Digit(n % 10);
    } else {
      assert s[|sign|] == Digit(n);
      assert Value(false, s, |sign|, |sign|) == 0;
    }
  }

  lemma {:induction false} ValuePrefix(s: string, t: string, k: nat, e: nat)
    requires k <= e <= |t| && t <= s && forall j | k <= j < |t| :: IsDigitOf(false, t[j])
    ensures (forall j | k <= j < e :: IsDigitOf(false, s[j])) && Value(false, s, k, e) == Value(false, t, k, e)
  {
    if k < e {
      ValuePrefix(s, t, k, e - 1);
      assert s[e - 1] == t[e - 1];
    }
  }

  /** A printed number means what was printed. */
  lemma PrintedMeans(w: Width, value: nat, negative: bool)
    requires value < Modulus(w)
    ensures Meant(Printed(w, value, negative)) == if negative then 0 - Printable(w, value, negative) else value
    ensures LiteralIn(Printed(w, value, negative)).negative == negative
  {
    var sign, n := if negative then "-" else "", Printable(w, value, negative);
    var s, d := sign + Decimal(n), Decimal(n);
    DecimalReads(sign, n);
    DigitsBehind(sign, d);
    PrintedLiteral(s, |sign|, negative);
    if s[|sign|] == '0' {
      assert d == "0";
    }
  }

  lemma DigitsBehind(sign: string, d: string)
    requires AllDigits(d)
    ensures var s := sign + d; (forall j | |sign| <= j < |s| :: IsDigit(s[j])) && (d != "" ==> s[|sign|] == d[0])
  {
    var s := sign + d;
    forall j | |sign| <= j < |s| ensures IsDigit(s[j]) {
      assert s[j] == d[j - |sign|];
    }
  }

  /** Digits behind at most a sign are read as the literal they are; a single zero is skipped as a leading one. */
  lemma PrintedLiteral(s: string, k: nat, negative: bool)
    requires k < |s| && k == (if negative then 1 else 0) && (negative ==> s[0] == '-')
    requires (forall j | k <= j < |s| :: IsDigit(s[j])) && (s[k] == '0' ==> |s| == k + 1)
    ensures LiteralIn(s) == Literal(negative, false, if s[k] == '0' then |s| else k, |s|)
  {
    assert SpaceEnd(s, 0) == 0;
    assert ZerosEnd(s, k) == if s[k] == '0' then k + 1 else k;
    DigitsEndIs(s, if s[k] == '0' then |s| else k);
  }

  /** Every number of an unsigned type survives printing and reading. */
  lemma UnsignedRoundTrip(w: Width, value: nat)
    requires value < Modulus(w)
    ensures Converted(w, Printed(w, value, false), 0, Modulus(w) - 1) == value
  {
    PrintedMeans(w, value, false);
    WrapsNot(value, Modulus(w));
  }

  /** Every number of a signed type survives, the smallest included; with 16 bits it is the only negative one. */
  lemma SignedRoundTrip(w: Width, value: nat)
    requires value < Modulus(w)
    ensures Converted(w, Printed(w, value, value >= Half(w)), Half(w), Half(w) - 1) == value <==>
            w != Bits16 || value <= Half(w)
  {
    PrintedMeans(w, value, value >= Half(w));
    if value < Half(w) {
      WrapsNot(value, Modulus(w));
    } else {
      Wraps(value, Modulus(w), value - Modulus(w));
    }
  }
}
