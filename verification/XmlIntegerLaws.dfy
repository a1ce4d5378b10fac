/** The integers that texts stand for, digit by digit, and where the converted ones end. */
module XmlIntegerLaws {
  import opened Digits
  import opened XmlChars
  import opened XmlDecode
  import opened XmlSurvive
  import opened XmlDecodeLaws
  import opened XmlInteger

  lemma {:induction false} ValueDenoted(hex: bool, s: string, k: nat, digits: string, n: nat)
    requires Stands(s, k, digits) && Denotes(hex, digits, n)
    ensures forall j | k <= j < k + |digits| :: IsDigitOf(hex, s[j])
    ensures Value(hex, s, k, k + |digits|) == n
    decreases |digits|
  {
    if digits != "" {
      var base := if hex then 16 else 10;
      var init, last := digits[..|digits| - 1], digits[|digits| - 1];
      assert s[k + (|digits| - 1)] == last;
      DigitKnown(hex, last, n % base);
      ValueDenoted(hex, s, k, init, n / base);
    }
  }

  /** Leading zeros do not change what digits denote. */
  lemma {:induction false} ZerosDenote(hex: bool, digits: string, n: nat, z: nat)
    requires Denotes(hex, digits, n) && z <= |digits| && forall k | 0 <= k < z :: digits[k] == '0'
    ensures Denotes(hex, digits[z..], n)
    decreases |digits|
  {
    if z == |digits| {
      ZeroDenoted(hex, digits, n);
    } else if z > 0 {
      var base := if hex then 16 else 10;
      ZerosDenote(hex, digits[..|digits| - 1], n / base, z);
      assert digits[z..][..|digits| - 1 - z] == digits[..|digits| - 1][z..];
    } else {
      assert digits[0..] == digits;
    }
  }

  lemma {:induction false} ZeroDenoted(hex: bool, digits: string, n: nat)
    requires Denotes(hex, digits, n) && forall k | 0 <= k < |digits| :: digits[k] == '0'
    ensures n == 0
    decreases |digits|
  {
    if digits != "" {
      var base := if hex then 16 else 10;
      ZeroDenoted(hex, digits[..|digits| - 1], n / base);
      assert n % base == 0;
    }
  }

  /** White space, a sign, a prefix for hexadecimal numbers, digits, and something else. */
  predicate AreParts(space: string, sign: string, prefix: string, digits: string, rest: string) {
    && (forall k | 0 <= k < |space| :: IsWhite(space[k]))
    && (sign == "" || sign == "+" || sign == "-")
    && (prefix == "" || prefix == "0x" || prefix == "0X")
    && !IsDigitOf(prefix != "", At(rest, 0))
    && (prefix == "" ==> digits != "" && !(digits == "0" && (At(rest, 0) == 'x' || At(rest, 0) == 'X')))
  }

  lemma {:induction false} BlankEnd(s: string, k: nat, e: nat)
    requires k <= e <= |s| && (forall j | k <= j < e :: IsWhite(s[j])) && !IsWhite(At(s, e))
    ensures SpaceEnd(s, k) == e
    decreases e - k
  {
    if k < e {
      BlankEnd(s, k + 1, e);
    }
  }

  /** Leading zeros end at the first digit that is none. */
  lemma {:induction false} ZerosAt(s: string, k: nat, z: nat)
    requires k <= z <= |s| && (forall j | k <= j < z :: s[j] == '0') && At(s, z) != '0'
    ensures ZerosEnd(s, k) == z
    decreases z - k
  {
    if k < z {
      ZerosAt(s, k + 1, z);
    }
  }

  lemma {:induction false} DigitsAt(hex: bool, s: string, k: nat, e: nat)
    requires k <= e <= |s| && (forall j | k <= j < e :: IsDigitOf(hex, s[j])) && !IsDigitOf(hex, At(s, e))
    ensures DigitsEnd(hex, s, k) == e
    decreases e - k
  {
    if k < e {
      DigitsAt(hex, s, k + 1, e);
    }
  }

  function CountZeros(s: string): (z: nat)
    ensures z <= |s| && (forall k | 0 <= k < z :: s[k] == '0') && At(s, z) != '0'
  {
    if s != "" && s[0] == '0' then 1 + CountZeros(s[1..]) else 0
  }

  /** From the digits on: the zeros in front of them, and their value. */
  lemma DigitsMeant(hex: bool, s: string, k: nat, digits: string, n: nat)
    requires Stands(s, k, digits) && Denotes(hex, digits, n) && !IsDigitOf(hex, At(s, k + |digits|))
    ensures var b := ZerosEnd(s, k);
            && b <= k + |digits| && DigitsEnd(hex, s, b) == k + |digits|
            && (forall j | b <= j < k + |digits| :: IsDigitOf(hex, s[j]))
            && Value(hex, s, b, k + |digits|) == n
  {
    ZerosStand(s, k, digits);
    DigitsFrom(hex, s, k + CountZeros(digits), digits, CountZeros(digits), n);
  }

  lemma DigitsFrom(hex: bool, s: string, b: nat, digits: string, z: nat, n: nat)
    requires z <= |digits| && Stands(s, b, digits[z..]) && Denotes(hex, digits, n) && forall k | 0 <= k < z :: digits[k] == '0'
    requires !IsDigitOf(hex, At(s, b + |digits| - z))
    ensures DigitsEnd(hex, s, b) == b + |digits| - z && forall j | b <= j < b + |digits| - z :: IsDigitOf(hex, s[j])
    ensures Value(hex, s, b, b + |digits| - z) == n
  {
    DigitsBehind(hex, s, b, digits, z, n);
    EndOfDigits(hex, s, b, b + |digits| - z, n);
  }

  lemma EndOfDigits(hex: bool, s: string, b: nat, e: nat, n: nat)
    requires b <= e <= |s| && (forall j | b <= j < e :: IsDigitOf(hex, s[j])) && !IsDigitOf(hex, At(s, e))
    requires Value(hex, s, b, e) == n
    ensures DigitsEnd(hex, s, b) == e && (forall j | b <= j < e :: IsDigitOf(hex, s[j])) && Value(hex, s, b, e) == n
  {
    DigitsAt(hex, s, b, e);
  }

  lemma DigitsBehind(hex: bool, s: string, b: nat, digits: string, z: nat, n: nat)
    requires z <= |digits| && Stands(s, b, digits[z..]) && Denotes(hex, digits, n) && forall k | 0 <= k < z :: digits[k] == '0'
    ensures forall j | b <= j < b + |digits| - z :: IsDigitOf(hex, s[j])
    ensures Value(hex, s, b, b + |digits| - z) == n
  {
    ZerosDenote(hex, digits, n, z);
    ValueDenoted(hex, s, b, digits[z..], n);
  }

  /** The zeros in front of digits, and the digits behind the zeros. */
  lemma ZerosStand(s: string, k: nat, digits: string)
    requires Stands(s, k, digits) && At(s, k + |digits|) != '0'
    ensures ZerosEnd(s, k) == k + CountZeros(digits) && Stands(s, k + CountZeros(digits), digits[CountZeros(digits)..])
  {
    var z := CountZeros(digits);
    assert digits == digits[..z] + digits[z..];
    StandsSplit(s, k, digits[..z], digits[z..]);
    forall j | k <= j < k + z ensures s[j] == '0' {
      assert s[k + (j - k)] == digits[j - k];
    }
    if z < |digits| {
      StandsAt(s, k + z, digits[z..], 0);
    }
    ZerosAt(s, k, k + z);
  }

  lemma FiveParts(s: string, a: string, b: string, c: string, d: string, e: string)
    requires s == a + (b + (c + (d + e)))
    ensures Stands(s, 0, a) && Stands(s, |a|, b) && Stands(s, |a| + |b|, c) && Stands(s, |a| + |b| + |c|, d)
    ensures Stands(s, |a| + |b| + |c| + |d|, e) && |s| == |a| + |b| + |c| + |d| + |e|
  {
    var w := d + e;
    var v := c + w;
    var u := b + v;
    assert Stands(s, 0, s) && s == a + u;
    StandsSplit(s, 0, a, u);
    StandsSplit(s, |a|, b, v);
    StandsSplit(s, |a| + |b|, c, w);
    StandsSplit(s, |a| + |b| + |c|, d, e);
  }

  lemma Follows(s: string, k: nat, rest: string)
    requires Stands(s, k, rest) && |s| == k + |rest|
    ensures At(s, k) == At(rest, 0)
  {
    if rest != "" {
      StandsAt(s, k, rest, 0);
    }
  }

  /** White space ends where the sign, the prefix or the digits begin. */
  lemma SignSeen(s: string, space: string, sign: string, b: nat)
    requires Stands(s, 0, space) && Stands(s, |space|, sign) && b == |space| + |sign|
    requires (forall k | 0 <= k < |space| :: IsWhite(space[k])) && (sign == "" || sign == "+" || sign == "-")
    requires sign == "" ==> !IsWhite(At(s, b)) && !IsSign(At(s, b))
    ensures SpaceEnd(s, 0) == |space| && (if IsSign(At(s, |space|)) then |space| + 1 else |space|) == b
    ensures At(s, |space|) == '-' <==> sign == "-"
  {
    forall j | 0 <= j < |space| ensures IsWhite(s[j]) {
      assert s[0 + j] == space[j];
    }
    if sign != "" {
      StandsAt(s, |space|, sign, 0);
    }
    BlankEnd(s, 0, |space|);
  }

  /** What stands in front of the digits. */
  lemma PrefixSeen(s: string, b: nat, prefix: string, digits: string, rest: string)
    requires Stands(s, b, prefix) && Stands(s, b + |prefix|, digits) && At(s, b + |prefix| + |digits|) == At(rest, 0)
    requires prefix == "" || prefix == "0x" || prefix == "0X"
    requires prefix == "" ==> digits != "" && AllDigits(digits) && !(digits == "0" && (At(rest, 0) == 'x' || At(rest, 0) == 'X'))
    ensures HexAt(s, b) <==> prefix != ""
    ensures !IsWhite(At(s, b)) && !IsSign(At(s, b))
  {
    if prefix == "" {
      StandsAt(s, b, digits, 0);
      if |digits| > 1 {
        StandsAt(s, b, digits, 1);
      }
    } else {
      StandsAt(s, b, prefix, 0);
      StandsAt(s, b, prefix, 1);
    }
  }

  /** Where the parts of a number stand. */
  ghost predicate Laid(s: string, space: string, sign: string, prefix: string, digits: string, rest: string, b: nat, k: nat) {
    && b == |space| + |sign| && k == b + |prefix|
    && Stands(s, 0, space) && Stands(s, |space|, sign) && Stands(s, b, prefix) && Stands(s, k, digits)
    && At(s, k + |digits|) == At(rest, 0)
  }

  lemma LaidOut(s: string, space: string, sign: string, prefix: string, digits: string, rest: string, b: nat, k: nat)
    requires s == space + (sign + (prefix + (digits + rest))) && b == |space| + |sign| && k == b + |prefix|
    ensures Laid(s, space, sign, prefix, digits, rest, b, k)
  {
    FiveParts(s, space, sign, prefix, digits, rest);
    Follows(s, k + |digits|, rest);
  }

  lemma LaidSeen(s: string, space: string, sign: string, prefix: string, digits: string, rest: string, b: nat, k: nat)
    requires AreParts(space, sign, prefix, digits, rest) && Laid(s, space, sign, prefix, digits, rest, b, k)
    requires prefix == "" ==> AllDigits(digits)
    requires ZerosEnd(s, k) <= |s|
    ensures LiteralIn(s) == Literal(sign == "-", prefix != "", ZerosEnd(s, k), DigitsEnd(prefix != "", s, ZerosEnd(s, k)))
  {
    PrefixSeen(s, b, prefix, digits, rest);
    SignSeen(s, space, sign, b);
    LiteralSeen(s, |space|, b, k, prefix != "", DigitsEnd(prefix != "", s, ZerosEnd(s, k)));
  }

  /**
   A text of white space, a sign, digits of either base and anything behind them stands for the
   number that its digits denote, negated behind a minus.
   */
  lemma MeantExactly(s: string, space: string, sign: string, prefix: string, digits: string, rest: string, n: nat)
    requires s == space + (sign + (prefix + (digits + rest))) && AreParts(space, sign, prefix, digits, rest)
    requires Denotes(prefix != "", digits, n)
    ensures Meant(s) == (if sign == "-" then -1 else 1) * n
    ensures LiteralIn(s).negative <==> sign == "-"
  {
    var b := |space| + |sign|;
    var k := b + |prefix|;
    LaidOut(s, space, sign, prefix, digits, rest, b, k);
    LaidMeant(s, space, sign, prefix, digits, rest, b, k, n);
  }

  lemma LaidMeant(s: string, space: string, sign: string, prefix: string, digits: string, rest: string, b: nat, k: nat, n: nat)
    requires AreParts(space, sign, prefix, digits, rest) && Laid(s, space, sign, prefix, digits, rest, b, k)
    requires Denotes(prefix != "", digits, n)
    ensures Meant(s) == (if sign == "-" then -1 else 1) * n && (LiteralIn(s).negative <==> sign == "-")
  {
    var hex := prefix != "";
    DigitsDecimal(hex, s, k, digits, n);
    DigitsMeant(hex, s, k, digits, n);
    LaidSeen(s, space, sign, prefix, digits, rest, b, k);
  }

  lemma DigitsDecimal(hex: bool, s: string, k: nat, digits: string, n: nat)
    requires Stands(s, k, digits) && Denotes(hex, digits, n)
    ensures !hex ==> AllDigits(digits)
  {
    ValueDenoted(hex, s, k, digits, n);
    forall j | 0 <= j < |digits| ensures !hex ==> IsDigit(digits[j]) {
      assert s[k + j] == digits[j];
    }
  }

  lemma LiteralSeen(s: string, a: nat, b: nat, k: nat, hex: bool, e: nat)
    requires SpaceEnd(s, 0) == a && (if IsSign(At(s, a)) then a + 1 else a) == b && HexAt(s, b) == hex
    requires k == (if hex then b + 2 else b) && k <= |s| && ZerosEnd(s, k) <= |s| && DigitsEnd(hex, s, ZerosEnd(s, k)) == e
    ensures LiteralIn(s) == Literal(At(s, a) == '-', hex, ZerosEnd(s, k), e)
  {
  }

  // ----------------------------------------------------------------------- saturation

  /** The lowest and the largest value of a range: the lowest one is stored modulo the width. */
  function Low(w: Width, minv: nat): int
    requires minv < Modulus(w)
  {
    if minv == 0 then 0 else minv - Modulus(w)
  }

  lemma Reduced(v: int, m: int)
    requires 0 < m && -m <= v < m
    ensures v % m == if v < 0 then v + m else v
  {
  }

  /** What lies in the range is converted to itself, what lies outside to the end of the range on its side. */
  lemma ConvertedSaturates(w: Width, s: string, minv: nat, maxv: nat)
    requires minv < Modulus(w) && maxv < Modulus(w) && !(w == Bits16 && minv != 0 && LiteralIn(s).negative)
    ensures 0 <= Meant(s) <= maxv ==> Converted(w, s, minv, maxv) == Meant(s)
    ensures Low(w, minv) <= Meant(s) < 0 ==> Converted(w, s, minv, maxv) == Meant(s) + Modulus(w)
    ensures Meant(s) < Low(w, minv) ==> Converted(w, s, minv, maxv) == minv
    ensures Meant(s) > maxv ==> Converted(w, s, minv, maxv) == maxv
  {
    ClampedTo(w, Meant(s), minv, maxv);
  }

  lemma ClampedTo(w: Width, v: int, minv: nat, maxv: nat)
    requires minv < Modulus(w) && maxv < Modulus(w)
    ensures var r := Clamp(v, Lowest(w, minv), maxv) % Modulus(w);
            && (0 <= v <= maxv ==> r == v) && (Low(w, minv) <= v < 0 ==> r == v + Modulus(w))
            && (v < Low(w, minv) ==> r == minv) && (v > maxv ==> r == maxv)
  {
    Reduced(Clamp(v, Lowest(w, minv), maxv), Modulus(w));
  }
}
