/** Which units and numbers texts stand for, told digit by digit and byte by byte. */
module XmlEncodingLaws {
  import opened XmlDecode
  import opened XmlUtf8
  import opened XmlTranscode

  // ---------------------------------------------------------------- UTF-8 as it is read

  /** A sequence of n bytes begins the text: its leading byte says so, and the others continue it. */
  predicate Sequence(s: string, n: nat) {
    && 1 <= n <= 4 && n <= |s|
    && (n == 1 ==> s[0] as nat < 0x80)
    && (n == 2 ==> 0xC0 <= s[0] as nat < 0xE0)
    && (n == 3 ==> 0xE0 <= s[0] as nat < 0xF0)
    && (n == 4 ==> 0xF0 <= s[0] as nat < 0xF8)
    && forall k | 1 <= k < n :: 0x80 <= s[k] as nat < 0xC0
  }

  /** The bits of a byte behind the first one. */
  function Bits(c: char): int {
    c as int - 0x80
  }

  /** The number a sequence stands for. */
  function NumberOf(s: string, n: nat): int
    requires Sequence(s, n)
  {
    if n == 1 then s[0] as int
    else if n == 2 then (s[0] as int - 0xC0) * 0x40 + Bits(s[1])
    else if n == 3 then (s[0] as int - 0xE0) * 0x1000 + Bits(s[1]) * 0x40 + Bits(s[2])
    else (s[0] as int - 0xF0) * 0x40000 + Bits(s[1]) * 0x1000 + Bits(s[2]) * 0x40 + Bits(s[3])
  }

  lemma ShiftedOnce(encoding: Encoding, s: string, n: nat)
    requires !encoding.Native? && s != "" && n == UnitAt(s, 0).length
    ensures Encoded(encoding, s) == UnitsOf(encoding, UnitAt(s, 0).point) + Encoded(encoding, s[n..])
  {
    var a, b := s[..n], s[n..];
    assert s == a + b;
    DecodingDecodes(s);
    DecodingDecodes(b);
    forall j: nat | j < |b| ensures Decoding(s)(n + j) == Decoding(b)(j) {
      UnitShifted(a, b, j);
    }
    FirstUnit(Writing(encoding), Decoding(s), Decoding(b), n, |b|);
  }

  lemma FirstUnit(w: Writer, u: Decoder, v: Decoder, n: nat, m: nat)
    requires Decodes(u, n + m) && Decodes(v, m) && 0 < n == u(0).length && forall j: nat | j < m :: u(n + j) == v(j)
    ensures UnitsBy(w, u, n + m, 0) == w(u(0).point) + UnitsBy(w, v, m, 0)
  {
    ShiftBy(w, u, v, n, m, 0);
  }

  lemma SequenceUnit(s: string, n: nat)
    requires Sequence(s, n)
    ensures UnitAt(s, 0).length == n && NumberOf(s, n) >= 0
    ensures UnitAt(s, 0).point == if n < 4 then Low(NumberOf(s, n)) else High(NumberOf(s, n))
  {
    assert n > 1 ==> Follow(s, 0, n - 1);
    assert forall k | 1 <= k < n :: Tail(s[k]) == Bits(s[k]);
  }

  lemma NoSequence(s: string)
    requires s != "" && forall n: nat | n <= 4 :: !Sequence(s, n)
    ensures UnitAt(s, 0) == Unit(Invalid, 1)
  {
    assert !Sequence(s, 1) && !Sequence(s, 2) && !Sequence(s, 3) && !Sequence(s, 4);
    assert Follow(s, 0, 1) ==> Continues(s[1]);
    assert Follow(s, 0, 2) ==> Continues(s[1]) && Continues(s[2]);
    assert Follow(s, 0, 3) ==> Continues(s[1]) && Continues(s[2]) && Continues(s[3]);
  }

  /** What does not begin a sequence is dropped, one byte at a time. */
  lemma InvalidDropped(encoding: Encoding, s: string)
    requires !encoding.Native? && s != "" && forall n: nat | n <= 4 :: !Sequence(s, n)
    ensures Encoded(encoding, s) == Encoded(encoding, s[1..])
  {
    NoSequence(s);
    ShiftedOnce(encoding, s, 1);
    assert [] + Encoded(encoding, s[1..]) == Encoded(encoding, s[1..]);
  }

  // ------------------------------------------------------------------- units as written

  /** A pair of surrogates for v (section 2.1 of RFC 2781). */
  predicate IsPair(v: int, units: seq<nat>) {
    && |units| == 2 && 0xD800 <= units[0] < 0xDC00 && 0xDC00 <= units[1] < 0xE000
    && v == 0x10000 + (units[0] - 0xD800) * 0x400 + (units[1] - 0xDC00)
  }

  /** The units of a character in an encoding that keeps the byte order. */
  predicate IsWritten(encoding: Encoding, n: nat, v: int, units: seq<nat>)
    requires !encoding.Native?
  {
    match encoding
    case Utf16(_) => if n < 4 then units == [v] else 0x10000 <= v < 0x110000 ==> IsPair(v, units)
    case Utf32(_) => units == [v]
    case Latin1 => units == [if n < 4 && v < 256 then v else '?' as int]
  }

  lemma PointWritten(encoding: Encoding, s: string, n: nat)
    requires Sequence(s, n) && (encoding.Latin1? || encoding == Utf16(false) || encoding == Utf32(false))
    ensures IsWritten(encoding, n, NumberOf(s, n), UnitsOf(encoding, UnitAt(s, 0).point))
  {
    SequenceUnit(s, n);
    var v := NumberOf(s, n);
    if encoding.Utf16? && n == 4 && 0x10000 <= v < 0x110000 {
      PairWritten(v);
    }
  }

  lemma PairWritten(v: nat)
    requires 0x10000 <= v < 0x110000
    ensures IsPair(v, Surrogates(v))
  {
    assert (v + MODULUS - 0x10000) % MODULUS == v - 0x10000;
  }

  /** The first character of a text is written as its encoding says, and then the rest of the text. */
  lemma EncodedPoint(encoding: Encoding, s: string, n: nat)
    requires Sequence(s, n) && (encoding.Latin1? || encoding == Utf16(false) || encoding == Utf32(false))
    ensures exists units :: IsWritten(encoding, n, NumberOf(s, n), units) && Encoded(encoding, s) == units + Encoded(encoding, s[n..])
  {
    SequenceUnit(s, n);
    ShiftedOnce(encoding, s, n);
    PointWritten(encoding, s, n);
  }

  /** The same bytes in the other order. */
  ghost predicate Swapped16(v: nat, r: nat) {
    exists a: nat, b: nat :: IsBytes(v, a, b) && IsBytes(r, b, a)
  }

  predicate IsBytes(v: nat, a: nat, b: nat) {
    a < 256 && b < 256 && v == a * 256 + b
  }

  ghost predicate Swapped32(v: nat, r: nat) {
    exists a: nat, b: nat, c: nat, d: nat :: IsFour(v, a, b, c, d) && IsFour(r, d, c, b, a)
  }

  predicate IsFour(v: nat, a: nat, b: nat, c: nat, d: nat) {
    a < 256 && b < 256 && c < 256 && d < 256 && v == ((a * 256 + b) * 256 + c) * 256 + d
  }

  lemma SwapsBytes(v: nat)
    ensures v < 0x1_0000 ==> Swapped16(v, Swap16(v))
    ensures v < MODULUS ==> Swapped32(v, Swap32(v))
  {
    if v < 0x1_0000 {
      assert IsBytes(v, v / 256, v % 256) && IsBytes(Swap16(v), v % 256, v / 256);
    }
    if v < MODULUS {
      var a, b, c, d := v / 256 / 256 / 256, v / 256 / 256 % 256, v / 256 % 256, v % 256;
      FourBytes(a, b, c, d, v);
      assert IsFour(v, a, b, c, d) && IsFour(Swap32(v), d, c, b, a);
    }
  }

  lemma {:induction false} SwapBy(w: Writer, x: Writer, u: Decoder, n: nat, i: nat, wide: bool)
    requires Decodes(u, n) && i <= n
    requires forall j: nat | j < n :: SwapsUnits(wide, w(u(j).point), x(u(j).point))
    ensures SwapsUnits(wide, UnitsBy(w, u, n, i), UnitsBy(x, u, n, i))
    decreases n - i
  {
    if i < n {
      SwapBy(w, x, u, n, i + u(i).length, wide);
    }
  }

  /** Every unit of the first list is in the second one with its bytes in the other order. */
  ghost predicate SwapsUnits(wide: bool, a: seq<nat>, b: seq<nat>) {
    |a| == |b| && forall k | 0 <= k < |a| :: b[k] == if wide then Swap32(a[k]) else Swap16(a[k])
  }

  /** Writing in the other byte order reverses the bytes of every unit. */
  lemma OtherByteOrder(s: string)
    ensures SwapsUnits(false, Encoded(Utf16(false), s), Encoded(Utf16(true), s))
    ensures SwapsUnits(true, Encoded(Utf32(false), s), Encoded(Utf32(true), s))
  {
    DecodingDecodes(s);
    SwapBy(Writing(Utf16(false)), Writing(Utf16(true)), Decoding(s), |s|, 0, false);
    SwapBy(Writing(Utf32(false)), Writing(Utf32(true)), Decoding(s), |s|, 0, true);
  }

  // ------------------------------------------------------------------- units as read

  /** A surrogate that is not the first half of a pair is dropped; all else is read as the rest of the text follows it. */
  lemma LoneDropped(s: seq<nat>)
    requires s != [] && 0xD800 <= s[0] < 0xE000
    requires s[0] < 0xDC00 && |s| > 1 ==> !(0xDC00 <= s[1] < 0xE000)
    ensures Transcoded(Utf16(false), s) == Transcoded(Utf16(false), s[1..])
  {
    var e, b := Utf16(false), s[1..];
    assert s == [s[0]] + b;
    assert ReadAt(e, s, 0) == Unit(Invalid, 1);
    ReadOn(e, [s[0]], b);
    assert [] + Transcoded(e, b) == Transcoded(e, b);
  }
}
