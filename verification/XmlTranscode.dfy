/**
 Reading input in other encodings: `utf16_decoder`, `utf32_decoder` and `latin1_decoder`, the counting
 and the writing pass of `convert_buffer_generic`, and what comes back of a text that was written.
 */
module XmlTranscode {
  import opened Wrappers
  import opened XmlDecode
  import opened XmlUtf8

  // -------------------------------------------------------------------- decoding

  predicate IsHighSurrogate(v: nat) {
    0xD800 <= v < 0xDC00
  }

  predicate IsLowSurrogate(v: nat) {
    0xDC00 <= v < 0xE000
  }

  function Unit16(swap: bool, v: nat): nat {
    if swap then Swap16(v) else v
  }

  /** One round of the loop of `utf16_decoder::process`. */
  function Read16(swap: bool, s: seq<nat>, i: nat): (u: Unit)
    requires i < |s|
    ensures 1 <= u.length && i + u.length <= |s|
  {
    var lead := Unit16(swap, s[i]);
    if lead < 0xD800 || 0xE000 <= lead < 0x10000 then Unit(Low(lead), 1)
    else if IsHighSurrogate(lead) && i + 1 < |s| && IsLowSurrogate(Unit16(swap, s[i + 1])) then
      Unit(High(0x10000 + lead % 0x400 * 0x400 + Unit16(swap, s[i + 1]) % 0x400), 2)
    else Unit(Invalid, 1)
  }

  /** One round of `utf32_decoder::process`. */
  function Read32(swap: bool, s: seq<nat>, i: nat): Unit
    requires i < |s|
  {
    var lead := if swap then Swap32(s[i]) else s[i];
    Unit(if lead < 0x10000 then Low(lead) else High(lead), 1)
  }

  /** One round of the decoder of an input encoding. */
  function ReadAt(e: Encoding, s: seq<nat>, i: nat): (u: Unit)
    requires i < |s|
    ensures 1 <= u.length && i + u.length <= |s|
  {
    match e
    case Utf16(swap) => Read16(swap, s, i)
    case Utf32(swap) => Read32(swap, s, i)
    case _ => Unit(Low(s[i]), 1)
  }

  function Reading(e: Encoding, s: seq<nat>): Decoder {
    (i: nat) => if i < |s| then ReadAt(e, s, i) else Unit(Invalid, 1)
  }

  lemma ReadingDecodes(e: Encoding, s: seq<nat>)
    ensures Decodes(Reading(e, s), |s|)
  {
  }

  // ------------------------------------------------------------- counting and writing

  /** `utf8_writer`, on 32-bit integers. */
  function Utf8Units(p: Point): seq<nat> {
    match p
    case Invalid => []
    case Low(ch) => AsBytes(Utf8(ch % MODULUS))
    case High(ch) => AsBytes(Utf8(ch % MODULUS))
  }

  /** What `utf8_counter`, `utf16_counter` and `utf32_counter` count for one code point. */
  function Counted(target: Encoding, p: Point): nat {
    match p
    case Invalid => 0
    case Low(ch) => if !target.Native? then 1 else if ch < 0x80 then 1 else if ch < 0x800 then 2 else 3
    case High(_) => match target case Native => 4 case Utf16(_) => 2 case _ => 1
  }

  /** What is written for one code point: the native encoding is UTF-8. */
  function Written(target: Encoding, p: Point): seq<nat> {
    if target.Native? then Utf8Units(p) else UnitsOf(target, p)
  }

  /** Code points come through `low` or `high` by their size. */
  predicate Proper(p: Point) {
    match p
    case Invalid => true
    case Low(ch) => ch < 0x10000
    case High(ch) => 0x10000 <= ch < MODULUS
  }

  lemma CountedIsWritten(target: Encoding, p: Point)
    requires Proper(p)
    ensures Counted(target, p) == |Written(target, p)|
  {
  }

  /** The counting pass. */
  function CountBy(target: Encoding, u: Decoder, n: nat, i: nat): nat
    requires Decodes(u, n) && i <= n
    decreases n - i
  {
    if i == n then 0 else Counted(target, u(i).point) + CountBy(target, u, n, i + u(i).length)
  }

  function WritingTo(target: Encoding): Writer {
    p => Written(target, p)
  }

  /** Both passes of a conversion agree. */
  lemma {:induction false} PassesAgree(target: Encoding, u: Decoder, n: nat, i: nat)
    requires Decodes(u, n) && i <= n && forall j: nat | j < n :: Proper(u(j).point)
    ensures CountBy(target, u, n, i) == |UnitsBy(WritingTo(target), u, n, i)|
    decreases n - i
  {
    if i < n {
      PassesAgree(target, u, n, i + u(i).length);
      CountedIsWritten(target, u(i).point);
    }
  }

  /** The units of an encoding are as wide as its type. */
  predicate Wide(e: Encoding, s: seq<nat>) {
    forall i | 0 <= i < |s| :: s[i] < match e case Utf16(_) => 0x1_0000 case Utf32(_) => MODULUS case _ => 256
  }

  lemma Swapped(v: nat)
    ensures v < 0x1_0000 ==> Swap16(v) < 0x1_0000 && Swap16(Swap16(v)) == v
  {
    if v < 0x1_0000 {
      var a, b := v / 256, v % 256;
      assert v == a * 256 + b;
      assert Swap16(v) == b * 256 + a;
    }
  }

  lemma Pushed(x: nat, d: nat)
    requires d < 256
    ensures (x * 256 + d) / 256 == x && (x * 256 + d) % 256 == d
  {
  }

  lemma Divided(v: nat)
    ensures v / 0x1_0000 == v / 256 / 256 && v / 0x100_0000 == v / 256 / 256 / 256
  {
  }

  /** The bytes of a 32-bit unit. */
  lemma FourBytes(a: nat, b: nat, c: nat, d: nat, v: nat)
    requires a < 256 && b < 256 && c < 256 && d < 256 && v == ((a * 256 + b) * 256 + c) * 256 + d
    ensures Swap32(v) == ((d * 256 + c) * 256 + b) * 256 + a
  {
    Divided(v);
    Pushed((a * 256 + b) * 256 + c, d);
    Pushed(a * 256 + b, c);
    Pushed(a, b);
  }

  lemma SwappedWide(v: nat)
    requires v < MODULUS
    ensures Swap32(v) < MODULUS && Swap32(Swap32(v)) == v
  {
    var a, b, c, d := v / 256 / 256 / 256, v / 256 / 256 % 256, v / 256 % 256, v % 256;
    Divided(v);
    FourBytes(a, b, c, d, v);
    FourBytes(d, c, b, a, Swap32(v));
  }

  lemma ReadsProper(e: Encoding, s: seq<nat>, i: nat)
    requires Wide(e, s) && i < |s|
    ensures Proper(ReadAt(e, s, i).point)
  {
    if e.Utf16? {
      Swapped(s[i]);
    } else if e.Utf32? {
      SwappedWide(s[i]);
    }
  }

  /** What an input becomes. */
  function Transcoded(e: Encoding, s: seq<nat>): seq<nat> {
    ReadingDecodes(e, s);
    UnitsBy(WritingTo(Native), Reading(e, s), |s|, 0)
  }

  /** The first pass. */
  method CountPass(e: Encoding, data: seq<nat>) returns (length: nat)
    requires Wide(e, data)
    ensures length == |Transcoded(e, data)|
  {
    ghost var u := Reading(e, data);
    ReadingDecodes(e, data);
    length := 0;
    var i := 0;
    while i < |data|
      invariant i <= |data| && length + CountBy(Native, u, |data|, i) == CountBy(Native, u, |data|, 0)
      decreases |data| - i
    {
      var one := ReadAt(e, data, i);
      length := length + Counted(Native, one.point);
      i := i + one.length;
    }
    forall j: nat | j < |data| {
      ReadsProper(e, data, j);
    }
    PassesAgree(Native, u, |data|, 0);
  }

  /** The first n characters of the buffer are what units say. */
  ghost predicate Filled(buffer: string, units: seq<nat>) {
    |units| <= |buffer| && forall k | 0 <= k < |units| :: buffer[k] as nat == units[k]
  }

  lemma Utf8UnitsText(p: Point)
    ensures forall k | 0 <= k < |Utf8Units(p)| :: Utf8Units(p)[k] < 256
  {
  }

  /** Writes the bytes of one code point. */
  method PutPoint(buffer: array<char>, oend: nat, p: Point, ghost units: seq<nat>) returns (next: nat)
    requires oend == |units| && Filled(buffer[..], units) && oend + |Utf8Units(p)| <= buffer.Length
    modifies buffer
    ensures next == oend + |Utf8Units(p)| && Filled(buffer[..], units + Utf8Units(p))
  {
    Utf8UnitsText(p);
    var bytes := Utf8Units(p);
    next := oend;
    while next < oend + |bytes|
      invariant oend <= next <= oend + |bytes| && Filled(buffer[..], units + bytes[..next - oend])
    {
      var k := next - oend;
      buffer[next] := bytes[k] as char;
      assert bytes[..k + 1] == bytes[..k] + [bytes[k]];
      next := next + 1;
    }
    assert bytes[..|bytes|] == bytes;
  }

  /** The second pass fills the buffer that the first one measured exactly. */
  method WritePass(e: Encoding, data: seq<nat>, buffer: array<char>) returns (oend: nat)
    requires buffer.Length == |Transcoded(e, data)| + 1
    modifies buffer
    ensures oend == |Transcoded(e, data)| && Filled(buffer[..], Transcoded(e, data))
  {
    ghost var w, u, n := WritingTo(Native), Reading(e, data), |data|;
    ReadingDecodes(e, data);
    oend := 0;
    ghost var units := [];
    var i := 0;
    assert units + UnitsBy(w, u, n, 0) == Transcoded(e, data);
    while i < |data|
      invariant Converting(w, u, n, i, units) && UnitsBy(w, u, n, 0) == Transcoded(e, data)
      invariant oend == |units| && Filled(buffer[..], units)
      decreases |data| - i
    {
      var one := ReadAt(e, data, i);
      RoomForOne(w, u, n, i, units);
      oend := PutPoint(buffer, oend, one.point, units);
      units := units + w(one.point);
      i := i + one.length;
    }
    assert units + [] == units;
  }

  /** There is room for the next code point. */
  lemma RoomForOne(w: Writer, u: Decoder, n: nat, i: nat, units: seq<nat>)
    requires Converting(w, u, n, i, units) && i < n
    ensures Converting(w, u, n, i + u(i).length, units + w(u(i).point))
    ensures |units| + |w(u(i).point)| <= |UnitsBy(w, u, n, 0)|
  {
    ConvertOne(w, u, n, i, units);
  }

  /** `convert_buffer_generic`: the text with its terminator, in a buffer that it fills. */
  method ConvertBufferGeneric(e: Encoding, data: seq<nat>) returns (buffer: array<char>)
    requires Wide(e, data)
    ensures fresh(buffer) && buffer.Length == |Transcoded(e, data)| + 1
    ensures Filled(buffer[..], Transcoded(e, data)) && buffer[buffer.Length - 1] == '\0'
  {
    var length := CountPass(e, data);
    buffer := new char[length + 1];
    var oend := WritePass(e, data, buffer);
    assert oend == length;
    buffer[oend] := '\0';
  }

  // ---------------------------------------------------------------- there and back

  predicate AreCodePoints(points: seq<nat>) {
    forall i | 0 <= i < |points| :: points[i] < 0x20_0000
  }

  function PointOf(ch: nat): Point {
    if ch < 0x10000 then Low(ch) else High(ch)
  }

  /** The units for some code points. */
  function AllUnits(e: Encoding, points: seq<nat>): seq<nat> {
    if points == [] then [] else UnitsOf(e, PointOf(points[0])) + AllUnits(e, points[1..])
  }

  lemma OneEncoded(e: Encoding, ch: nat)
    requires ch < 0x20_0000 && !e.Native?
    ensures Encoded(e, Utf8(ch)) == UnitsOf(e, PointOf(ch)) && !Continues(Utf8(ch)[0])
  {
    PointBack(ch);
    var s := Utf8(ch);
    DecodingDecodes(s);
    assert UnitsBy(Writing(e), Decoding(s), |s|, |s|) == [];
    assert UnitsOf(e, PointOf(ch)) + [] == UnitsOf(e, PointOf(ch));
  }

  /** Converting a text for output writes the units of its code points. */
  lemma {:induction false} EncodedPoints(e: Encoding, points: seq<nat>)
    requires AreCodePoints(points) && !e.Native?
    ensures Encoded(e, Utf8All(points)) == AllUnits(e, points)
  {
    if points != [] {
      OneEncoded(e, points[0]);
      if |points| > 1 {
        OneEncoded(e, points[1]);
      }
      EncodedPoints(e, points[1..]);
      EncodedSplit(e, Utf8(points[0]), Utf8All(points[1..]));
    }
  }

  /** Reading looks ahead only. */
  lemma ReadShifted(e: Encoding, a: seq<nat>, b: seq<nat>, k: nat)
    requires k < |b|
    ensures ReadAt(e, a + b, |a| + k) == ReadAt(e, b, k)
  {
    assert (a + b)[|a| + k] == b[k];
    assert k + 1 < |b| ==> (a + b)[|a| + k + 1] == b[k + 1];
  }

  /** What is read behind a first unit that takes exactly a. */
  lemma ReadOn(e: Encoding, a: seq<nat>, b: seq<nat>)
    requires a != [] && ReadAt(e, a + b, 0).length == |a|
    ensures Transcoded(e, a + b) == Utf8Units(ReadAt(e, a + b, 0).point) + Transcoded(e, b)
  {
    ReadingDecodes(e, a + b);
    ReadingDecodes(e, b);
    forall j: nat | j < |b| ensures Reading(e, a + b)(|a| + j) == Reading(e, b)(j) {
      ReadShifted(e, a, b, j);
    }
    ShiftBy(WritingTo(Native), Reading(e, a + b), Reading(e, b), |a|, |b|, 0);
  }

  /** Which code points an encoding has: scalar values, all of them, or those below 256. */
  predicate Has(e: Encoding, ch: nat) {
    match e
    case Utf16(_) => ch < 0xD800 || 0xE000 <= ch < 0x11_0000
    case Latin1 => ch < 256
    case _ => true
  }

  predicate HasAll(e: Encoding, points: seq<nat>) {
    forall i | 0 <= i < |points| :: Has(e, points[i])
  }

  /** What comes back of code points that were written. */
  function Back(e: Encoding, points: seq<nat>): seq<nat> {
    Transcoded(e, AllUnits(e, points))
  }

  lemma PointUtf8(ch: nat)
    requires ch < 0x20_0000
    ensures Utf8Units(PointOf(ch)) == AsBytes(Utf8(ch))
  {
    assert ch % MODULUS == ch;
  }

  lemma HighBack(swap: bool, ch: nat, b: seq<nat>)
    requires 0x10000 <= ch < 0x11_0000
    ensures ReadAt(Utf16(swap), UnitsOf(Utf16(swap), High(ch)) + b, 0) == Unit(High(ch), 2)
  {
    var w := Surrogates(ch);
    SurrogatesBack(ch);
    Swapped(w[0]);
    Swapped(w[1]);
    var s := UnitsOf(Utf16(swap), High(ch)) + b;
    assert Unit16(swap, s[0]) == w[0] && Unit16(swap, s[1]) == w[1];
  }

  /** A code point of the encoding is read back from its units. */
  lemma OneBack(e: Encoding, ch: nat, b: seq<nat>)
    requires ch < 0x20_0000 && Has(e, ch) && !e.Native?
    ensures ReadAt(e, UnitsOf(e, PointOf(ch)) + b, 0) == Unit(PointOf(ch), |UnitsOf(e, PointOf(ch))|)
    ensures UnitsOf(e, PointOf(ch)) != []
  {
    if e.Utf16? && ch >= 0x10000 {
      HighBack(e.swap, ch, b);
    } else if e.Utf16? {
      Swapped(ch);
    } else if e.Utf32? {
      SwappedWide(ch);
    }
  }

  /** The first code point belongs to the encoding. */
  lemma BackOne(e: Encoding, points: seq<nat>)
    requires AreCodePoints(points) && points != [] && Has(e, points[0]) && !e.Native?
    ensures Back(e, points) == AsBytes(Utf8(points[0])) + Back(e, points[1..])
  {
    var a, b := UnitsOf(e, PointOf(points[0])), AllUnits(e, points[1..]);
    OneBack(e, points[0], b);
    ReadOn(e, a, b);
    PointUtf8(points[0]);
  }

  /** A unit that belongs to no pair is dropped. */
  lemma UnitDropped(swap: bool, v: nat, b: seq<nat>)
    requires IsLowSurrogate(Unit16(swap, v)) || (IsHighSurrogate(Unit16(swap, v)) && (b == [] || !IsLowSurrogate(Unit16(swap, b[0]))))
    ensures Transcoded(Utf16(swap), [v] + b) == Transcoded(Utf16(swap), b)
  {
    ReadOn(Utf16(swap), [v], b);
  }

  /** Two units that make a pair become four bytes. */
  lemma UnitsPaired(swap: bool, v: nat, x: nat, b: seq<nat>)
    requires IsHighSurrogate(Unit16(swap, v)) && IsLowSurrogate(Unit16(swap, x))
    ensures |Transcoded(Utf16(swap), [v, x] + b)| == 4 + |Transcoded(Utf16(swap), b)|
  {
    ReadOn(Utf16(swap), [v, x], b);
  }

  lemma BeyondDigits(high: nat, low: nat)
    requires 0x400 <= high < 0x7C0 && low < 0x400
    ensures IsLowSurrogate((0xD800 + high) % 0x10000) && IsLowSurrogate(0xDC00 + low)
  {
  }

  lemma BeyondSurrogates(ch: nat)
    requires 0x11_0000 <= ch < 0x20_0000
    ensures var w := Surrogates(ch); IsLowSurrogate(w[0]) && IsLowSurrogate(w[1])
  {
    var v := ch - 0x10000;
    assert (ch + MODULUS - 0x10000) % MODULUS == v;
    BeyondDigits(v / 1024, v % 1024);
  }

  /** The units of a code point beyond the Unicode range. */
  lemma BeyondUnits(swap: bool, ch: nat)
    requires 0x11_0000 <= ch < 0x20_0000
    ensures var a := UnitsOf(Utf16(swap), PointOf(ch));
            |a| == 2 && IsLowSurrogate(Unit16(swap, a[0])) && IsLowSurrogate(Unit16(swap, a[1]))
  {
    var w := Surrogates(ch);
    BeyondSurrogates(ch);
    Swapped(w[0]);
    Swapped(w[1]);
  }

  /** The unit of a surrogate. */
  lemma SurrogateUnit(swap: bool, ch: nat)
    requires 0xD800 <= ch < 0xE000
    ensures var a := UnitsOf(Utf16(swap), PointOf(ch)); |a| == 1 && Unit16(swap, a[0]) == ch
  {
    Swapped(ch);
  }

  lemma BeyondDropped(swap: bool, ch: nat, b: seq<nat>)
    requires 0x11_0000 <= ch < 0x20_0000
    ensures Transcoded(Utf16(swap), UnitsOf(Utf16(swap), PointOf(ch)) + b) == Transcoded(Utf16(swap), b)
  {
    var a := UnitsOf(Utf16(swap), PointOf(ch));
    BeyondUnits(swap, ch);
    UnitDropped(swap, a[0], [a[1]] + b);
    UnitDropped(swap, a[1], b);
    assert a + b == [a[0]] + ([a[1]] + b);
  }

  /** A high surrogate takes the next unit with it if that is a low one. */
  lemma PairedUnits(swap: bool, h: nat, a: seq<nat>, b: seq<nat>)
    requires IsHighSurrogate(Unit16(swap, h)) && 1 <= |a| <= 2 && forall i | 0 <= i < |a| :: IsLowSurrogate(Unit16(swap, a[i]))
    ensures |Transcoded(Utf16(swap), [h] + (a + b))| == 4 + |Transcoded(Utf16(swap), b)|
  {
    UnitsPaired(swap, h, a[0], a[1..] + b);
    assert [h] + (a + b) == [h, a[0]] + (a[1..] + b);
    if |a| == 2 {
      UnitDropped(swap, a[1], b);
      assert a[1..] == [a[1]];
    } else {
      assert a[1..] + b == b;
    }
  }

  lemma PartnerUnits(swap: bool, ch: nat)
    requires ch < 0x20_0000 && (IsLowSurrogate(ch) || ch >= 0x11_0000)
    ensures var a := UnitsOf(Utf16(swap), PointOf(ch));
            1 <= |a| <= 2 && forall i | 0 <= i < |a| :: IsLowSurrogate(Unit16(swap, a[i]))
  {
    if ch >= 0x11_0000 {
      BeyondUnits(swap, ch);
    } else {
      SurrogateUnit(swap, ch);
    }
  }

  lemma PairedShrinks(swap: bool, points: seq<nat>)
    requires AreCodePoints(points) && |points| > 1 && IsHighSurrogate(points[0])
    requires IsLowSurrogate(points[1]) || points[1] >= 0x11_0000
    ensures |Back(Utf16(swap), points)| == 4 + |Back(Utf16(swap), points[2..])|
  {
    var e := Utf16(swap);
    var h, a, rest := FirstTwo(e, points);
    SurrogateUnit(swap, points[0]);
    PartnerUnits(swap, points[1]);
    assert h == [h[0]];
    PairedUnits(swap, h[0], a, rest);
  }

  /** The units of the first two code points and of the others. */
  lemma FirstTwo(e: Encoding, points: seq<nat>) returns (h: seq<nat>, a: seq<nat>, rest: seq<nat>)
    requires |points| > 1
    ensures h == UnitsOf(e, PointOf(points[0])) && a == UnitsOf(e, PointOf(points[1])) && rest == AllUnits(e, points[2..])
    ensures Back(e, points) == Transcoded(e, h + (a + rest)) && Back(e, points[2..]) == Transcoded(e, rest)
  {
    h, a, rest := UnitsOf(e, PointOf(points[0])), UnitsOf(e, PointOf(points[1])), AllUnits(e, points[2..]);
    var tail := points[1..];
    assert tail[0] == points[1] && tail[1..] == points[2..];
    assert AllUnits(e, tail) == a + rest;
    assert AllUnits(e, points) == h + AllUnits(e, tail);
  }

  /** The first unit of the code points decides whether a surrogate before it finds its partner. */
  lemma FirstUnit(swap: bool, points: seq<nat>)
    requires AreCodePoints(points) && points != []
    ensures AllUnits(Utf16(swap), points) != []
    ensures IsLowSurrogate(Unit16(swap, AllUnits(Utf16(swap), points)[0])) <==> IsLowSurrogate(points[0]) || points[0] >= 0x11_0000
  {
    var ch := points[0];
    if ch >= 0x11_0000 {
      BeyondUnits(swap, ch);
    } else if ch >= 0x10000 {
      var w := Surrogates(ch);
      SurrogatesBack(ch);
      Swapped(w[0]);
    } else {
      Swapped(ch);
    }
  }

  /** A surrogate that finds no partner is dropped. */
  lemma LonelyShrinks(swap: bool, points: seq<nat>)
    requires AreCodePoints(points) && points != [] && 0xD800 <= points[0] < 0xE000
    requires IsHighSurrogate(points[0]) ==> |points| == 1 || !(IsLowSurrogate(points[1]) || points[1] >= 0x11_0000)
    ensures Back(Utf16(swap), points) == Back(Utf16(swap), points[1..])
  {
    SurrogateUnit(swap, points[0]);
    if |points| > 1 {
      FirstUnit(swap, points[1..]);
    }
    var a := UnitsOf(Utf16(swap), PointOf(points[0]));
    assert a == [a[0]];
    UnitDropped(swap, a[0], AllUnits(Utf16(swap), points[1..]));
  }

  /** How many bytes the text has. */
  lemma Utf8Length(points: seq<nat>)
    requires AreCodePoints(points) && points != []
    ensures |Utf8All(points)| == |Utf8(points[0])| + |Utf8All(points[1..])|
  {
  }

  lemma QuestionMark(points: seq<nat>)
    requires AreCodePoints(points) && points != [] && points[0] >= 256
    ensures |Back(Latin1, points)| == 1 + |Back(Latin1, points[1..])|
  {
    ReadOn(Latin1, ['?' as nat], AllUnits(Latin1, points[1..]));
  }

  /** A first code point that the encoding does not have comes back shorter, if at all. */
  lemma FirstShrinks(e: Encoding, points: seq<nat>) returns (k: nat)
    requires AreCodePoints(points) && points != [] && !Has(e, points[0])
    ensures 1 <= k <= |points|
    ensures |Back(e, points)| - |Back(e, points[k..])| < |Utf8All(points)| - |Utf8All(points[k..])|
  {
    k := 1;
    Utf8Length(points);
    if e.Latin1? {
      QuestionMark(points);
    } else if points[0] >= 0x11_0000 {
      BeyondDropped(e.swap, points[0], AllUnits(e, points[1..]));
    } else if |points| > 1 && IsHighSurrogate(points[0]) && (IsLowSurrogate(points[1]) || points[1] >= 0x11_0000) {
      PairedShrinks(e.swap, points);
      Utf8Length(points[1..]);
      assert points[1..][1..] == points[2..];
      k := 2;
    } else {
      LonelyShrinks(e.swap, points);
    }
  }

  lemma CodePointsFrom(points: seq<nat>, k: nat)
    requires AreCodePoints(points) && k <= |points|
    ensures AreCodePoints(points[k..])
  {
  }

  /** Nothing grows, and what the encoding does not have shrinks. */
  lemma {:induction false} BackShrinks(e: Encoding, points: seq<nat>)
    requires AreCodePoints(points) && !e.Native?
    ensures |Back(e, points)| <= |Utf8All(points)|
    ensures if HasAll(e, points) then Back(e, points) == AsBytes(Utf8All(points)) else |Back(e, points)| < |Utf8All(points)|
    decreases |points|
  {
    if points != [] {
      CodePointsFrom(points, 1);
      if Has(e, points[0]) {
        BackShrinks(e, points[1..]);
        BackOne(e, points);
        Utf8Length(points);
        BytesSplit(Utf8(points[0]), Utf8All(points[1..]));
        assert HasAll(e, points) <==> HasAll(e, points[1..]);
      } else {
        var k := FirstShrinks(e, points);
        CodePointsFrom(points, k);
        BackShrinks(e, points[k..]);
      }
    }
  }

  /**
   A text that is converted for output and read again comes back if and only if the encoding
   has all of its code points: without surrogates in UTF-16, below 256 in Latin-1, and always in UTF-32.
   */
  lemma ThereAndBack(e: Encoding, points: seq<nat>)
    requires AreCodePoints(points) && !e.Native?
    ensures Transcoded(e, Encoded(e, Utf8All(points))) == AsBytes(Utf8All(points)) <==> HasAll(e, points)
  {
    EncodedPoints(e, points);
    BackShrinks(e, points);
  }
}
