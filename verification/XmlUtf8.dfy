/**
 The UTF-8 decoder and the writers of the output encodings: `utf8_decoder`, `utf16_writer`,
 `utf32_writer` and `latin1_writer` (section 3 of RFC 3629, section 2 of RFC 2781).
 */
module XmlUtf8 {
  import opened Wrappers
  import opened XmlChars
  import opened XmlDecode

  /** `(c & 0xc0) == 0x80` */
  predicate Continues(c: char) {
    0x80 <= c as nat < 0xC0
  }

  function Tail(c: char): nat {
    c as nat % 64
  }

  // -------------------------------------------------------------------- decoding

  /** What the decoder hands on: a code point through `low` or `high`, or nothing for an invalid byte. */
  datatype Point = Low(ch: nat) | High(ch: nat) | Invalid

  /** One code point or invalid byte, and how many bytes it takes. */
  datatype Unit = Unit(point: Point, length: nat)

  /** The next n bytes behind position i continue the sequence that begins there. */
  predicate Follow(s: string, i: nat, n: nat) {
    i + n < |s| && forall k | i < k <= i + n :: Continues(s[k])
  }

  /** One round of the loop of `utf8_decoder::process`. */
  function UnitAt(s: string, i: nat): (u: Unit)
    requires i < |s|
    ensures 1 <= u.length <= 4 && i + u.length <= |s|
    ensures u.length > 1 ==> Follow(s, i, u.length - 1) && s[i] as nat >= 0xC0
  {
    var lead := s[i] as nat;
    if lead < 0x80 then Unit(Low(lead), 1)
    else if 0xC0 <= lead < 0xE0 && Follow(s, i, 1) then Unit(Low((lead - 0xC0) * 64 + Tail(s[i + 1])), 2)
    else if 0xE0 <= lead < 0xF0 && Follow(s, i, 2) then
      Unit(Low((lead - 0xE0) * 4096 + Tail(s[i + 1]) * 64 + Tail(s[i + 2])), 3)
    else if 0xF0 <= lead < 0xF8 && Follow(s, i, 3) then
      Unit(High((lead - 0xF0) * 0x40000 + Tail(s[i + 1]) * 4096 + Tail(s[i + 2]) * 64 + Tail(s[i + 3])), 4)
    else Unit(Invalid, 1)
  }

  // --------------------------------------------------------------------- writing

  /** Where output goes: the native encoding is UTF-8 and needs no conversion. */
  datatype Encoding = Native | Utf16(swap: bool) | Utf32(swap: bool) | Latin1

  function Swap16(v: nat): nat {
    v % 256 * 256 + v / 256 % 256
  }

  function Swap32(v: nat): nat {
    v % 256 * 0x100_0000 + v / 256 % 256 * 0x1_0000 + v / 0x1_0000 % 256 * 256 + v / 0x100_0000 % 256
  }

  /** `utf16_writer::high`, on 32-bit integers. */
  function Surrogates(ch: nat): seq<nat> {
    var v := (ch + MODULUS - 0x10000) % MODULUS;
    [(0xD800 + v / 1024) % 0x10000, 0xDC00 + v % 1024]
  }

  /** The units written for one code point. */
  function UnitsOf(encoding: Encoding, p: Point): (r: seq<nat>)
    ensures |r| <= 2 && (!encoding.Utf16? || !p.High? ==> |r| <= 1)
  {
    match (encoding, p)
    case (_, Invalid) => []
    case (Native, _) => []
    case (Utf16(swap), Low(ch)) => [if swap then Swap16(ch) else ch]
    case (Utf16(swap), High(ch)) => var w := Surrogates(ch); if swap then [Swap16(w[0]), Swap16(w[1])] else w
    case (Utf32(swap), _) => [if swap then Swap32(p.ch) else p.ch]
    case (Latin1, Low(ch)) => [if ch > 255 then '?' as nat else ch]
    case (Latin1, High(_)) => ['?' as nat]
  }

  type Decoder = nat -> Unit
  type Writer = Point -> seq<nat>

  ghost predicate Decodes(u: Decoder, n: nat) {
    forall i: nat | i < n :: 1 <= u(i).length && i + u(i).length <= n
  }

  /** The units written for what is decoded from byte i on. */
  function UnitsBy(w: Writer, u: Decoder, n: nat, i: nat): seq<nat>
    requires Decodes(u, n) && i <= n
    decreases n - i
  {
    if i == n then [] else w(u(i).point) + UnitsBy(w, u, n, i + u(i).length)
  }

  function Decoding(s: string): Decoder {
    (i: nat) => if i < |s| then UnitAt(s, i) else Unit(Invalid, 1)
  }

  function Writing(encoding: Encoding): Writer {
    p => UnitsOf(encoding, p)
  }

  lemma DecodingDecodes(s: string)
    ensures Decodes(Decoding(s), |s|)
  {
  }

  /** A text in the native encoding. */
  function AsBytes(s: string): (r: seq<nat>)
    ensures |r| == |s| && forall i | 0 <= i < |s| :: r[i] == s[i] as nat
  {
    seq(|s|, i requires 0 <= i < |s| => s[i] as nat)
  }

  /** A text in the output encoding. */
  function Encoded(encoding: Encoding, s: string): seq<nat> {
    if encoding.Native? then AsBytes(s)
    else
      DecodingDecodes(s);
      UnitsBy(Writing(encoding), Decoding(s), |s|, 0)
  }

  function UnitSize(encoding: Encoding): nat {
    match encoding
    case Utf16(_) => 2
    case Utf32(_) => 4
    case _ => 1
  }

  lemma {:induction false} FitBy(w: Writer, u: Decoder, n: nat, i: nat, size: nat)
    requires Decodes(u, n) && i <= n && forall k: nat | k < n :: |w(u(k).point)| * size <= 4 * u(k).length
    ensures |UnitsBy(w, u, n, i)| * size <= 4 * (n - i)
    decreases n - i
  {
    if i < n {
      FitBy(w, u, n, i + u(i).length, size);
      Distribute(|w(u(i).point)|, |UnitsBy(w, u, n, i + u(i).length)|, size);
    }
  }

  lemma Distribute(a: nat, b: nat, size: nat)
    ensures (a + b) * size == a * size + b * size
  {
  }

  lemma OneFits(encoding: Encoding, s: string, k: nat)
    requires k < |s|
    ensures |UnitsOf(encoding, UnitAt(s, k).point)| * UnitSize(encoding) <= 4 * UnitAt(s, k).length
  {
  }

  /** A converted text takes at most four bytes for each of its own. */
  lemma EncodedFits(encoding: Encoding, s: string)
    ensures |Encoded(encoding, s)| * UnitSize(encoding) <= 4 * |s|
  {
    if !encoding.Native? {
      forall k: nat | k < |s| {
        OneFits(encoding, s, k);
      }
      DecodingDecodes(s);
      FitBy(Writing(encoding), Decoding(s), |s|, 0, UnitSize(encoding));
    }
  }

  // ----------------------------------------------------------- cutting a text in two

  /** The last n bytes continue a sequence. */
  predicate EndsContinuing(s: string, n: nat) {
    n <= |s| && forall k | |s| - n <= k < |s| :: Continues(s[k])
  }

  /** A place where a text may be cut: no sequence that begins before it needs bytes behind it. */
  predicate Cut(encoding: Encoding, a: string, b: string) {
    encoding.Native? || b == "" || !Continues(b[0]) || EndsContinuing(a, 3)
  }

  lemma UnitShifted(a: string, b: string, k: nat)
    requires k < |b|
    ensures UnitAt(a + b, |a| + k) == UnitAt(b, k)
  {
    var s := a + b;
    assert forall j | k <= j < |b| :: s[|a| + j] == b[j];
    forall n: nat ensures Follow(s, |a| + k, n) <==> Follow(b, k, n) {
      assert forall j | |a| + k < j <= |a| + k + n && j < |s| :: s[j] == b[j - |a|];
      assert forall j | k < j <= k + n && j < |b| :: b[j] == s[j + |a|];
    }
  }

  lemma {:induction false} ShiftBy(w: Writer, u: Decoder, v: Decoder, a: nat, n: nat, k: nat)
    requires Decodes(u, a + n) && Decodes(v, n) && k <= n && forall j: nat | j < n :: u(a + j) == v(j)
    ensures UnitsBy(w, u, a + n, a + k) == UnitsBy(w, v, n, k)
    decreases n - k
  {
    if k < n {
      ShiftBy(w, u, v, a, n, k + v(k).length);
    }
  }

  /** x and v decode the two parts of what u decodes. */
  ghost predicate Parted(u: Decoder, x: Decoder, v: Decoder, a: nat, n: nat) {
    && Decodes(u, a + n) && Decodes(x, a) && Decodes(v, n)
    && (forall j: nat | j < a :: u(j) == x(j)) && forall j: nat | j < n :: u(a + j) == v(j)
  }

  lemma {:induction false} SplitBy(w: Writer, u: Decoder, x: Decoder, v: Decoder, a: nat, n: nat, i: nat)
    requires Parted(u, x, v, a, n) && i <= a
    ensures UnitsBy(w, u, a + n, i) == UnitsBy(w, x, a, i) + UnitsBy(w, v, n, 0)
    decreases a - i
  {
    if i == a {
      ShiftBy(w, u, v, a, n, 0);
    } else {
      SplitBy(w, u, x, v, a, n, i + x(i).length);
      Regroup(w(x(i).point), UnitsBy(w, x, a, i + x(i).length), UnitsBy(w, v, n, 0));
    }
  }

  lemma BytesSplit(a: string, b: string)
    ensures AsBytes(a + b) == AsBytes(a) + AsBytes(b)
  {
  }

  /** No sequence that begins before the cut goes on behind it. */
  ghost predicate Whole(a: string, b: string) {
    forall i: nat | i < |a| :: i + Decoding(a + b)(i).length <= |a|
  }

  /** What follows a position before the cut is the same without the rest, unless it reaches behind the cut. */
  lemma FollowCut(a: string, b: string, i: nat, n: nat)
    requires i < |a|
    ensures Follow(a, i, n) <==> Follow(a + b, i, n) && i + n < |a|
  {
    assert forall k | 0 <= k < |a| :: (a + b)[k] == a[k];
  }

  lemma UnitCut(a: string, b: string, i: nat)
    requires i < |a|
    ensures UnitAt(a, i) == if i + UnitAt(a + b, i).length <= |a| then UnitAt(a + b, i) else Unit(Invalid, 1)
  {
    FollowCut(a, b, i, 1);
    FollowCut(a, b, i, 2);
    FollowCut(a, b, i, 3);
    assert forall k | 0 <= k < |a| :: (a + b)[k] == a[k];
  }

  lemma DecodingCut(a: string, b: string)
    ensures forall j: nat | j < |a| && j + Decoding(a + b)(j).length <= |a| :: Decoding(a + b)(j) == Decoding(a)(j)
    ensures forall j: nat | j < |b| :: Decoding(a + b)(|a| + j) == Decoding(b)(j)
  {
    forall j: nat | j < |a| && j + Decoding(a + b)(j).length <= |a| ensures Decoding(a + b)(j) == Decoding(a)(j) {
      UnitCut(a, b, j);
    }
    forall j: nat | j < |b| ensures Decoding(a + b)(|a| + j) == Decoding(b)(j) {
      UnitShifted(a, b, j);
    }
  }

  /** How a text and its two parts are converted. */
  lemma Decoders(encoding: Encoding, a: string, b: string) returns (w: Writer, u: Decoder, x: Decoder, v: Decoder)
    requires !encoding.Native?
    ensures w == Writing(encoding) && u == Decoding(a + b) && x == Decoding(a) && v == Decoding(b)
    ensures Decodes(u, |a| + |b|) && Decodes(x, |a|) && Decodes(v, |b|)
    ensures Encoded(encoding, a + b) == UnitsBy(w, u, |a| + |b|, 0)
    ensures Encoded(encoding, a) == UnitsBy(w, x, |a|, 0) && Encoded(encoding, b) == UnitsBy(w, v, |b|, 0)
  {
    w, u, x, v := Writing(encoding), Decoding(a + b), Decoding(a), Decoding(b);
    DecodingDecodes(a + b);
    DecodingDecodes(a);
    DecodingDecodes(b);
  }

  lemma WholeParted(a: string, b: string)
    requires Whole(a, b)
    ensures Parted(Decoding(a + b), Decoding(a), Decoding(b), |a|, |b|)
  {
    DecodingDecodes(a + b);
    DecodingDecodes(a);
    DecodingDecodes(b);
    DecodingCut(a, b);
  }

  lemma WholeDecoders(encoding: Encoding, a: string, b: string) returns (w: Writer, u: Decoder, x: Decoder, v: Decoder)
    requires !encoding.Native? && Whole(a, b)
    ensures Parted(u, x, v, |a|, |b|)
    ensures Encoded(encoding, a + b) == UnitsBy(w, u, |a| + |b|, 0)
    ensures Encoded(encoding, a) == UnitsBy(w, x, |a|, 0) && Encoded(encoding, b) == UnitsBy(w, v, |b|, 0)
  {
    w, u, x, v := Decoders(encoding, a, b);
    WholeParted(a, b);
  }

  lemma ConvertedWhole(encoding: Encoding, a: string, b: string)
    requires !encoding.Native? && Whole(a, b)
    ensures Encoded(encoding, a + b) == Encoded(encoding, a) + Encoded(encoding, b)
  {
    var w, u, x, v := WholeDecoders(encoding, a, b);
    SplitBy(w, u, x, v, |a|, |b|, 0);
  }

  // ------------------------------------------------------- a sequence across the cut

  /** Two decoders that agree up to a position where both begin a sequence differ only in what comes after it. */
  lemma {:induction false} AgreeBefore(w: Writer, u: Decoder, x: Decoder, n: nat, m: nat, i: nat, c: nat)
    requires Decodes(u, n) && Decodes(x, m) && i <= c <= n && c <= m
    requires forall j: nat | j < c :: u(j) == x(j) && j + u(j).length <= c
    ensures |UnitsBy(w, u, n, i)| - |UnitsBy(w, u, n, c)| == |UnitsBy(w, x, m, i)| - |UnitsBy(w, x, m, c)|
    decreases c - i
  {
    if i < c {
      AgreeBefore(w, u, x, n, m, i + u(i).length, c);
    }
  }

  /** Invalid bytes leave nothing. */
  lemma {:induction false} Skipped(w: Writer, u: Decoder, n: nat, i: nat, c: nat)
    requires Decodes(u, n) && i <= c <= n && w(Invalid) == [] && forall j: nat | i <= j < c :: u(j) == Unit(Invalid, 1)
    ensures UnitsBy(w, u, n, i) == UnitsBy(w, u, n, c)
    decreases c - i
  {
    if i < c {
      Skipped(w, u, n, i + 1, c);
    }
  }

  lemma LosesBefore(w: Writer, u: Decoder, x: Decoder, n: nat, a: nat, i: nat)
    requires Decodes(u, n) && Decodes(x, a) && i < a <= n && w(Invalid) == []
    requires forall j: nat | j < i :: u(j) == x(j) && j + u(j).length <= i
    requires forall j: nat | i <= j < a :: x(j) == Unit(Invalid, 1)
    ensures |UnitsBy(w, u, n, 0)| == |UnitsBy(w, x, a, 0)| + |UnitsBy(w, u, n, i)|
  {
    AgreeBefore(w, u, x, n, a, 0, i);
    Skipped(w, x, a, i, a);
  }

  lemma LosesBehind(w: Writer, u: Decoder, v: Decoder, a: nat, n: nat, rest: nat)
    requires Decodes(u, a + n) && Decodes(v, n) && rest <= n && w(Invalid) == []
    requires (forall j: nat | j < rest :: v(j) == Unit(Invalid, 1)) && forall j: nat | j < n :: u(a + j) == v(j)
    ensures UnitsBy(w, v, n, 0) == UnitsBy(w, u, a + n, a + rest)
  {
    Skipped(w, v, n, 0, rest);
    ShiftBy(w, u, v, a, n, rest);
  }

  /** The sequence that u decodes at position i goes across the cut at a; x and v decode the two parts. */
  ghost predicate Crossed(w: Writer, u: Decoder, x: Decoder, v: Decoder, a: nat, n: nat, i: nat) {
    && Decodes(u, a + n) && Decodes(x, a) && Decodes(v, n) && i < a < i + u(i).length && w(Invalid) == []
    && (forall j: nat | j < i :: u(j) == x(j) && j + u(j).length <= i)
    && (forall j: nat | i <= j < a :: x(j) == Unit(Invalid, 1))
    && (forall j: nat | j < i + u(i).length - a :: v(j) == Unit(Invalid, 1))
    && forall j: nat | j < n :: u(a + j) == v(j)
  }

  /** The bytes of a sequence across the cut are lost on both sides of it. */
  lemma Loses(w: Writer, u: Decoder, x: Decoder, v: Decoder, a: nat, n: nat, i: nat)
    requires Crossed(w, u, x, v, a, n, i)
    ensures |UnitsBy(w, u, a + n, 0)| == |UnitsBy(w, x, a, 0)| + |UnitsBy(w, v, n, 0)| + |w(u(i).point)|
  {
    LosesBefore(w, u, x, a + n, a, i);
    LosesBehind(w, u, v, a, n, i + u(i).length - a);
  }

  /** No sequence begun before a leading byte takes that byte in. */
  lemma BeforeLead(s: string, i: nat, j: nat)
    requires j < i < |s| && s[i] as nat >= 0xC0
    ensures j + UnitAt(s, j).length <= i
  {
  }

  lemma ContinuingInvalid(s: string, i: nat)
    requires i < |s| && Continues(s[i])
    ensures UnitAt(s, i) == Unit(Invalid, 1)
  {
  }

  /** A sequence that crosses the cut begins where decoding comes by, and is invalid on both sides. */
  lemma Crosses(a: string, b: string, i: nat)
    requires i < |a| < i + UnitAt(a + b, i).length
    ensures forall j: nat | j < i :: Decoding(a + b)(j) == Decoding(a)(j) && j + Decoding(a + b)(j).length <= i
    ensures forall j: nat | i <= j < |a| :: Decoding(a)(j) == Unit(Invalid, 1)
    ensures forall j: nat | j < i + UnitAt(a + b, i).length - |a| :: Decoding(b)(j) == Unit(Invalid, 1)
  {
    var s := a + b;
    forall j: nat | j < i ensures Decoding(s)(j) == Decoding(a)(j) && j + Decoding(s)(j).length <= i {
      BeforeLead(s, i, j);
      UnitCut(a, b, j);
    }
    forall j: nat | i <= j < |a| ensures Decoding(a)(j) == Unit(Invalid, 1) {
      if j == i {
        UnitCut(a, b, i);
      } else {
        assert a[j] == s[j];
        ContinuingInvalid(a, j);
      }
    }
    forall j: nat | j < i + UnitAt(s, i).length - |a| ensures Decoding(b)(j) == Unit(Invalid, 1) {
      assert b[j] == s[|a| + j];
      ContinuingInvalid(b, j);
    }
  }

  lemma CrossingDecoders(encoding: Encoding, a: string, b: string, i: nat)
    returns (w: Writer, u: Decoder, x: Decoder, v: Decoder)
    requires !encoding.Native? && i < |a| < i + UnitAt(a + b, i).length
    ensures Crossed(w, u, x, v, |a|, |b|, i) && w(u(i).point) != []
    ensures Encoded(encoding, a + b) == UnitsBy(w, u, |a| + |b|, 0)
    ensures Encoded(encoding, a) == UnitsBy(w, x, |a|, 0) && Encoded(encoding, b) == UnitsBy(w, v, |b|, 0)
  {
    w, u, x, v := Decoders(encoding, a, b);
    DecodingCut(a, b);
    Crosses(a, b, i);
  }

  lemma ConvertedLoses(encoding: Encoding, a: string, b: string, i: nat)
    requires !encoding.Native? && i < |a| < i + UnitAt(a + b, i).length
    ensures |Encoded(encoding, a + b)| > |Encoded(encoding, a)| + |Encoded(encoding, b)|
  {
    var w, u, x, v := CrossingDecoders(encoding, a, b, i);
    Loses(w, u, x, v, |a|, |b|, i);
  }

  /** Encoding distributes over a cut if and only if there is nothing to convert or no sequence goes across the cut. */
  lemma SplitExactly(encoding: Encoding, a: string, b: string)
    ensures Encoded(encoding, a + b) == Encoded(encoding, a) + Encoded(encoding, b) <==> encoding.Native? || Whole(a, b)
  {
    if encoding.Native? {
      BytesSplit(a, b);
    } else if Whole(a, b) {
      ConvertedWhole(encoding, a, b);
    } else {
      var i: nat :| i < |a| && i + Decoding(a + b)(i).length > |a|;
      ConvertedLoses(encoding, a, b, i);
    }
  }

  /** A sequence that needs bytes behind the cut does not find them. */
  lemma NoneAcross(a: string, b: string, i: nat)
    requires i < |a| && (b == "" || !Continues(b[0]) || EndsContinuing(a, 3))
    ensures i + UnitAt(a + b, i).length <= |a|
  {
    var s := a + b;
    assert s[i] == a[i] && (b != "" ==> s[|a|] == b[0]);
    assert EndsContinuing(a, 3) && |a| < i + 4 ==> Continues(a[i]);
  }

  /** A cut before a byte that begins a sequence, or behind three that continue one, goes through no sequence. */
  lemma CutWhole(a: string, b: string)
    requires b == "" || !Continues(b[0]) || EndsContinuing(a, 3)
    ensures Whole(a, b)
  {
    forall i: nat | i < |a| ensures i + Decoding(a + b)(i).length <= |a| {
      NoneAcross(a, b, i);
    }
  }

  /** Encoding distributes over a text that is cut where it may be. */
  lemma EncodedSplit(encoding: Encoding, a: string, b: string)
    requires Cut(encoding, a, b)
    ensures Encoded(encoding, a + b) == Encoded(encoding, a) + Encoded(encoding, b)
  {
    if !encoding.Native? {
      CutWhole(a, b);
    }
    SplitExactly(encoding, a, b);
  }

  /** A text that is cut inside a sequence loses the code point. */
  lemma SplitLoses()
    ensures var lead, tail := [0xC3 as char], [0xA9 as char];
            && Encoded(Utf32(false), lead + tail) == [0xE9]
            && Encoded(Utf32(false), lead) == [] && Encoded(Utf32(false), tail) == []
  {
    var lead, tail := [0xC3 as char], [0xA9 as char];
    DecodingDecodes(lead);
    DecodingDecodes(tail);
    DecodingDecodes(lead + tail);
    assert UnitAt(lead + tail, 0) == Unit(Low(0xE9), 2);
    assert UnitAt(lead, 0) == Unit(Invalid, 1) && UnitAt(tail, 0) == Unit(Invalid, 1);
  }

  // -------------------------------------------------------------------- round trip

  lemma Digits(ch: nat)
    ensures ch == ch / 64 * 64 + ch % 64
    ensures ch / 64 == ch / 4096 * 64 + ch / 64 % 64
    ensures ch / 4096 == ch / 0x40000 * 64 + ch / 4096 % 64
  {
  }

  lemma PairBack(ch: nat)
    requires 0x80 <= ch < 0x800
    ensures UnitAt(Utf8(ch), 0) == Unit(Low(ch), 2)
  {
    Digits(ch);
  }

  lemma TripleBack(ch: nat)
    requires 0x800 <= ch < 0x10000
    ensures UnitAt(Utf8(ch), 0) == Unit(Low(ch), 3)
  {
    Digits(ch);
    var s := Utf8(ch);
    assert s[0] as nat == 0xE0 + ch / 4096 && Tail(s[1]) == ch / 64 % 64 && Tail(s[2]) == ch % 64;
  }

  lemma QuadrupleBack(ch: nat)
    requires 0x10000 <= ch < 0x20_0000
    ensures UnitAt(Utf8(ch), 0) == Unit(High(ch), 4)
  {
    Digits(ch);
    var s := Utf8(ch);
    assert s[0] as nat == 0xF0 + ch / 0x40000;
    assert Tail(s[1]) == ch / 4096 % 64 && Tail(s[2]) == ch / 64 % 64 && Tail(s[3]) == ch % 64;
  }

  /** `utf8_writer` takes every code point below 2^21 to bytes that decode to it. */
  lemma PointBack(ch: nat)
    requires ch < 0x20_0000
    ensures UnitAt(Utf8(ch), 0) == Unit(if ch < 0x10000 then Low(ch) else High(ch), |Utf8(ch)|)
  {
    if 0x80 <= ch < 0x800 {
      PairBack(ch);
    } else if 0x800 <= ch < 0x10000 {
      TripleBack(ch);
    } else if 0x10000 <= ch {
      QuadrupleBack(ch);
    }
  }

  function Utf8All(points: seq<nat>): string
    requires forall i | 0 <= i < |points| :: points[i] < 0x20_0000
  {
    if points == [] then "" else Utf8(points[0]) + Utf8All(points[1..])
  }

  lemma OnePoint(ch: nat)
    requires ch < 0x20_0000
    ensures Encoded(Utf32(false), Utf8(ch)) == [ch] && !Continues(Utf8(ch)[0])
  {
    PointBack(ch);
    var s := Utf8(ch);
    DecodingDecodes(s);
    assert UnitsBy(Writing(Utf32(false)), Decoding(s), |s|, |s|) == [];
  }

  /** Decoding UTF-8 gives back the code points it was written for. */
  lemma {:induction false} PointsBack(points: seq<nat>)
    requires forall i | 0 <= i < |points| :: points[i] < 0x20_0000
    ensures Encoded(Utf32(false), Utf8All(points)) == points
  {
    if points != [] {
      var rest := Utf8All(points[1..]);
      OnePoint(points[0]);
      if |points| > 1 {
        OnePoint(points[1]);
      }
      PointsBack(points[1..]);
      EncodedSplit(Utf32(false), Utf8(points[0]), rest);
      assert points == [points[0]] + points[1..];
    }
  }

  /** A surrogate pair stands for the code point it was written for, as `utf16_decoder` puts it together. */
  lemma SurrogatesBack(ch: nat)
    requires 0x10000 <= ch < 0x11_0000
    ensures var w := Surrogates(ch);
            && 0xD800 <= w[0] < 0xDC00 && 0xDC00 <= w[1] < 0xE000
            && 0x10000 + w[0] % 0x400 * 0x400 + w[1] % 0x400 == ch
  {
    var v := ch - 0x10000;
    assert (ch + MODULUS - 0x10000) % MODULUS == v;
    SurrogateDigits(v / 0x400, v % 0x400);
  }

  lemma SurrogateDigits(high: nat, low: nat)
    requires high < 0x400 && low < 0x400
    ensures (0xD800 + high) % 0x400 == high && (0xDC00 + low) % 0x400 == low && (0xD800 + high) % 0x10000 == 0xD800 + high
  {
  }

  // ------------------------------------------------------------------ the conversion

  /** What is written for the first bytes of a text, and what is still to come. */
  ghost predicate Converting(w: Writer, u: Decoder, n: nat, i: nat, units: seq<nat>) {
    Decodes(u, n) && i <= n && units + UnitsBy(w, u, n, i) == UnitsBy(w, u, n, 0)
  }

  lemma ConvertOne(w: Writer, u: Decoder, n: nat, i: nat, units: seq<nat>)
    requires Converting(w, u, n, i, units) && i < n
    ensures Converting(w, u, n, i + u(i).length, units + w(u(i).point))
  {
    Regroup(units, w(u(i).point), UnitsBy(w, u, n, i + u(i).length));
  }

  /** `utf8_decoder::process`: single bytes are taken four at a time where the data is aligned. */
  method Process(encoding: Encoding, data: string, address: nat) returns (units: seq<nat>)
    requires !encoding.Native?
    ensures units == Encoded(encoding, data)
  {
    ghost var w, u := Writing(encoding), Decoding(data);
    DecodingDecodes(data);
    assert AsciiThrough(encoding, data, w, u);
    units := [];
    var i := 0;
    assert [] + UnitsBy(w, u, |data|, 0) == UnitsBy(w, u, |data|, 0);
    while i < |data|
      invariant Converting(w, u, |data|, i, units)
      decreases |data| - i
    {
      var one := UnitAt(data, i);
      ConvertOne(w, u, |data|, i, units);
      units := units + UnitsOf(encoding, one.point);
      i := i + one.length;
      if one.point.Low? && one.length == 1 && (address + i) % 4 == 0 {
        i, units := ProcessBlocks(encoding, data, i, units, w, u);
      }
    }
    assert units + [] == units;
  }

  predicate IsAscii(s: string, i: nat) {
    i < |s| && s[i] as nat < 0x80
  }

  /** Single bytes stand for themselves. */
  ghost predicate AsciiThrough(encoding: Encoding, data: string, w: Writer, u: Decoder) {
    forall i: nat {:trigger u(i)} | IsAscii(data, i) ::
      u(i) == Unit(Low(data[i] as nat), 1) && w(Low(data[i] as nat)) == UnitsOf(encoding, Low(data[i] as nat))
  }

  /** Writes a single byte as the code point it is. */
  method PushAscii(encoding: Encoding, data: string, i: nat, units0: seq<nat>, ghost w: Writer, ghost u: Decoder) returns (units: seq<nat>)
    requires AsciiThrough(encoding, data, w, u)
    requires Converting(w, u, |data|, i, units0) && IsAscii(data, i)
    ensures Converting(w, u, |data|, i + 1, units)
  {
    ConvertOne(w, u, |data|, i, units0);
    units := units0 + UnitsOf(encoding, Low(data[i] as nat));
  }

  /** Writes two single bytes. */
  method PushPair(encoding: Encoding, data: string, i: nat, units0: seq<nat>, ghost w: Writer, ghost u: Decoder) returns (units: seq<nat>)
    requires AsciiThrough(encoding, data, w, u)
    requires Converting(w, u, |data|, i, units0) && IsAscii(data, i) && IsAscii(data, i + 1)
    ensures Converting(w, u, |data|, i + 2, units)
  {
    units := PushAscii(encoding, data, i, units0, w, u);
    units := PushAscii(encoding, data, i + 1, units, w, u);
  }

  /** The inner loop over aligned blocks of four single bytes. */
  method ProcessBlocks(encoding: Encoding, data: string, start: nat, units0: seq<nat>, ghost w: Writer, ghost u: Decoder)
    returns (i: nat, units: seq<nat>)
    requires AsciiThrough(encoding, data, w, u) && Converting(w, u, |data|, start, units0)
    ensures start <= i && Converting(w, u, |data|, i, units)
  {
    i, units := start, units0;
    while IsAscii(data, i) && IsAscii(data, i + 1) && IsAscii(data, i + 2) && IsAscii(data, i + 3)
      invariant start <= i && Converting(w, u, |data|, i, units)
      decreases |data| - i
    {
      units := PushPair(encoding, data, i, units, w, u);
      units := PushPair(encoding, data, i + 2, units, w, u);
      i := i + 4;
    }
  }
}
