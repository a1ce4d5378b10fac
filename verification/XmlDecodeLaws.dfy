/**
 What becomes of references, line ends and white space in the text of a node (sections 2.11,
 3.3.3, 4.1 and 4.6 of XML 1.0), and which bytes a character number becomes (RFC 3629).
 */
module XmlDecodeLaws {
  import opened Digits
  import opened XmlChars
  import opened XmlDecode
  import opened XmlSurvive

  // ----------------------------------------------------------------- UTF-8 (RFC 3629)

  /** A byte that continues a sequence. */
  predicate Continues(c: char) {
    0x80 <= c as nat < 0xC0
  }

  /**
   Character numbers below 2^21 take as many bytes as RFC 3629 says, the leading byte tells
   how many, and the bits of the number are spread over them from the first to the last.
   */
  lemma Utf8Layout(ch: nat)
    requires ch < 0x200000
    ensures var r := Utf8(ch);
            && |r| == (if ch < 0x80 then 1 else if ch < 0x800 then 2 else if ch < 0x10000 then 3 else 4)
            && (forall k | 1 <= k < |r| :: Continues(r[k]))
            && (|r| == 1 ==> r[0] as nat == ch)
            && (|r| == 2 ==> 0xC0 <= r[0] as nat < 0xE0
                             && (r[0] as nat - 0xC0) * 0x40 + (r[1] as nat - 0x80) == ch)
            && (|r| == 3 ==> 0xE0 <= r[0] as nat < 0xF0
                             && (r[0] as nat - 0xE0) * 0x1000 + (r[1] as nat - 0x80) * 0x40 + (r[2] as nat - 0x80) == ch)
            && (|r| == 4 ==> 0xF0 <= r[0] as nat < 0xF8
                             && (r[0] as nat - 0xF0) * 0x40000 + (r[1] as nat - 0x80) * 0x1000
                                + (r[2] as nat - 0x80) * 0x40 + (r[3] as nat - 0x80) == ch)
  {
    assert ch == ch / 64 * 64 + ch % 64;
    assert ch / 64 == ch / 4096 * 64 + ch / 64 % 64;
    assert ch / 4096 == ch / 0x40000 * 64 + ch / 4096 % 64;
  }

  // ------------------------------------------------------------- character references

  /** The digits of the numbers below 16, from ten on a letter of either case. */
  predicate IsNumeral(d: nat, c: char) {
    if d < 10 then c as nat == '0' as nat + d
    else d < 16 && (c as nat == 'a' as nat + (d - 10) || c as nat == 'A' as nat + (d - 10))
  }

  /** The digits denote n. */
  predicate Denotes(hex: bool, digits: string, n: nat)
    decreases |digits|
  {
    var base := if hex then 16 else 10;
    if digits == "" then n == 0
    else IsNumeral(n % base, digits[|digits| - 1]) && Denotes(hex, digits[..|digits| - 1], n / base)
  }

  lemma DigitKnown(hex: bool, c: char, d: nat)
    requires d < (if hex then 16 else 10) && IsNumeral(d, c)
    ensures IsDigitOf(hex, c) && HexValue(c) == d
  {
  }

  lemma {:induction false} DigitsRead(hex: bool, s: string, k: nat, digits: string, n: nat)
    requires Stands(s, k, digits) && Denotes(hex, digits, n)
    ensures forall j | k <= j < k + |digits| :: IsDigitOf(hex, s[j])
    ensures Number(hex, s, k, k + |digits|) == n % MODULUS
    decreases |digits|
  {
    if digits != "" {
      var base := if hex then 16 else 10;
      var e := k + |digits|;
      var init, last := digits[..|digits| - 1], digits[|digits| - 1];
      assert s[e - 1] == s[k + (|digits| - 1)] == last;
      DigitKnown(hex, last, n % base);
      DigitsRead(hex, s, k, init, n / base);
      assert Number(hex, s, k, e) == (base * Number(hex, s, k, e - 1) + HexValue(s[e - 1])) % MODULUS;
      Wrapped(base, n / base, n % base);
    }
  }

  lemma Wrapped(base: nat, q: nat, d: nat)
    ensures (base * (q % MODULUS) + d) % MODULUS == (base * q + d) % MODULUS
  {
    var k := q / MODULUS;
    assert q == k * MODULUS + q % MODULUS;
    assert base * q + d == base * k * MODULUS + (base * (q % MODULUS) + d);
    ModMore(base * (q % MODULUS) + d, base * k);
  }

  lemma {:induction false} ModMore(x: nat, k: nat)
    ensures (k * MODULUS + x) % MODULUS == x % MODULUS
  {
    if k > 0 {
      ModMore(x, k - 1);
      assert k * MODULUS + x == ((k - 1) * MODULUS + x) + MODULUS;
    }
  }

  lemma {:induction false} DigitsStop(hex: bool, s: string, k: nat, e: nat)
    requires k <= e < |s| && s[e] == ';' && forall j | k <= j < e :: IsDigitOf(hex, s[j])
    ensures DigitsEnd(hex, s, k) == e
    decreases e - k
  {
    if k < e {
      DigitsStop(hex, s, k + 1, e);
    }
  }

  lemma NumberReference(hex: bool, s: string, i: nat, k: nat, e: nat, n: nat)
    requires i + 2 <= k < e < |s| && s[e] == ';' && (forall j | k <= j < e :: IsDigitOf(hex, s[j]))
    requires Number(hex, s, k, e) == n
    ensures IsDigitOf(hex, s[k]) && n < MODULUS && CharReference(hex, s, i, k) == Reference(Utf8(n), e + 1)
  {
    DigitsStop(hex, s, k, e);
  }

  function Head(hex: bool): string {
    if hex then "&#x" else "&#"
  }

  lemma HeadAt(hex: bool, s: string, i: nat)
    requires Stands(s, i, Head(hex)) && (!hex ==> At(s, i + 2) != 'x')
    ensures At(s, i + 1) == '#' && EscapeAt(s, i) == NumericAt(s, i) == CharReference(hex, s, i, i + |Head(hex)|)
  {
    StandsAt(s, i, Head(hex), 1);
    if hex {
      StandsAt(s, i, Head(hex), 2);
    }
  }

  /** Digits at place k, and the number the parser makes of them. */
  predicate ReadsNumber(hex: bool, s: string, k: nat, e: nat, m: nat) {
    k < e < |s| && s[e] == ';' && (forall j | k <= j < e :: IsDigitOf(hex, s[j])) && Number(hex, s, k, e) == m
  }

  lemma DigitsThere(hex: bool, s: string, i: nat, digits: string, n: nat)
    requires digits != "" && Denotes(hex, digits, n) && Stands(s, i, Head(hex) + (digits + ";"))
    ensures Stands(s, i, Head(hex)) && ReadsNumber(hex, s, i + |Head(hex)|, i + |Head(hex)| + |digits|, n % MODULUS)
  {
    var k := i + |Head(hex)|;
    StandsSplit(s, i, Head(hex), digits + ";");
    StandsSplit(s, k, digits, ";");
    StandsAt(s, k + |digits|, ";", 0);
    DigitsRead(hex, s, k, digits, n);
  }

  lemma ReferenceRead(hex: bool, s: string, i: nat, e: nat, m: nat)
    requires Stands(s, i, Head(hex)) && ReadsNumber(hex, s, i + |Head(hex)|, e, m)
    ensures m < MODULUS && EscapeAt(s, i) == Reference(Utf8(m), e + 1)
    ensures CharReference(hex, s, i, i + |Head(hex)|) == EscapeAt(s, i)
  {
    NumberReference(hex, s, i, i + |Head(hex)|, e, m);
    HeadAt(hex, s, i);
  }

  /** `&#...;` and `&#x...;` become the character of that number, which wraps around at 32 bits. */
  lemma CharacterReference(hex: bool, s: string, i: nat, digits: string, n: nat)
    requires digits != "" && Denotes(hex, digits, n) && Stands(s, i, Head(hex) + (digits + ";"))
    ensures EscapeAt(s, i) == Reference(Utf8(n % MODULUS), i + |Head(hex)| + |digits| + 1)
  {
    DigitsThere(hex, s, i, digits, n);
    ReferenceRead(hex, s, i, i + |Head(hex)| + |digits|, n % MODULUS);
  }

  // ------------------------------------------------------------------ named references

  /** The five named references of section 4.6. */
  predicate Names(name: string, c: char) {
    || (name == "&lt;" && c == '<') || (name == "&gt;" && c == '>') || (name == "&amp;" && c == '&')
    || (name == "&quot;" && c == '"') || (name == "&apos;" && c == '\'')
  }

  lemma NamedReference(s: string, i: nat, name: string, c: char)
    requires Names(name, c) && Stands(s, i, name)
    ensures EscapeAt(s, i) == Reference([c], i + |name|)
  {
    match c {
      case '<' =>
        assert name == "&" + NameOf('l');
        NamedBack(s, i, 'l');
      case '>' =>
        assert name == "&" + NameOf('g');
        NamedBack(s, i, 'g');
      case '"' =>
        assert name == "&" + NameOf('q');
        NamedBack(s, i, 'q');
      case '&' => AmpersandBack(s, i);
      case _ => ApostropheBack(s, i);
    }
  }

  // ---------------------------------------------------------------- what is no reference

  /** A reference stands at i, and becomes the text r. */
  ghost predicate IsReference(s: string, i: nat, r: string) {
    || (exists name, c :: Names(name, c) && Stands(s, i, name) && r == [c])
    || (exists hex: bool, digits: string, n: nat :: Numbered(hex, digits, n, s, i) && r == Utf8(n % MODULUS))
  }

  predicate Numbered(hex: bool, digits: string, n: nat, s: string, i: nat) {
    digits != "" && Denotes(hex, digits, n) && Stands(s, i, Head(hex) + (digits + ";"))
  }

  lemma {:induction false} SomeNumber(hex: bool, digits: string) returns (n: nat)
    requires forall k | 0 <= k < |digits| :: IsDigitOf(hex, digits[k])
    ensures Denotes(hex, digits, n)
    decreases |digits|
  {
    if digits == "" {
      n := 0;
    } else {
      var base: nat := if hex then 16 else 10;
      var last := digits[|digits| - 1];
      var d := HexValue(last);
      DigitPlace(hex, last);
      var m := SomeNumber(hex, digits[..|digits| - 1]);
      n := base * m + d;
      Placed(base, m, d);
    }
  }

  lemma Placed(base: nat, m: nat, d: nat)
    requires d < base && (base == 16 || base == 10)
    ensures (base * m + d) / base == m && (base * m + d) % base == d
  {
  }

  lemma DigitPlace(hex: bool, c: char)
    requires IsDigitOf(hex, c)
    ensures var d := HexValue(c); d < (if hex then 16 else 10) && IsNumeral(d, c)
  {
  }

  /** Raw text is kept as it is. */
  predicate IsKept(s: string, i: nat, r: Reference) {
    i <= r.next <= |s| && r.output == s[i..r.next]
  }

  lemma EntityExactly(s: string, i: nat, word: string, c: char)
    requires i < |s| && s[i] == '&' && IsText(word) && Names("&" + word, c)
    ensures var r := EntityReference(s, i, word, c); IsKept(s, i, r) || IsReference(s, i, r.output)
  {
    var m := MatchEnd(s, i + 1, word, 0);
    if m == |word| {
      forall k | 0 <= k < |"&" + word| ensures s[i + k] == ("&" + word)[k] {
        if k > 0 {
          assert s[i + 1 + (k - 1)] == word[k - 1];
        }
      }
      assert Names("&" + word, c) && Stands(s, i, "&" + word);
    }
  }

  lemma NumericExactly(s: string, i: nat)
    requires i < |s| && s[i] == '&' && At(s, i + 1) == '#'
    ensures var r := NumericAt(s, i); IsKept(s, i, r) || IsReference(s, i, r.output)
  {
    var hex := At(s, i + 2) == 'x';
    var k := if hex then i + 3 else i + 2;
    var e := DigitsEnd(hex, s, k);
    if At(s, k) != ';' && At(s, e) == ';' {
      HeadStands(hex, s, i, e);
      SomeReference(hex, s, i, k, s[k..e]);
    }
  }

  lemma SomeReference(hex: bool, s: string, i: nat, k: nat, digits: string)
    requires Stands(s, i, Head(hex) + (digits + ";")) && k == i + |Head(hex)| && digits != ""
    requires forall j | 0 <= j < |digits| :: IsDigitOf(hex, digits[j])
    ensures IsReference(s, i, CharReference(hex, s, i, k).output)
  {
    var n := SomeNumber(hex, digits);
    DigitsThere(hex, s, i, digits, n);
    ReferenceRead(hex, s, i, k + |digits|, n % MODULUS);
    assert Numbered(hex, digits, n, s, i);
  }

  lemma HeadStands(hex: bool, s: string, i: nat, e: nat)
    requires i < |s| && s[i] == '&' && At(s, i + 1) == '#' && (hex ==> At(s, i + 2) == 'x')
    requires i + |Head(hex)| <= e < |s| && s[e] == ';'
    ensures Stands(s, i, Head(hex) + (s[i + |Head(hex)|..e] + ";"))
  {
  }

  /** At an ampersand the text becomes what a reference that stands there means, or is kept as it is. */
  lemma EscapeExactly(s: string, i: nat)
    requires i < |s| && s[i] == '&'
    ensures IsKept(s, i, EscapeAt(s, i)) || IsReference(s, i, EscapeAt(s, i).output)
  {
    var c := At(s, i + 1);
    if c == '#' {
      NumericExactly(s, i);
    } else if c == 'a' {
      AmpOrAposExactly(s, i);
    } else if StartsName(c) {
      NamedExactly(s, i, c);
    }
  }

  lemma AmpOrAposExactly(s: string, i: nat)
    requires i < |s| && s[i] == '&' && At(s, i + 1) == 'a'
    ensures var r := AmpOrAposAt(s, i); IsKept(s, i, r) || IsReference(s, i, r.output)
  {
    if At(s, i + 2) == 'm' {
      assert "&" + "amp;" == "&amp;";
      EntityExactly(s, i, "amp;", '&');
    } else if At(s, i + 2) == 'p' {
      assert "&" + "apos;" == "&apos;";
      EntityExactly(s, i, "apos;", '\'');
    }
  }

  lemma NamedExactly(s: string, i: nat, c: char)
    requires i < |s| && s[i] == '&' && StartsName(c)
    ensures var r := EntityReference(s, i, NameOf(c), NamedBy(c)); IsKept(s, i, r) || IsReference(s, i, r.output)
  {
    assert "&" + "gt;" == "&gt;" && "&" + "lt;" == "&lt;" && "&" + "quot;" == "&quot;";
    EntityExactly(s, i, NameOf(c), NamedBy(c));
  }

  // ---------------------------------------------------------- line ends and white space

  /** The white space of section 2.3: space, tab, line feed and carriage return. */
  predicate IsWhite(c: char) {
    c as nat == 0x20 || c as nat == 0x9 || c as nat == 0xA || c as nat == 0xD
  }

  lemma WhiteSpace(c: char)
    ensures IsSpace(c) <==> IsWhite(c)
  {
  }

  /** A pair of carriage return and line feed at i. */
  predicate Pair(s: string, i: nat) {
    At(s, i) == '\r' && At(s, i + 1) == '\n'
  }

  /** What one raw character becomes that neither ends the text nor begins a reference. */
  lemma RawStep(r: Rules, s: string, i: nat)
    requires i < |s| && !StopAt(r.stop, s, i).Done? && (s[i] == '&' ==> !r.escape)
    ensures StepAt(r, s, i) ==
              if r.lineEnds == ToBlank && IsWhite(s[i]) then More(" ", if Pair(s, i) then i + 2 else i + 1)
              else if r.lineEnds == ToLineFeed && s[i] == '\r' then More("\n", if Pair(s, i) then i + 2 else i + 1)
              else More([s[i]], i + 1)
  {
  }

  /** Where a text ends: at its quotation mark, at a tag or the end of the input, at the mark of its section. */
  lemma EndStep(s: string, i: nat, q: char, endch: char)
    requires i <= |s| && IsText(s) && q != '\0'
    ensures StopAt(AtQuote(q), s, i).Done? <==> Stands(s, i, [q])
    ensures StopAt(AtTag, s, i).Done? <==> Stands(s, i, "<") || i == |s|
    ensures StopAt(AtComment(endch), s, i).Done? <==> Stands(s, i, "-->") || (endch == '>' && Stands(s, i, "--") && i + 2 == |s|)
    ensures StopAt(AtCData(endch), s, i).Done? <==> Stands(s, i, "]]>") || (endch == '>' && Stands(s, i, "]]") && i + 2 == |s|)
  {
    MarkIsAt(s, i, "-->");
    MarkIsAt(s, i, "--");
    MarkIsAt(s, i, "]]>");
    MarkIsAt(s, i, "]]");
    MarkIsAt(s, i, "<");
    MarkIsAt(s, i, [q]);
  }

  lemma MarkIsAt(s: string, i: nat, e: string)
    requires IsText(s) && 1 <= |e| <= 3 && forall k | 0 <= k < |e| :: e[k] != '\0'
    ensures Stands(s, i, e) <==> At(s, i) == e[0] && (|e| > 1 ==> At(s, i + 1) == e[1]) && (|e| > 2 ==> At(s, i + 2) == e[2])
  {
    if Stands(s, i, e) {
      StandsAt(s, i, e, 0);
      if |e| > 1 {
        StandsAt(s, i, e, 1);
      }
      if |e| > 2 {
        StandsAt(s, i, e, 2);
      }
    }
  }

  /** Raw text without markup of any kind, and without pairs that become one character. */
  predicate Raw(v: string, stop: char) {
    IsText(v) && forall k | 0 <= k < |v| :: v[k] != '&' && v[k] != stop && !Pair(v, k)
  }

  /** The text from character i on, with each character replaced by what it becomes. */
  function Mapped(v: string, i: nat, becomes: char -> char): (w: string)
    requires i <= |v|
    ensures |w| == |v| - i && forall k | 0 <= k < |w| :: w[k] == becomes(v[i + k])
  {
    seq(|v| - i, k requires 0 <= k < |v| - i => becomes(v[i + k]))
  }

  lemma MappedCut(v: string, i: nat, becomes: char -> char)
    requires i < |v|
    ensures Mapped(v, i, becomes) == [becomes(v[i])] + Mapped(v, i + 1, becomes)
  {
  }

  function Blanked(c: char): char {
    if IsWhite(c) then ' ' else c
  }

  function Returned(c: char): char {
    if c == '\r' then '\n' else c
  }

  lemma RawHere(v: string, stop: char, rest: string, i: nat)
    requires IsText([stop]) && IsText(rest) && Raw(v, stop) && i <= |v| && stop != '\n'
    ensures var s := v + [stop] + rest;
            && IsText(s) && At(s, i) == (if i < |v| then v[i] else stop)
            && (i < |v| ==> s[i] != '&' && s[i] != stop && !Pair(s, i))
  {
    JoinText(v, [stop]);
    JoinText(v + [stop], rest);
    if i < |v| {
      assert !Pair(v, i);
    }
  }

  /** In a raw attribute value every white space character becomes a blank, and nothing else changes. */
  lemma {:induction false} RawAttribute(v: string, q: char, rest: string, i: nat)
    requires IsText([q]) && IsText(rest) && !IsWhite(q) && q != '&' && Raw(v, q) && i <= |v|
    ensures IsText(v + [q] + rest)
    ensures DecodeFrom(Rules(ToBlank, true, AtQuote(q)), v + [q] + rest, i) == Ended(Mapped(v, i, Blanked), |v| + 1)
    decreases |v| - i
  {
    var s, r := v + [q] + rest, Rules(ToBlank, true, AtQuote(q));
    RawHere(v, q, rest, i);
    if i < |v| {
      RawAttribute(v, q, rest, i + 1);
      RawStep(r, s, i);
      MappedCut(v, i, Blanked);
    }
  }

  /** In raw content every carriage return becomes a line feed, and nothing else changes. */
  lemma {:induction false} RawContent(v: string, rest: string, i: nat)
    requires IsText(rest) && Raw(v, '<') && i <= |v|
    ensures IsText(v + "<" + rest)
    ensures DecodeFrom(Rules(ToLineFeed, true, AtTag), v + "<" + rest, i) == Ended(Mapped(v, i, Returned), |v| + 1)
    decreases |v| - i
  {
    var s, r := v + "<" + rest, Rules(ToLineFeed, true, AtTag);
    RawHere(v, '<', rest, i);
    if i < |v| {
      RawContent(v, rest, i + 1);
      RawStep(r, s, i);
      MappedCut(v, i, Returned);
    }
  }

  /** A pair of carriage return and line feed is read as one line feed would be. */
  lemma PairStep(r: Rules, s: string, i: nat)
    requires IsText(s) && i + 1 < |s| && Pair(s, i) && r.lineEnds != Keep && !StopAt(r.stop, s, i).Done?
    requires !StopAt(r.stop, s, i + 1).Done?
    ensures DecodeFrom(r, s, i) == DecodeFrom(r, s, i + 1)
  {
    RawStep(r, s, i);
    RawStep(r, s, i + 1);
  }

  /** A value without a quotation mark, or a section without its mark, has no end. */
  lemma {:induction false} NoEnd(r: Rules, s: string, i: nat)
    requires IsText(s) && i <= |s| && !r.stop.AtTag? && forall k | i <= k <= |s| :: !StopAt(r.stop, s, k).Done?
    ensures DecodeFrom(r, s, i).Unterminated?
    decreases |s| - i
  {
    StepAdvances(r, s, i);
    var step := StepAt(r, s, i);
    if step.More? {
      NoEnd(r, s, step.next);
    }
  }

  /** Trimming drops the white space at the end, and nothing else. */
  lemma {:induction false} TrimmedExactly(s: string) returns (k: nat)
    ensures k <= |s| && Trimmed(s) == s[..k] && (k > 0 ==> !IsWhite(s[k - 1]))
    ensures forall j | k <= j < |s| :: IsWhite(s[j])
    decreases |s|
  {
    k := |s|;
    if s != "" && IsSpace(s[|s| - 1]) {
      k := TrimmedExactly(s[..|s| - 1]);
    }
  }
}
