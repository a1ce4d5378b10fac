/**
 What the parser makes of the text of a node: line ends, character and entity references,
 and where the text ends (sections 2.11, 3.3.3 and 4.1 of XML 1.0).
 */
module XmlDecode {
  import opened Digits
  import opened XmlChars

  const MODULUS: nat := 0x1_0000_0000

  // ------------------------------------------------------------------- references

  function Byte(n: nat): char
    requires n < 256
  {
    n as char
  }

  /** `utf8_writer::any`: one to four bytes; beyond the Unicode range the leading byte is cut off. */
  function Utf8(ch: nat): (r: string)
    requires ch < MODULUS
    ensures 1 <= |r| <= 4
  {
    if ch < 0x80 then [Byte(ch)]
    else if ch < 0x800 then [Byte(0xC0 + ch / 64), Byte(0x80 + ch % 64)]
    else if ch < 0x10000 then [Byte(0xE0 + ch / 4096), Byte(0x80 + ch / 64 % 64), Byte(0x80 + ch % 64)]
    else [Byte(0xF0 + ch / 0x40000 % 16), Byte(0x80 + ch / 4096 % 64), Byte(0x80 + ch / 64 % 64), Byte(0x80 + ch % 64)]
  }

  predicate IsHexDigit(c: char) {
    IsDigit(c) || 'a' <= c <= 'f' || 'A' <= c <= 'F'
  }

  function HexValue(c: char): nat
    requires IsHexDigit(c)
  {
    if IsDigit(c) then c as nat - '0' as nat
    else if c >= 'a' then c as nat - 'a' as nat + 10
    else c as nat - 'A' as nat + 10
  }

  predicate IsDigitOf(hex: bool, c: char) {
    if hex then IsHexDigit(c) else IsDigit(c)
  }

  /** The first position from k on that holds no digit. */
  function DigitsEnd(hex: bool, s: string, k: nat): (r: nat)
    requires k <= |s|
    ensures k <= r <= |s| && !IsDigitOf(hex, At(s, r)) && forall j | k <= j < r :: IsDigitOf(hex, s[j])
    decreases |s| - k
  {
    if IsDigitOf(hex, At(s, k)) then DigitsEnd(hex, s, k + 1) else k
  }

  /** The number written by the digits s[k..e], wrapping around at 32 bits. */
  function Number(hex: bool, s: string, k: nat, e: nat): (r: nat)
    requires k <= e <= |s| && forall j | k <= j < e :: IsDigitOf(hex, s[j])
    ensures r < MODULUS
  {
    if e == k then 0
    else
      assert IsDigitOf(hex, s[e - 1]);
      ((if hex then 16 else 10) * Number(hex, s, k, e - 1) + HexValue(s[e - 1])) % MODULUS
  }

  /** What a reference becomes and where reading goes on; anything that is no reference is kept as it is. */
  datatype Reference = Reference(output: string, next: nat)

  function Verbatim(s: string, i: nat, next: nat): Reference
    requires i <= next <= |s|
  {
    Reference(s[i..next], next)
  }

  /** A character reference whose digits start at k. */
  function CharReference(hex: bool, s: string, i: nat, k: nat): (r: Reference)
    requires i + 2 <= k <= |s|
    ensures i < r.next <= |s|
    ensures |r.output| <= r.next - i
  {
    var e := DigitsEnd(hex, s, k);
    if At(s, k) == ';' || At(s, e) != ';' then Verbatim(s, i, e)
    else Reference(Utf8(Number(hex, s, k, e)), e + 1)
  }

  /** How many characters of the word, its first m matching already, s has from position k. */
  function MatchEnd(s: string, k: nat, word: string, m: nat): (r: nat)
    requires m <= |word| && k + m <= |s| && IsText(word)
    ensures m <= r <= |word| && k + r <= |s|
    ensures forall j | m <= j < r :: s[k + j] == word[j]
    ensures r < |word| ==> At(s, k + r) != word[r]
    decreases |word| - m
  {
    if m < |word| && At(s, k + m) == word[m] then MatchEnd(s, k, word, m + 1) else m
  }

  function EntityReference(s: string, i: nat, word: string, c: char): (r: Reference)
    requires i < |s| && IsText(word)
    ensures i < r.next <= |s| && |r.output| <= r.next - i
  {
    var m := MatchEnd(s, i + 1, word, 0);
    if m == |word| then Reference([c], i + 1 + m) else Verbatim(s, i, i + 1 + m)
  }

  function NumericAt(s: string, i: nat): (r: Reference)
    requires i < |s| && At(s, i + 1) == '#'
    ensures i < r.next <= |s| && |r.output| <= r.next - i
  {
    var hex := At(s, i + 2) == 'x';
    CharReference(hex, s, i, if hex then i + 3 else i + 2)
  }

  function AmpOrAposAt(s: string, i: nat): (r: Reference)
    requires i < |s| && At(s, i + 1) == 'a'
    ensures i < r.next <= |s| && |r.output| <= r.next - i
  {
    if At(s, i + 2) == 'm' then EntityReference(s, i, "amp;", '&')
    else if At(s, i + 2) == 'p' then EntityReference(s, i, "apos;", '\'')
    else Verbatim(s, i, i + 2)
  }

  /** The first letters of `gt`, `lt` and `quot`. */
  predicate StartsName(c: char) {
    c == 'g' || c == 'l' || c == 'q'
  }

  function NameOf(c: char): (word: string)
    ensures IsText(word)
  {
    match c
    case 'g' => "gt;"
    case 'l' => "lt;"
    case _ => "quot;"
  }

  function NamedBy(c: char): char {
    match c
    case 'g' => '>'
    case 'l' => '<'
    case _ => '"'
  }

  /** `strconv_escape` at an ampersand; a reference is never shorter than what it becomes. */
  function EscapeAt(s: string, i: nat): (r: Reference)
    requires i < |s|
    ensures i < r.next <= |s| && |r.output| <= r.next - i
  {
    match At(s, i + 1)
    case '#' => NumericAt(s, i)
    case 'a' => AmpOrAposAt(s, i)
    case c => if StartsName(c) then EntityReference(s, i, NameOf(c), NamedBy(c)) else Verbatim(s, i, i + 1)
  }

  // ------------------------------------------------------------------------- text

  /** What happens to line ends: kept, turned into line feeds, or turned into blanks with all other white space. */
  datatype LineEnds = Keep | ToLineFeed | ToBlank

  /** Where a text ends; endch is the character that the terminator of the buffer replaced. */
  datatype Stop = AtQuote(quote: char) | AtTag | AtComment(endch: char) | AtCData(endch: char)

  datatype Rules = Rules(lineEnds: LineEnds, escape: bool, stop: Stop)

  /** One step of a conversion: what it puts out and where it goes on, the end of the text, or a missing end. */
  datatype Step = More(output: string, next: nat) | Done(next: nat) | Broken

  /** Two equal characters and a closing bracket, or the end of the buffer in place of the bracket. */
  predicate Closes(s: string, i: nat, c: char, endch: char) {
    At(s, i) == c && At(s, i + 1) == c && (At(s, i + 2) == '>' || (At(s, i + 2) == '\0' && endch == '>'))
  }

  /** Where the text ends at position i, if it does. */
  function StopAt(stop: Stop, s: string, i: nat): Step {
    match stop
    case AtQuote(q) => if At(s, i) == q then Done(i + 1) else Broken
    case AtTag => if At(s, i) == '<' then Done(i + 1) else if At(s, i) == '\0' then Done(i) else Broken
    case AtComment(endch) => if Closes(s, i, '-', endch) then Done(i + if At(s, i + 2) == '>' then 3 else 2) else Broken
    case AtCData(endch) => if Closes(s, i, ']', endch) then Done(i + 1) else Broken
  }

  /** A line end, or with ToBlank any white space, at position i. */
  predicate IsLineEnd(lineEnds: LineEnds, c: char) {
    (lineEnds == ToLineFeed && c == '\r') || (lineEnds == ToBlank && IsSpace(c))
  }

  function LineEndAt(lineEnds: LineEnds, s: string, i: nat): Step {
    var c := if lineEnds == ToBlank then " " else "\n";
    More(c, if At(s, i) == '\r' && At(s, i + 1) == '\n' then i + 2 else i + 1)
  }

  function StepAt(r: Rules, s: string, i: nat): Step {
    var stop := StopAt(r.stop, s, i);
    if stop.Done? || i >= |s| then stop
    else if IsLineEnd(r.lineEnds, s[i]) then LineEndAt(r.lineEnds, s, i)
    else if r.escape && s[i] == '&' then
      var e := EscapeAt(s, i);
      More(e.output, e.next)
    else More([s[i]], i + 1)
  }

  lemma StepAdvances(r: Rules, s: string, i: nat)
    requires IsText(s) && i <= |s|
    ensures var step := StepAt(r, s, i); step.More? ==> i < step.next <= |s| && |step.output| <= step.next - i
  {
  }

  /** A converted text and where reading goes on, or the report that its end is missing. */
  datatype Decoded = Ended(output: string, next: nat) | Unterminated

  function Prepend(output: string, d: Decoded): Decoded {
    if d.Ended? then Ended(output + d.output, d.next) else d
  }

  /** The text from position i on. */
  function DecodeFrom(r: Rules, s: string, i: nat): Decoded
    requires IsText(s) && i <= |s|
    decreases |s| - i
  {
    StepAdvances(r, s, i);
    match StepAt(r, s, i)
    case Done(next) => Ended([], next)
    case Broken => Unterminated
    case More(o, next) => Prepend(o, DecodeFrom(r, s, next))
  }

  /** Trailing white space is dropped, even where references produced it. */
  function Trimmed(s: string): string {
    if s != [] && IsSpace(s[|s| - 1]) then Trimmed(s[..|s| - 1]) else s
  }
}
