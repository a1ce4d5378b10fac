/** Character classes of the parser and the printer, as their lookup tables define them for 8-bit characters. */
module XmlChars {
  import opened Wrappers
  import opened Digits

  /** A text of 8-bit characters without terminator. */
  predicate IsText(s: string) {
    forall i | 0 <= i < |s| :: 0 < s[i] as nat < 256
  }

  /** Reading a C string: behind its end there is the terminator. */
  function At(s: string, i: nat): char {
    if i < |s| then s[i] else '\0'
  }

  // ------------------------------------------------------------ what the parser sees

  /** `ct_space` */
  predicate IsSpace(c: char) {
    c == '\r' || c == '\n' || c == ' ' || c == '\t'
  }

  predicate IsLetter(c: char) {
    'a' <= c <= 'z' || 'A' <= c <= 'Z'
  }

  /** `ct_start_symbol` */
  predicate IsStartSymbol(c: char) {
    c as nat > 127 || IsLetter(c) || c == '_' || c == ':'
  }

  /** `ct_symbol` */
  predicate IsSymbol(c: char) {
    IsStartSymbol(c) || IsDigit(c) || c == '-' || c == '.'
  }

  /** The first character from k on that is no white space. */
  function SpaceEnd(text: string, k: nat): (r: nat)
    requires k <= |text|
    ensures k <= r <= |text| && !IsSpace(At(text, r)) && forall j | k <= j < r :: IsSpace(text[j])
    decreases |text| - k
  {
    if IsSpace(At(text, k)) then SpaceEnd(text, k + 1) else k
  }

  // ----------------------------------------------------------- what the printer sees

  /** Whether text is printed as element content or as an attribute value. */
  datatype Place = InContent | InAttribute

  /** `ctx_special_pcdata` and `ctx_special_attr`: characters that are not printed as they are. */
  predicate IsSpecial(place: Place, c: char) {
    match place
    case InContent => (c as nat < 32 && c != '\t' && c != '\r' && c != '\n') || c == '&' || c == '<' || c == '>'
    case InAttribute => c as nat < 32 || c == '&' || c == '<' || c == '"' || c == '\''
  }

  /** The quotation mark around attribute values. */
  function Quote(singleQuote: bool): char {
    if singleQuote then '\'' else '"'
  }

  /** What the printer writes for one character. */
  function EscapedChar(place: Place, singleQuote: bool, c: char): string {
    if !IsSpecial(place, c) then [c]
    else match c
      case '&' => "&amp;"
      case '<' => "&lt;"
      case '>' => "&gt;"
      case '"' => if singleQuote then "\"" else "&quot;"
      case '\'' => if singleQuote then "&apos;" else "'"
      case _ => if c as nat < 32 then "&#" + [Digit(c as nat / 10), Digit(c as nat % 10)] + ";" else [c]
  }

  /** What the printer writes for the text from character i on. */
  function EscapedFrom(place: Place, singleQuote: bool, s: string, i: nat): string
    requires i <= |s|
    decreases |s| - i
  {
    if i == |s| then [] else EscapedChar(place, singleQuote, s[i]) + EscapedFrom(place, singleQuote, s, i + 1)
  }

  function Escaped(place: Place, singleQuote: bool, s: string): string {
    EscapedFrom(place, singleQuote, s, 0)
  }

  /** What is written so far, and what is still to come. */
  ghost predicate Writing(place: Place, singleQuote: bool, s: string, i: nat, output: string) {
    i <= |s| && output + EscapedFrom(place, singleQuote, s, i) == Escaped(place, singleQuote, s)
  }

  lemma OneMore(place: Place, singleQuote: bool, s: string, i: nat, output: string)
    requires i < |s| && Writing(place, singleQuote, s, i, output)
    ensures Writing(place, singleQuote, s, i + 1, output + EscapedChar(place, singleQuote, s[i]))
  {
    Regroup(output, EscapedChar(place, singleQuote, s[i]), EscapedFrom(place, singleQuote, s, i + 1));
  }

  lemma {:induction false} PlainRun(place: Place, singleQuote: bool, s: string, i: nat, j: nat, output: string)
    requires i <= j <= |s| && Writing(place, singleQuote, s, i, output)
    requires forall k | i <= k < j :: !IsSpecial(place, s[k])
    ensures Writing(place, singleQuote, s, j, output + s[i..j])
    decreases j - i
  {
    if i == j {
      assert output + s[i..j] == output;
    } else {
      OneMore(place, singleQuote, s, i, output);
      PlainRun(place, singleQuote, s, i + 1, j, output + [s[i]]);
      assert output + [s[i]] + s[i + 1..j] == output + s[i..j];
    }
  }

  lemma AllWritten(place: Place, singleQuote: bool, s: string, output: string)
    requires Writing(place, singleQuote, s, |s|, output)
    ensures output == Escaped(place, singleQuote, s)
  {
    assert output + [] == output;
  }

  /** The text a special character is replaced by. */
  method WriteSpecial(ghost place: Place, singleQuote: bool, c: char) returns (w: string)
    requires IsSpecial(place, c)
    ensures w == EscapedChar(place, singleQuote, c)
  {
    match c {
      case '&' => w := "&amp;";
      case '<' => w := "&lt;";
      case '>' => w := "&gt;";
      case '"' => w := if singleQuote then "\"" else "&quot;";
      case '\'' => w := if singleQuote then "&apos;" else "'";
      case _ =>
        w := [c];
        if c as nat < 32 {
          w := "&#" + [Digit(c as nat / 10), Digit(c as nat % 10)] + ";";
        }
    }
  }

  /** `text_output_escaped`: runs of usual characters are written at once. */
  method TextOutputEscaped(place: Place, singleQuote: bool, s: string) returns (output: string)
    ensures output == Escaped(place, singleQuote, s)
  {
    output := [];
    var i := 0;
    assert [] + Escaped(place, singleQuote, s) == Escaped(place, singleQuote, s);
    while i < |s|
      invariant Writing(place, singleQuote, s, i, output)
      decreases |s| - i
    {
      var prev := i;
      i := ScanUsual(place, s, prev);
      PlainRun(place, singleQuote, s, prev, i, output);
      output := output + s[prev..i];
      if i < |s| {
        OneMore(place, singleQuote, s, i, output);
        var w := WriteSpecial(place, singleQuote, s[i]);
        output := output + w;
        i := i + 1;
      }
    }
    AllWritten(place, singleQuote, s, output);
  }

  /** The end of the run of usual characters that starts at i. */
  method ScanUsual(place: Place, s: string, i: nat) returns (j: nat)
    requires i <= |s|
    ensures i <= j <= |s| && (forall k | i <= k < j :: !IsSpecial(place, s[k])) && (j < |s| ==> IsSpecial(place, s[j]))
  {
    j := i;
    while j < |s| && !IsSpecial(place, s[j])
      invariant i <= j <= |s| && forall k | i <= k < j :: !IsSpecial(place, s[k])
    {
      j := j + 1;
    }
  }
}
