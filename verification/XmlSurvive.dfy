/**
 What the printer escapes, the parser reads back: attribute values exactly, element
 content up to the normalization of line ends.
 */
module XmlSurvive {
  import opened Digits
  import opened XmlChars
  import opened XmlDecode

  /** e stands in the text at position p. */
  predicate Stands(text: string, p: nat, e: string) {
    p + |e| <= |text| && forall k | 0 <= k < |e| :: text[p + k] == e[k]
  }

  lemma StandsAt(text: string, p: nat, e: string, k: nat)
    requires Stands(text, p, e) && k < |e|
    ensures At(text, p + k) == e[k]
  {
  }

  // ------------------------------------------------------------------ one character

  lemma {:induction false} MatchAll(s: string, k: nat, word: string, m: nat)
    requires IsText(word) && m <= |word| && k + |word| <= |s| && forall j | m <= j < |word| :: s[k + j] == word[j]
    ensures MatchEnd(s, k, word, m) == |word|
    decreases |word| - m
  {
    if m < |word| {
      MatchAll(s, k, word, m + 1);
    }
  }

  /** A named reference is read back. */
  lemma EntityBack(text: string, p: nat, word: string, c: char)
    requires IsText(word) && Stands(text, p, "&" + word)
    ensures EntityReference(text, p, word, c) == Reference([c], p + 1 + |word|)
  {
    forall j | 0 <= j < |word| ensures text[p + 1 + j] == word[j] {
      StandsAt(text, p, "&" + word, j + 1);
    }
    MatchAll(text, p + 1, word, 0);
  }

  lemma NamedBack(text: string, p: nat, c: char)
    requires StartsName(c) && Stands(text, p, "&" + NameOf(c))
    ensures EscapeAt(text, p) == Reference([NamedBy(c)], p + 1 + |NameOf(c)|)
  {
    StandsAt(text, p, "&" + NameOf(c), 1);
    EntityBack(text, p, NameOf(c), NamedBy(c));
  }

  lemma AmpersandBack(text: string, p: nat)
    requires Stands(text, p, "&amp;")
    ensures EscapeAt(text, p) == Reference("&", p + 5)
  {
    StandsAt(text, p, "&amp;", 1);
    StandsAt(text, p, "&amp;", 2);
    assert "&" + "amp;" == "&amp;";
    EntityBack(text, p, "amp;", '&');
  }

  lemma ApostropheBack(text: string, p: nat)
    requires Stands(text, p, "&apos;")
    ensures EscapeAt(text, p) == Reference("'", p + 6)
  {
    StandsAt(text, p, "&apos;", 1);
    StandsAt(text, p, "&apos;", 2);
    assert "&" + "apos;" == "&apos;";
    EntityBack(text, p, "apos;", '\'');
  }

  function Coded(c: char): string
    requires c as nat < 32
  {
    "&#" + [Digit(c as nat / 10), Digit(c as nat % 10)] + ";"
  }

  lemma TwoDigits(text: string, k: nat, a: char, b: char)
    requires k + 2 < |text| && IsDigit(a) && IsDigit(b) && text[k] == a && text[k + 1] == b && text[k + 2] == ';'
    ensures DigitsEnd(false, text, k) == k + 2
    ensures Number(false, text, k, k + 2) == 10 * HexValue(a) + HexValue(b)
  {
    assert DigitsEnd(false, text, k + 2) == k + 2;
    assert DigitsEnd(false, text, k + 1) == k + 2;
    assert Number(false, text, k, k) == 0;
    assert Number(false, text, k, k + 1) == HexValue(a);
  }

  lemma DigitsOf(n: nat)
    requires n < 100
    ensures IsDigit(Digit(n / 10)) && IsDigit(Digit(n % 10))
    ensures 10 * HexValue(Digit(n / 10)) + HexValue(Digit(n % 10)) == n
  {
  }

  /** A control character is read back from its number. */
  lemma CodedBack(text: string, p: nat, c: char)
    requires c as nat < 32 && Stands(text, p, Coded(c))
    ensures EscapeAt(text, p) == Reference([c], p + 5)
  {
    var e, n := Coded(c), c as nat;
    StandsAt(text, p, e, 1);
    StandsAt(text, p, e, 2);
    StandsAt(text, p, e, 3);
    StandsAt(text, p, e, 4);
    DigitsOf(n);
    TwoDigits(text, p + 2, Digit(n / 10), Digit(n % 10));
    assert Utf8(n) == [c];
  }

  /** The character that ends a printed text. */
  function EndOf(place: Place, singleQuote: bool): char {
    if place == InAttribute then Quote(singleQuote) else '<'
  }

  /** A conversion that reads what is printed at the given place: escapes are on. */
  predicate Reads(place: Place, singleQuote: bool, r: Rules) {
    r.escape && if place == InAttribute then r.stop == AtQuote(Quote(singleQuote)) else r.stop == AtTag && r.lineEnds != ToBlank
  }

  /** A raw carriage return, which only element content contains when printed. */
  predicate RawReturn(place: Place, r: Rules, c: char) {
    place == InContent && r.lineEnds == ToLineFeed && c == '\r'
  }

  lemma SpecialBack(place: Place, singleQuote: bool, text: string, p: nat, c: char)
    requires IsSpecial(place, c) && EscapedChar(place, singleQuote, c) != [c] && Stands(text, p, EscapedChar(place, singleQuote, c))
    ensures At(text, p) == '&' && p < |text|
    ensures EscapeAt(text, p) == Reference([c], p + |EscapedChar(place, singleQuote, c)|)
  {
    var e := EscapedChar(place, singleQuote, c);
    StandsAt(text, p, e, 0);
    match c {
      case '&' => AmpersandBack(text, p);
      case '<' =>
        assert e == "&" + NameOf('l');
        NamedBack(text, p, 'l');
      case '>' =>
        assert e == "&" + NameOf('g');
        NamedBack(text, p, 'g');
      case '"' =>
        assert e == "&" + NameOf('q');
        NamedBack(text, p, 'q');
      case '\'' => ApostropheBack(text, p);
      case _ => CodedBack(text, p, c);
    }
  }

  /** Every printed character is read back as it was, but for a raw carriage return. */
  lemma CharBack(place: Place, singleQuote: bool, r: Rules, text: string, p: nat, c: char)
    requires Reads(place, singleQuote, r) && c != '\0' && !RawReturn(place, r, c)
    requires Stands(text, p, EscapedChar(place, singleQuote, c))
    ensures StepAt(r, text, p) == More([c], p + |EscapedChar(place, singleQuote, c)|)
  {
    var e := EscapedChar(place, singleQuote, c);
    StandsAt(text, p, e, 0);
    if e != [c] {
      SpecialBack(place, singleQuote, text, p, c);
    }
  }

  // -------------------------------------------------------------------- whole texts

  /** Line ends as section 2.11 of XML 1.0 wants them: a line feed each. */
  function NormalizedFrom(v: string, i: nat): string
    requires i <= |v|
    decreases |v| - i
  {
    if i == |v| then []
    else if v[i] != '\r' then [v[i]] + NormalizedFrom(v, i + 1)
    else "\n" + NormalizedFrom(v, if At(v, i + 1) == '\n' then i + 2 else i + 1)
  }

  /** What is read back from character i of a value on. */
  function BackFrom(place: Place, r: Rules, v: string, i: nat): string
    requires i <= |v|
  {
    if place == InContent && r.lineEnds == ToLineFeed then NormalizedFrom(v, i) else v[i..]
  }

  lemma StandsSplit(text: string, p: nat, a: string, b: string)
    requires Stands(text, p, a + b)
    ensures Stands(text, p, a) && Stands(text, p + |a|, b)
  {
    forall k | 0 <= k < |a| ensures text[p + k] == a[k] {
      assert (a + b)[k] == a[k];
    }
    forall k | 0 <= k < |b| ensures text[p + |a| + k] == b[k] {
      assert (a + b)[|a| + k] == b[k];
    }
  }

  /** A printed text followed by the character that ends it. */
  predicate Printed(place: Place, singleQuote: bool, text: string, p: nat, v: string, i: nat)
    requires i <= |v|
  {
    && Stands(text, p, EscapedFrom(place, singleQuote, v, i))
    && At(text, p + |EscapedFrom(place, singleQuote, v, i)|) == EndOf(place, singleQuote)
  }

  lemma PrintedNext(place: Place, singleQuote: bool, text: string, p: nat, v: string, i: nat)
    requires i < |v| && Printed(place, singleQuote, text, p, v, i)
    ensures var e := EscapedChar(place, singleQuote, v[i]);
            Stands(text, p, e) && Printed(place, singleQuote, text, p + |e|, v, i + 1)
  {
    StandsSplit(text, p, EscapedChar(place, singleQuote, v[i]), EscapedFrom(place, singleQuote, v, i + 1));
  }

  /** Behind a raw carriage return a line feed is seen only if the value has one there. */
  lemma LineFeedSeen(singleQuote: bool, text: string, p: nat, v: string, i: nat)
    requires i <= |v| && Printed(InContent, singleQuote, text, p, v, i)
    ensures At(text, p) == '\n' <==> At(v, i) == '\n'
  {
    if i < |v| {
      PrintedNext(InContent, singleQuote, text, p, v, i);
      StandsAt(text, p, EscapedChar(InContent, singleQuote, v[i]), 0);
    }
  }

  // ----------------------------------------------- decoding by any step function

  type Stepper = nat -> Step

  ghost predicate Advances(step: Stepper, n: nat) {
    forall i: nat | i <= n && step(i).More? :: i < step(i).next <= n
  }

  /** `DecodeFrom` for a step function that is not looked into. */
  function DecodeBy(step: Stepper, n: nat, i: nat): Decoded
    requires Advances(step, n) && i <= n
    decreases n - i
  {
    match step(i)
    case Done(next) => Ended([], next)
    case Broken => Unterminated
    case More(o, next) => Prepend(o, DecodeBy(step, n, next))
  }

  ghost predicate Linked(step: Stepper, r: Rules, text: string) {
    && IsText(text) && Advances(step, |text|)
    && forall x: nat {:trigger StepAt(r, text, x)} :: step(x) == StepAt(r, text, x)
  }

  lemma {:induction false} DecodeByIs(step: Stepper, r: Rules, text: string, i: nat)
    requires Linked(step, r, text) && i <= |text|
    ensures DecodeBy(step, |text|, i) == DecodeFrom(r, text, i)
    decreases |text| - i
  {
    StepAdvances(r, text, i);
    var s := StepAt(r, text, i);
    if s.More? {
      DecodeByIs(step, r, text, s.next);
    }
  }

  function Stepping(r: Rules, text: string): Stepper {
    (i: nat) => StepAt(r, text, i)
  }

  lemma SteppingLinked(r: Rules, text: string)
    requires IsText(text)
    ensures Linked(Stepping(r, text), r, text)
  {
    forall i: nat | i <= |text| && Stepping(r, text)(i).More? ensures i < Stepping(r, text)(i).next <= |text| {
      StepAdvances(r, text, i);
    }
  }

  /** Reading at p yields the value from character i on. */
  ghost predicate Back(step: Stepper, place: Place, singleQuote: bool, r: Rules, text: string, p: nat, v: string, i: nat) {
    && Linked(step, r, text) && p <= |text| && i <= |v|
    && DecodeBy(step, |text|, p) == Ended(BackFrom(place, r, v, i), p + |EscapedFrom(place, singleQuote, v, i)| + 1)
  }

  lemma EndBack(step: Stepper, place: Place, singleQuote: bool, r: Rules, text: string, p: nat, v: string)
    requires Linked(step, r, text) && Reads(place, singleQuote, r) && Printed(place, singleQuote, text, p, v, |v|)
    ensures Back(step, place, singleQuote, r, text, p, v, |v|)
  {
    assert StepAt(r, text, p) == Done(p + 1);
  }

  lemma BackMore(place: Place, r: Rules, v: string, i: nat)
    requires i < |v| && !RawReturn(place, r, v[i])
    ensures BackFrom(place, r, v, i) == [v[i]] + BackFrom(place, r, v, i + 1)
  {
    assert [v[i]] + v[i + 1..] == v[i..];
  }

  lemma EscapedLength(place: Place, singleQuote: bool, v: string, i: nat)
    requires i < |v|
    ensures |EscapedFrom(place, singleQuote, v, i)| == |EscapedChar(place, singleQuote, v[i])| + |EscapedFrom(place, singleQuote, v, i + 1)|
  {
  }

  lemma JoinBack(step: Stepper, place: Place, singleQuote: bool, r: Rules, text: string, p: nat, v: string, i: nat, n: nat)
    requires i < |v| && p <= |text| && !RawReturn(place, r, v[i])
    requires n == |EscapedChar(place, singleQuote, v[i])| && step(p) == More([v[i]], p + n)
    requires Back(step, place, singleQuote, r, text, p + n, v, i + 1)
    ensures Back(step, place, singleQuote, r, text, p, v, i)
  {
    BackMore(place, r, v, i);
    EscapedLength(place, singleQuote, v, i);
  }

  lemma JoinReturn(step: Stepper, singleQuote: bool, r: Rules, text: string, p: nat, v: string, i: nat)
    requires i < |v| && p <= |text| && r.lineEnds == ToLineFeed && v[i] == '\r'
    requires AfterReturn(text, p) == p + (AfterReturn(v, i) - i) && step(p) == More("\n", AfterReturn(text, p))
    requires Back(step, InContent, singleQuote, r, text, AfterReturn(text, p), v, AfterReturn(v, i))
    ensures Back(step, InContent, singleQuote, r, text, p, v, i)
  {
    EscapedLength(InContent, singleQuote, v, i);
    if AfterReturn(v, i) == i + 2 {
      EscapedLength(InContent, singleQuote, v, i + 1);
    }
  }

  lemma {:induction false} SurvivesFrom(step: Stepper, place: Place, singleQuote: bool, r: Rules, text: string, p: nat, v: string, i: nat)
    requires Linked(step, r, text) && IsText(v) && i <= |v| && Reads(place, singleQuote, r)
    requires Printed(place, singleQuote, text, p, v, i)
    ensures Back(step, place, singleQuote, r, text, p, v, i)
    decreases |v| - i, 1
  {
    if i == |v| {
      EndBack(step, place, singleQuote, r, text, p, v);
    } else if RawReturn(place, r, v[i]) {
      ReturnSurvives(step, singleQuote, r, text, p, v, i);
    } else {
      CharSurvives(step, place, singleQuote, r, text, p, v, i);
    }
  }

  /** One printed character is read, and the rest of the value stands behind it. */
  lemma CharRead(step: Stepper, place: Place, singleQuote: bool, r: Rules, text: string, p: nat, v: string, i: nat)
    requires Linked(step, r, text) && IsText(v) && i < |v| && Reads(place, singleQuote, r) && !RawReturn(place, r, v[i])
    requires Printed(place, singleQuote, text, p, v, i)
    ensures var n := |EscapedChar(place, singleQuote, v[i])|;
            step(p) == More([v[i]], p + n) && Printed(place, singleQuote, text, p + n, v, i + 1)
  {
    PrintedNext(place, singleQuote, text, p, v, i);
    CharBack(place, singleQuote, r, text, p, v[i]);
  }

  lemma {:induction false} CharSurvives(step: Stepper, place: Place, singleQuote: bool, r: Rules, text: string, p: nat, v: string, i: nat)
    requires Linked(step, r, text) && IsText(v) && i < |v| && Reads(place, singleQuote, r) && !RawReturn(place, r, v[i])
    requires Printed(place, singleQuote, text, p, v, i)
    ensures Back(step, place, singleQuote, r, text, p, v, i)
    decreases |v| - i, 0
  {
    var n := |EscapedChar(place, singleQuote, v[i])|;
    CharRead(step, place, singleQuote, r, text, p, v, i);
    SurvivesFrom(step, place, singleQuote, r, text, p + n, v, i + 1);
    JoinBack(step, place, singleQuote, r, text, p, v, i, n);
  }

  function AfterReturn(v: string, i: nat): nat {
    if At(v, i + 1) == '\n' then i + 2 else i + 1
  }

  lemma ReturnPrinted(singleQuote: bool, text: string, p: nat, v: string, i: nat)
    requires i < |v| && v[i] == '\r' && Printed(InContent, singleQuote, text, p, v, i)
    ensures p < |text| && text[p] == '\r'
    ensures AfterReturn(v, i) <= |v| && AfterReturn(text, p) == p + (AfterReturn(v, i) - i)
    ensures Printed(InContent, singleQuote, text, AfterReturn(text, p), v, AfterReturn(v, i))
  {
    PrintedNext(InContent, singleQuote, text, p, v, i);
    StandsAt(text, p, "\r", 0);
    LineFeedSeen(singleQuote, text, p + 1, v, i + 1);
    if At(v, i + 1) == '\n' {
      PrintedNext(InContent, singleQuote, text, p + 1, v, i + 1);
    }
  }

  /** A raw carriage return, alone or before a line feed, is read as one line feed. */
  lemma ReturnRead(r: Rules, text: string, p: nat)
    requires r.stop == AtTag && r.lineEnds == ToLineFeed && p < |text| && text[p] == '\r'
    ensures StepAt(r, text, p) == More("\n", AfterReturn(text, p))
  {
  }

  lemma {:induction false} ReturnSurvives(step: Stepper, singleQuote: bool, r: Rules, text: string, p: nat, v: string, i: nat)
    requires Linked(step, r, text) && IsText(v) && i < |v| && Reads(InContent, singleQuote, r) && RawReturn(InContent, r, v[i])
    requires Printed(InContent, singleQuote, text, p, v, i)
    ensures Back(step, InContent, singleQuote, r, text, p, v, i)
    decreases |v| - i, 0
  {
    ReturnPrinted(singleQuote, text, p, v, i);
    ReturnRead(r, text, p);
    SurvivesFrom(step, InContent, singleQuote, r, text, AfterReturn(text, p), v, AfterReturn(v, i));
    JoinReturn(step, singleQuote, r, text, p, v, i);
  }

  /** A printed value at position p of a text is read back. */
  lemma Survives(place: Place, singleQuote: bool, r: Rules, text: string, p: nat, v: string)
    requires IsText(text) && IsText(v) && Reads(place, singleQuote, r) && Printed(place, singleQuote, text, p, v, 0)
    ensures p <= |text|
    ensures DecodeFrom(r, text, p) == Ended(BackFrom(place, r, v, 0), p + |Escaped(place, singleQuote, v)| + 1)
  {
    SteppingLinked(r, text);
    SurvivesFrom(Stepping(r, text), place, singleQuote, r, text, p, v, 0);
    DecodeByIs(Stepping(r, text), r, text, p);
  }

  lemma JoinText(a: string, b: string)
    requires IsText(a) && IsText(b)
    ensures IsText(a + b)
  {
  }

  lemma EscapedCharText(place: Place, singleQuote: bool, c: char)
    requires 0 < c as nat < 256
    ensures IsText(EscapedChar(place, singleQuote, c))
  {
  }

  lemma {:induction false} EscapedText(place: Place, singleQuote: bool, v: string, i: nat)
    requires IsText(v) && i <= |v|
    ensures IsText(EscapedFrom(place, singleQuote, v, i))
    decreases |v| - i
  {
    if i < |v| {
      EscapedText(place, singleQuote, v, i + 1);
      EscapedCharText(place, singleQuote, v[i]);
      JoinText(EscapedChar(place, singleQuote, v[i]), EscapedFrom(place, singleQuote, v, i + 1));
    }
  }

  lemma StandsInFront(a: string, b: string)
    ensures Stands(a + b, 0, a) && forall k: nat :: At(a + b, |a| + k) == At(b, k)
  {
  }

  /**
   Every attribute value survives: for either quotation mark, and whatever the parser does
   about line ends, reading the printed value yields it and stops right after the quotation mark.
   */
  lemma AttributeSurvives(singleQuote: bool, lineEnds: LineEnds, v: string, rest: string)
    requires IsText(v) && IsText(rest)
    ensures IsText(Escaped(InAttribute, singleQuote, v) + [Quote(singleQuote)] + rest)
    ensures var e := Escaped(InAttribute, singleQuote, v);
            DecodeFrom(Rules(lineEnds, true, AtQuote(Quote(singleQuote))), e + [Quote(singleQuote)] + rest, 0) == Ended(v, |e| + 1)
  {
    var e := Escaped(InAttribute, singleQuote, v);
    EscapedText(InAttribute, singleQuote, v, 0);
    JoinText(e, [Quote(singleQuote)]);
    JoinText(e + [Quote(singleQuote)], rest);
    assert e + [Quote(singleQuote)] + rest == e + ([Quote(singleQuote)] + rest);
    StandsInFront(e, [Quote(singleQuote)] + rest);
    assert At([Quote(singleQuote)] + rest, 0) == Quote(singleQuote);
    Survives(InAttribute, singleQuote, Rules(lineEnds, true, AtQuote(Quote(singleQuote))), e + [Quote(singleQuote)] + rest, 0, v);
    assert v[0..] == v;
  }

  /** Element content comes back with its line ends normalized. */
  lemma ContentSurvives(v: string, rest: string)
    requires IsText(v) && IsText(rest)
    ensures IsText(Escaped(InContent, false, v) + "<" + rest)
    ensures var e := Escaped(InContent, false, v);
            DecodeFrom(Rules(ToLineFeed, true, AtTag), e + "<" + rest, 0) == Ended(NormalizedFrom(v, 0), |e| + 1)
  {
    var e := Escaped(InContent, false, v);
    EscapedText(InContent, false, v, 0);
    JoinText(e, "<");
    JoinText(e + "<", rest);
    assert e + "<" + rest == e + ("<" + rest);
    StandsInFront(e, "<" + rest);
    assert At("<" + rest, 0) == '<';
    Survives(InContent, false, Rules(ToLineFeed, true, AtTag), e + "<" + rest, 0, v);
  }

  predicate NoReturn(v: string, i: nat) {
    forall k | i <= k < |v| :: v[k] != '\r'
  }

  /** Normalization changes a text exactly when it contains a carriage return. */
  lemma {:induction false} NormalizedMeaning(v: string, i: nat)
    requires i <= |v|
    ensures NoReturn(NormalizedFrom(v, i), 0)
    ensures NoReturn(v, i) ==> NormalizedFrom(v, i) == v[i..]
    decreases |v| - i
  {
    if i < |v| {
      if v[i] != '\r' {
        NormalizedMeaning(v, i + 1);
        assert v[i..] == [v[i]] + v[i + 1..];
      } else {
        NormalizedMeaning(v, if At(v, i + 1) == '\n' then i + 2 else i + 1);
      }
    }
  }

  /** Element content survives printing and parsing if and only if it has no carriage return. */
  lemma ContentSurvivesExactly(v: string, rest: string)
    requires IsText(v) && IsText(rest)
    ensures IsText(Escaped(InContent, false, v) + "<" + rest)
    ensures var e := Escaped(InContent, false, v);
            DecodeFrom(Rules(ToLineFeed, true, AtTag), e + "<" + rest, 0) == Ended(v, |e| + 1) <==> NoReturn(v, 0)
  {
    ContentSurvives(v, rest);
    NormalizedMeaning(v, 0);
    assert v[0..] == v;
  }

  /** A carriage return comes back as a line feed. */
  lemma ReturnLost()
    ensures IsText("\r<") && DecodeFrom(Rules(ToLineFeed, true, AtTag), Escaped(InContent, false, "\r") + "<", 0) == Ended("\n", 2)
  {
    var v := "\r";
    assert Escaped(InContent, false, v) == v;
    assert NormalizedFrom(v, 0) == "\n" + NormalizedFrom(v, 1) == "\n";
    ContentSurvives(v, "");
    assert Escaped(InContent, false, v) + "<" + "" == Escaped(InContent, false, v) + "<" == "\r<";
  }
}
