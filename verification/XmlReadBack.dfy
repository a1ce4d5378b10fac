/** Printed tags, attributes and character data are read back by the parser. */
module XmlReadBack {
  import opened Wrappers
  import opened XmlTree
  import opened XmlChars
  import opened XmlDecode
  import opened XmlSurvive
  import opened XmlPrint
  import opened XmlParse
  import XmlSimple

  // ------------------------------------------------------------ what can be read back

  predicate ValidName(name: string) {
    name != "" && IsText(name) && IsStartSymbol(name[0]) && forall i | 0 <= i < |name| :: IsSymbol(name[i])
  }

  predicate GoodAttribute(a: Attr) {
    ValidName(a.name) && IsText(a.value)
  }

  predicate GoodAttributes(attrs: seq<Attr>) {
    forall i | 0 <= i < |attrs| :: GoodAttribute(attrs[i])
  }

  /** Character data that is not white space alone and has no carriage return. */
  predicate GoodText(v: string) {
    IsText(v) && NoReturn(v, 0) && exists i | 0 <= i < |v| :: !IsSpace(v[i])
  }

  // ---------------------------------------------------------------------- positions

  /** e stands at s; cut: up to its last character, with which the text would go on. */
  predicate Ends(text: string, s: nat, e: string, cut: bool) {
    if cut then e != "" && s + |e| == |text| + 1 && Stands(text, s, e[..|e| - 1]) else Stands(text, s, e)
  }

  lemma EndsSplit(text: string, s: nat, a: string, b: string, cut: bool)
    requires b != "" && Ends(text, s, a + b, cut)
    ensures Stands(text, s, a) && Ends(text, s + |a|, b, cut)
  {
    if cut {
      assert (a + b)[..|a + b| - 1] == a + b[..|b| - 1];
      StandsSplit(text, s, a, b[..|b| - 1]);
    } else {
      StandsSplit(text, s, a, b);
    }
  }

  lemma {:induction false} SymbolEndIs(text: string, k: nat, name: string, j: nat)
    requires j <= |name| && Stands(text, k, name) && (forall i | 0 <= i < |name| :: IsSymbol(name[i]))
    requires !IsSymbol(At(text, k + |name|))
    ensures SymbolEnd(text, k + j) == k + |name|
    decreases |name| - j
  {
    if j < |name| {
      StandsAt(text, k, name, j);
      SymbolEndIs(text, k, name, j + 1);
    }
  }

  /** A name is read to its end. */
  lemma NameRead(text: string, k: nat, name: string)
    requires ValidName(name) && Stands(text, k, name) && !IsSymbol(At(text, k + |name|))
    ensures IsStartSymbol(At(text, k)) && !IsSpace(At(text, k)) && SymbolEnd(text, k) == k + |name| && text[k..k + |name|] == name
  {
    StandsAt(text, k, name, 0);
    SymbolEndIs(text, k, name, 0);
  }

  lemma StandsChar(text: string, p: nat, c: char, rest: string)
    requires Stands(text, p, [c] + rest)
    ensures p < |text| && text[p] == c && Stands(text, p + 1, rest)
  {
    StandsSplit(text, p, [c], rest);
    StandsAt(text, p, [c], 0);
  }

  // --------------------------------------------------------------------- attributes

  /** The converters give back what was printed. */
  ghost predicate ReadsBack(conv: Converters, text: string) {
    && IsText(text) && Sound(conv, |text|)
    && (forall p: nat, singleQuote: bool, v: string {:trigger Printed(InAttribute, singleQuote, text, p, v, 0)} |
          IsText(v) && Printed(InAttribute, singleQuote, text, p, v, 0) ::
          conv.attribute(p, Quote(singleQuote)) == Ended(v, p + |Escaped(InAttribute, singleQuote, v)| + 1))
    && (forall p: nat, singleQuote: bool, v: string {:trigger Printed(InContent, singleQuote, text, p, v, 0)} |
          IsText(v) && NoReturn(v, 0) && Printed(InContent, singleQuote, text, p, v, 0) ::
          conv.content(p) == Ended(v, p + |Escaped(InContent, singleQuote, v)| + 1))
    && forall p: nat, e: char, piece: string {:trigger XmlSimple.SectionStands(text, e, p, piece)} |
         XmlSimple.SectionStands(text, e, p, piece) && XmlSimple.Closed(piece) && NoReturn(piece, 0) ::
         conv.section(p, e) == Ended(piece, p + |piece| + 1)
  }

  lemma ValueReadsBack(text: string, p: nat, singleQuote: bool, v: string)
    requires IsText(text) && IsText(v) && Printed(InAttribute, singleQuote, text, p, v, 0)
    ensures DefaultConverters(text).attribute(p, Quote(singleQuote)) == Ended(v, p + |Escaped(InAttribute, singleQuote, v)| + 1)
  {
    Survives(InAttribute, singleQuote, ValueRules(Quote(singleQuote)), text, p, v);
    assert v[0..] == v;
    assert DefaultConverters(text).attribute(p, Quote(singleQuote)) == DecodeFrom(ValueRules(Quote(singleQuote)), text, p);
  }

  lemma ContentReadsBack(text: string, p: nat, singleQuote: bool, v: string)
    requires IsText(text) && IsText(v) && NoReturn(v, 0) && Printed(InContent, singleQuote, text, p, v, 0)
    ensures DefaultConverters(text).content(p) == Ended(v, p + |Escaped(InContent, singleQuote, v)| + 1)
  {
    Survives(InContent, singleQuote, CONTENT, text, p, v);
    NormalizedMeaning(v, 0);
    assert v[0..] == v;
    assert DefaultConverters(text).content(p) == DecodeFrom(CONTENT, text, p);
  }

  lemma SectionReadsBack(text: string, p: nat, e: char, piece: string)
    requires IsText(text) && XmlSimple.SectionStands(text, e, p, piece) && XmlSimple.Closed(piece) && NoReturn(piece, 0)
    ensures DefaultConverters(text).section(p, e) == Ended(piece, p + |piece| + 1)
  {
    XmlSimple.PieceBack(e, text, p, piece, 0);
    assert piece[0..] == piece;
    assert DefaultConverters(text).section(p, e) == DecodeFrom(SectionRules(e), text, p);
  }

  lemma DefaultReadsBack(text: string)
    requires IsText(text)
    ensures ReadsBack(DefaultConverters(text), text)
  {
    var conv := DefaultConverters(text);
    DefaultSound(text);
    forall p: nat, singleQuote: bool, v: string | IsText(v) && Printed(InAttribute, singleQuote, text, p, v, 0)
      ensures conv.attribute(p, Quote(singleQuote)) == Ended(v, p + |Escaped(InAttribute, singleQuote, v)| + 1)
    {
      ValueReadsBack(text, p, singleQuote, v);
    }
    forall p: nat, singleQuote: bool, v: string | IsText(v) && NoReturn(v, 0) && Printed(InContent, singleQuote, text, p, v, 0)
      ensures conv.content(p) == Ended(v, p + |Escaped(InContent, singleQuote, v)| + 1)
    {
      ContentReadsBack(text, p, singleQuote, v);
    }
    forall p: nat, e: char, piece: string | XmlSimple.SectionStands(text, e, p, piece) && XmlSimple.Closed(piece) && NoReturn(piece, 0)
      ensures conv.section(p, e) == Ended(piece, p + |piece| + 1)
    {
      SectionReadsBack(text, p, e, piece);
    }
  }

  /** Where the parts of a printed attribute stand. */
  lemma QuotedParts(text: string, s: nat, name: string, quote: char, value: string)
    requires Stands(text, s, Quoted(name, quote, value))
    ensures var e := s + 1 + |name|;
            && |Quoted(name, quote, value)| == |name| + |value| + 4 && e + 2 + |value| < |text|
            && text[s] == ' ' && Stands(text, s + 1, name) && text[e] == '=' && text[e + 1] == quote
            && Stands(text, e + 2, value) && text[e + 2 + |value|] == quote
  {
    var e := s + 1 + |name|;
    StandsChar(text, s, ' ', name + (['='] + ([quote] + (value + [quote]))));
    StandsSplit(text, s + 1, name, ['='] + ([quote] + (value + [quote])));
    StandsChar(text, e, '=', [quote] + (value + [quote]));
    StandsChar(text, e + 1, quote, value + [quote]);
    StandsSplit(text, e + 2, value, [quote]);
    StandsAt(text, e + 2 + |value|, [quote], 0);
  }

  lemma NameStep(text: string, conv: Converters, endch: char, s: nat, name: string)
    requires IsText(text) && Sound(conv, |text|) && s < |text| && text[s] == ' ' && ValidName(name)
    requires Stands(text, s + 1, name) && !IsSymbol(At(text, s + 1 + |name|))
    ensures StartStep(text, conv, endch, s) == AttributeValue(text, conv, name, s + 1 + |name|)
  {
    NameRead(text, s + 1, name);
    assert SpaceEnd(text, s + 1) == s + 1;
    assert SpaceEnd(text, s) == s + 1;
  }

  /** An equals sign right behind the name and a quotation mark right behind it. */
  lemma EqualsRead(text: string, conv: Converters, name: string, e: nat)
    requires IsText(text) && Sound(conv, |text|) && e + 1 < |text| && text[e] == '=' && (text[e + 1] == '"' || text[e + 1] == '\'')
    ensures AttributeValue(text, conv, name, e) == ValueAt(text, conv, name, e + 1)
  {
    assert SpaceEnd(text, e + 1) == e + 1;
  }

  /** A name and a value that are read. */
  lemma QuotedRead(text: string, conv: Converters, endch: char, s: nat, name: string, quote: char, value: string, v: string)
    requires IsText(text) && Sound(conv, |text|) && ValidName(name) && (quote == '"' || quote == '\'')
    requires Stands(text, s, Quoted(name, quote, value)) && !IsStartSymbol(At(text, s + |name| + |value| + 4))
    requires conv.attribute(s + |name| + 3, quote) == Ended(v, s + |name| + |value| + 4)
    ensures s < |text| && text[s] == ' '
    ensures StartStep(text, conv, endch, s) == Another(Attr(name, v), s + |name| + |value| + 4)
  {
    QuotedParts(text, s, name, quote, value);
    PartsRead(text, conv, endch, s, name, quote, v, s + |name| + |value| + 4);
  }

  lemma PartsRead(text: string, conv: Converters, endch: char, s: nat, name: string, quote: char, v: string, next: nat)
    requires IsText(text) && Sound(conv, |text|) && ValidName(name) && (quote == '"' || quote == '\'')
    requires s < |text| && text[s] == ' ' && Stands(text, s + 1, name)
    requires var e := s + 1 + |name|; e + 1 < |text| && text[e] == '=' && text[e + 1] == quote
    requires conv.attribute(s + |name| + 3, quote) == Ended(v, next) && !IsStartSymbol(At(text, next))
    ensures StartStep(text, conv, endch, s) == Another(Attr(name, v), next)
  {
    NameStep(text, conv, endch, s, name);
    EqualsRead(text, conv, name, s + 1 + |name|);
  }

  lemma ValueBack(singleQuote: bool, text: string, conv: Converters, p: nat, v: string, e: string)
    requires ReadsBack(conv, text) && IsText(v) && e == Escaped(InAttribute, singleQuote, v)
    requires Stands(text, p, e) && p + |e| < |text| && text[p + |e|] == Quote(singleQuote)
    ensures conv.attribute(p, Quote(singleQuote)) == Ended(v, p + |e| + 1)
  {
    assert Printed(InAttribute, singleQuote, text, p, v, 0);
  }

  /** One printed attribute is read. */
  lemma AttributeRead(singleQuote: bool, text: string, conv: Converters, endch: char, s: nat, a: Attr)
    requires ReadsBack(conv, text) && GoodAttribute(a) && Stands(text, s, AttributeText(singleQuote, a))
    requires !IsStartSymbol(At(text, s + |AttributeText(singleQuote, a)|))
    ensures s < |text| && text[s] == ' '
    ensures StartStep(text, conv, endch, s) == Another(a, s + |AttributeText(singleQuote, a)|)
  {
    var value := Escaped(InAttribute, singleQuote, a.value);
    QuotedParts(text, s, a.name, Quote(singleQuote), value);
    ValueBack(singleQuote, text, conv, s + |a.name| + 3, a.value, value);
    QuotedRead(text, conv, endch, s, a.name, Quote(singleQuote), value, a.value);
  }

  ghost predicate StartLinked(step: StartStepper, text: string, conv: Converters, endch: char) {
    && IsText(text) && Sound(conv, |text|) && StartAdvances(step, |text|)
    && forall s: nat {:trigger StartStep(text, conv, endch, s)} | s <= |text| :: step(s) == StartStep(text, conv, endch, s)
  }

  /** Texts that stand one behind the other, from at[0] on. */
  ghost predicate Laid(text: string, texts: seq<string>, at: seq<nat>) {
    && |at| == |texts| + 1 && at[|texts|] <= |text|
    && forall j: nat | j < |texts| :: at[j + 1] == at[j] + |texts[j]| && Stands(text, at[j], texts[j])
  }

  lemma LayFirst(text: string, s: nat, one: string, more: string, texts: seq<string>, at: seq<nat>)
    requires Stands(text, s, one + more) && Laid(text, texts, at) && at[0] == s + |one|
    ensures Laid(text, [one] + texts, [s] + at)
  {
    StandsSplit(text, s, one, more);
  }

  /** The texts of the attributes; nothing is said of them until one is asked for. */
  ghost predicate TextsOf(singleQuote: bool, attrs: seq<Attr>, texts: seq<string>, i: nat) {
    && i + |texts| == |attrs|
    && forall j: nat {:trigger AttributeText(singleQuote, attrs[j])} | i <= j < |attrs| :: texts[j - i] == AttributeText(singleQuote, attrs[j])
  }

  /** The printed attributes one by one. */
  lemma {:induction false} LayAttributes(singleQuote: bool, text: string, s: nat, attrs: seq<Attr>, i: nat) returns (texts: seq<string>, at: seq<nat>)
    requires i <= |attrs| && Stands(text, s, AttributesText(singleQuote, attrs, i))
    ensures TextsOf(singleQuote, attrs, texts, i) && Laid(text, texts, at)
    ensures at[0] == s && at[|texts|] == s + |AttributesText(singleQuote, attrs, i)|
    decreases |attrs| - i
  {
    if i == |attrs| {
      texts, at := [], [s];
    } else {
      var one, more := SplitAttributes(singleQuote, text, s, attrs, i);
      texts, at := LayAttributes(singleQuote, text, s + |one|, attrs, i + 1);
      LayFirst(text, s, one, more, texts, at);
      JoinTexts(singleQuote, attrs, i, one, texts);
      texts, at := [one] + texts, [s] + at;
    }
  }

  lemma JoinTexts(singleQuote: bool, attrs: seq<Attr>, i: nat, one: string, texts: seq<string>)
    requires i < |attrs| && one == AttributeText(singleQuote, attrs[i]) && TextsOf(singleQuote, attrs, texts, i + 1)
    ensures TextsOf(singleQuote, attrs, [one] + texts, i)
  {
  }

  lemma SplitAttributes(singleQuote: bool, text: string, s: nat, attrs: seq<Attr>, i: nat) returns (one: string, more: string)
    requires i < |attrs| && Stands(text, s, AttributesText(singleQuote, attrs, i))
    ensures one == AttributeText(singleQuote, attrs[i]) && more == AttributesText(singleQuote, attrs, i + 1)
    ensures Stands(text, s, one + more) && Stands(text, s + |one|, more)
    ensures |AttributesText(singleQuote, attrs, i)| == |one| + |more|
  {
    one, more := AttributeText(singleQuote, attrs[i]), AttributesText(singleQuote, attrs, i + 1);
    StandsSplit(text, s, one, more);
  }

  lemma AttributeStarts(singleQuote: bool, text: string, s: nat, a: Attr)
    requires Stands(text, s, AttributeText(singleQuote, a))
    ensures s < |text| && text[s] == ' '
  {
    StandsAt(text, s, AttributeText(singleQuote, a), 0);
  }

  /** Each attribute text begins with a blank. */
  ghost predicate Blanks(text: string, at: seq<nat>) {
    |at| > 0 && forall j: nat | j + 1 < |at| :: at[j] < |text| && text[at[j]] == ' '
  }

  lemma LaidBlanks(singleQuote: bool, text: string, attrs: seq<Attr>, texts: seq<string>, at: seq<nat>)
    requires TextsOf(singleQuote, attrs, texts, 0) && Laid(text, texts, at)
    ensures Blanks(text, at)
  {
    forall j: nat | j + 1 < |at| ensures at[j] < |text| && text[at[j]] == ' ' {
      AttributeStarts(singleQuote, text, at[j], attrs[j]);
    }
  }

  lemma AttributeNext(singleQuote: bool, text: string, conv: Converters, endch: char, attrs: seq<Attr>, texts: seq<string>, at: seq<nat>, j: nat)
    requires ReadsBack(conv, text) && GoodAttributes(attrs) && j < |attrs|
    requires TextsOf(singleQuote, attrs, texts, 0) && Laid(text, texts, at) && !IsStartSymbol(At(text, at[j + 1]))
    ensures StartStep(text, conv, endch, at[j]) == Another(attrs[j], at[j + 1])
  {
    assert texts[j] == AttributeText(singleQuote, attrs[j]);
    AttributeRead(singleQuote, text, conv, endch, at[j], attrs[j]);
  }

  /** The steps of the attribute loop over printed attributes. */
  lemma StepsAre(step: StartStepper, singleQuote: bool, text: string, conv: Converters, endch: char, attrs: seq<Attr>, texts: seq<string>, at: seq<nat>)
    requires StartLinked(step, text, conv, endch) && ReadsBack(conv, text) && GoodAttributes(attrs)
    requires TextsOf(singleQuote, attrs, texts, 0) && Laid(text, texts, at) && Blanks(text, at)
    requires !IsStartSymbol(At(text, at[|attrs|]))
    ensures forall j: nat | j < |attrs| :: step(at[j]) == Another(attrs[j], at[j + 1])
  {
    forall j: nat | j < |attrs| ensures step(at[j]) == Another(attrs[j], at[j + 1]) {
      assert j + 1 < |attrs| ==> text[at[j + 1]] == ' ';
      AttributeNext(singleQuote, text, conv, endch, attrs, texts, at, j);
    }
  }

  /** Steps that follow each other collect all attributes. */
  lemma {:induction false} Chain(step: StartStepper, n: nat, attrs: seq<Attr>, at: seq<nat>, i: nat)
    requires StartAdvances(step, n) && |at| == |attrs| + 1 && i <= |attrs| && forall j | 0 <= j <= |attrs| :: at[j] <= n
    requires forall j | 0 <= j < |attrs| :: step(at[j]) == Another(attrs[j], at[j + 1])
    ensures AttributesBy(step, n, at[i], attrs[..i]) == AttributesBy(step, n, at[|attrs|], attrs)
    decreases |attrs| - i
  {
    if i == |attrs| {
      assert attrs[..i] == attrs;
    } else {
      Chain(step, n, attrs, at, i + 1);
      assert attrs[..i + 1] == attrs[..i] + [attrs[i]];
    }
  }

  // --------------------------------------------------------------------- start tags

  /** The end of a start tag stands at z, cut off only where the text ends. */
  predicate TailAt(text: string, endch: char, z: nat, empty: bool, cut: bool) {
    if empty then Ends(text, z, "/>", cut) && (cut ==> endch == '>') else At(text, z) == '>' && z < |text|
  }

  function TailEnd(z: nat, empty: bool, cut: bool): nat {
    if empty && !cut then z + 2 else z + 1
  }

  lemma TailIs(text: string, endch: char, z: nat, empty: bool, cut: bool)
    requires TailAt(text, endch, z, empty, cut)
    ensures z < |text| && TailEnd(z, empty, cut) <= |text|
    ensures empty ==> text[z] == '/' && (if cut then z + 1 == |text| && endch == '>' else At(text, z + 1) == '>')
    ensures !empty ==> text[z] == '>'
    ensures !IsSymbol(text[z]) && !IsSpace(text[z])
  {
    if empty {
      if cut {
        assert "/>"[..|"/>"| - 1] == "/";
        StandsAt(text, z, "/", 0);
      } else {
        StandsAt(text, z, "/>", 0);
        StandsAt(text, z, "/>", 1);
      }
    }
  }

  lemma TailRead(text: string, conv: Converters, endch: char, z: nat, empty: bool, cut: bool)
    requires IsText(text) && Sound(conv, |text|) && TailAt(text, endch, z, empty, cut)
    ensures z <= |text| && StartStep(text, conv, endch, z) == TagDone(empty, TailEnd(z, empty, cut))
  {
    TailIs(text, endch, z, empty, cut);
    assert SpaceEnd(text, z) == z;
  }

  /** A blank before an attribute may be skipped beforehand. */
  lemma SkipBlank(text: string, conv: Converters, endch: char, e: nat)
    requires IsText(text) && Sound(conv, |text|) && e < |text| && text[e] == ' '
    ensures StartStep(text, conv, endch, e) == StartStep(text, conv, endch, e + 1)
  {
    assert SpaceEnd(text, e) == SpaceEnd(text, e + 1);
  }

  lemma StartSteppingLinked(text: string, conv: Converters, endch: char)
    requires IsText(text) && Sound(conv, |text|)
    ensures StartLinked(StartStepping(text, conv, endch), text, conv, endch)
  {
    StartSteppingAdvances(text, conv, endch);
  }

  /** The steps of the attribute loop: every attribute, then the end of the tag; the first blank may be skipped. */
  ghost predicate Chained(step: StartStepper, n: nat, attrs: seq<Attr>, at: seq<nat>, empty: bool, next: nat) {
    && StartAdvances(step, n) && |at| == |attrs| + 1 && (forall j | 0 <= j <= |attrs| :: at[j] <= n) && at[0] + 1 <= n
    && (forall j | 0 <= j < |attrs| :: step(at[j]) == Another(attrs[j], at[j + 1]))
    && step(at[|attrs|]) == TagDone(empty, next) && step(at[0] + 1) == step(at[0])
  }

  /** The whole attribute loop, given what its steps do. */
  lemma ChainToEnd(step: StartStepper, n: nat, attrs: seq<Attr>, at: seq<nat>, empty: bool, next: nat)
    requires Chained(step, n, attrs, at, empty, next)
    ensures AttributesBy(step, n, at[0] + 1, []) == Started(attrs, empty, next)
  {
    Chain(step, n, attrs, at, 0);
    assert attrs[..0] == [];
  }

  lemma AttributesOf(step: StartStepper, singleQuote: bool, text: string, conv: Converters, endch: char, attrs: seq<Attr>, texts: seq<string>, at: seq<nat>, empty: bool, cut: bool)
    requires StartLinked(step, text, conv, endch) && ReadsBack(conv, text) && GoodAttributes(attrs) && attrs != []
    requires TextsOf(singleQuote, attrs, texts, 0) && Laid(text, texts, at) && TailAt(text, endch, at[|attrs|], empty, cut)
    ensures at[0] < |text| && text[at[0]] == ' ' && Chained(step, |text|, attrs, at, empty, TailEnd(at[|attrs|], empty, cut))
  {
    LaidBlanks(singleQuote, text, attrs, texts, at);
    LaidInside(text, texts, at);
    TailIs(text, endch, at[|attrs|], empty, cut);
    FirstAndLast(step, text, conv, endch, at[0], at[|attrs|], empty, cut);
    StepsAre(step, singleQuote, text, conv, endch, attrs, texts, at);
  }

  lemma FirstAndLast(step: StartStepper, text: string, conv: Converters, endch: char, first: nat, last: nat, empty: bool, cut: bool)
    requires StartLinked(step, text, conv, endch) && first < |text| && text[first] == ' ' && TailAt(text, endch, last, empty, cut)
    ensures step(first + 1) == step(first) && step(last) == TagDone(empty, TailEnd(last, empty, cut))
  {
    SkipBlank(text, conv, endch, first);
    TailRead(text, conv, endch, last, empty, cut);
  }

  lemma LaidInside(text: string, texts: seq<string>, at: seq<nat>)
    requires Laid(text, texts, at)
    ensures forall j | 0 <= j < |at| :: at[j] <= |text|
  {
    forall j | 0 <= j < |at| ensures at[j] <= |text| {
      if j < |texts| {
        assert Stands(text, at[j], texts[j]);
      }
    }
  }

  /** The stack behind a start tag. */
  lemma PlainStartRead(text: string, conv: Converters, endch: char, s: nat, name: string, stack: seq<Open>, empty: bool, cut: bool)
    requires IsText(text) && Sound(conv, |text|) && stack != [] && ValidName(name) && Stands(text, s, name)
    requires TailAt(text, endch, s + |name|, empty, cut)
    ensures s < |text| && TagAt(text, conv, endch, s, stack) == Go(State(TailEnd(s + |name|, empty, cut), false, Opened(stack, name, [], empty)))
  {
    TailIs(text, endch, s + |name|, empty, cut);
    NameRead(text, s, name);
  }

  lemma AttributedStart(text: string, conv: Converters, endch: char, s: nat, name: string, stack: seq<Open>, attrs: seq<Attr>, empty: bool, next: nat)
    requires IsText(text) && Sound(conv, |text|) && stack != [] && ValidName(name) && Stands(text, s, name)
    requires s + |name| < |text| && text[s + |name|] == ' '
    requires Attributes(text, conv, endch, s + |name| + 1) == Started(attrs, empty, next)
    ensures s < |text| && TagAt(text, conv, endch, s, stack) == Go(State(next, false, Opened(stack, name, attrs, empty)))
  {
    NameRead(text, s, name);
  }

  /** A printed start tag is read; s is behind the `<`. */
  lemma StartRead(singleQuote: bool, text: string, conv: Converters, endch: char, s: nat, name: string, attrs: seq<Attr>, stack: seq<Open>,
                  texts: seq<string>, at: seq<nat>, empty: bool, cut: bool)
    requires ReadsBack(conv, text) && stack != [] && ValidName(name) && GoodAttributes(attrs) && Stands(text, s, name)
    requires TextsOf(singleQuote, attrs, texts, 0) && Laid(text, texts, at) && at[0] == s + |name|
    requires TailAt(text, endch, at[|attrs|], empty, cut)
    ensures s < |text|
    ensures TagAt(text, conv, endch, s, stack) == Go(State(TailEnd(at[|attrs|], empty, cut), false, Opened(stack, name, attrs, empty)))
  {
    if attrs == [] {
      PlainStartRead(text, conv, endch, s, name, stack, empty, cut);
    } else {
      AllAttributes(singleQuote, text, conv, endch, attrs, texts, at, empty, cut);
      AttributedStart(text, conv, endch, s, name, stack, attrs, empty, TailEnd(at[|attrs|], empty, cut));
    }
  }

  lemma AllAttributes(singleQuote: bool, text: string, conv: Converters, endch: char, attrs: seq<Attr>, texts: seq<string>, at: seq<nat>, empty: bool, cut: bool)
    requires ReadsBack(conv, text) && GoodAttributes(attrs) && attrs != []
    requires TextsOf(singleQuote, attrs, texts, 0) && Laid(text, texts, at) && TailAt(text, endch, at[|attrs|], empty, cut)
    ensures at[0] < |text| && text[at[0]] == ' '
    ensures Attributes(text, conv, endch, at[0] + 1) == Started(attrs, empty, TailEnd(at[|attrs|], empty, cut))
  {
    StartSteppingLinked(text, conv, endch);
    AttributesOf(StartStepping(text, conv, endch), singleQuote, text, conv, endch, attrs, texts, at, empty, cut);
    ChainToEnd(StartStepping(text, conv, endch), |text|, attrs, at, empty, TailEnd(at[|attrs|], empty, cut));
  }

  // ----------------------------------------------------------------------- end tags

  /** A printed end tag stands at z, cut off only where the text ends. */
  predicate EndTagStands(text: string, endch: char, z: nat, name: string, cut: bool) {
    Ends(text, z, EndText(name), cut) && (cut ==> endch == '>')
  }

  function EndTagEnd(z: nat, name: string, cut: bool): nat {
    if cut then z + 2 + |name| else z + 3 + |name|
  }

  lemma EndTagParts(text: string, endch: char, z: nat, name: string, cut: bool)
    requires EndTagStands(text, endch, z, name, cut)
    ensures z + 1 < |text| && text[z] == '<' && text[z + 1] == '/' && Stands(text, z + 2, name)
    ensures At(text, z + 2 + |name|) == if cut then '\0' else '>'
    ensures EndTagEnd(z, name, cut) <= |text| && (cut ==> z + 2 + |name| == |text|)
  {
    EndsSplit(text, z, ['<'], ['/'] + (name + ['>']), cut);
    EndsSplit(text, z + 1, ['/'], name + ['>'], cut);
    EndsSplit(text, z + 2, name, ['>'], cut);
    StandsAt(text, z, ['<'], 0);
    StandsAt(text, z + 1, ['/'], 0);
    if !cut {
      StandsAt(text, z + 2 + |name|, ['>'], 0);
    }
  }

  /** A printed end tag closes the innermost element. */
  lemma EndTagRead(text: string, conv: Converters, endch: char, z: nat, stack: seq<Open>, cut: bool)
    requires IsText(text) && Sound(conv, |text|) && |stack| > 1 && ValidName(stack[|stack| - 1].name)
    requires EndTagStands(text, endch, z, stack[|stack| - 1].name, cut)
    ensures z + 1 < |text|
    ensures TagAt(text, conv, endch, z + 1, stack) == Go(State(EndTagEnd(z, stack[|stack| - 1].name, cut), false, Pop(stack)))
  {
    var name := stack[|stack| - 1].name;
    var e := z + 2 + |name|;
    EndTagParts(text, endch, z, name, cut);
    NameRead(text, z + 2, name);
    assert SpaceEnd(text, e) == e;
  }

  // ------------------------------------------------------------------ character data

  lemma {:induction false} NoTagInside(singleQuote: bool, v: string, i: nat, k: nat)
    requires IsText(v) && i <= |v| && k < |EscapedFrom(InContent, singleQuote, v, i)|
    ensures EscapedFrom(InContent, singleQuote, v, i)[k] != '<' && EscapedFrom(InContent, singleQuote, v, i)[k] != '\0'
    decreases |v| - i
  {
    var e := EscapedChar(InContent, singleQuote, v[i]);
    NoTagInChar(singleQuote, v[i]);
    if k >= |e| {
      NoTagInside(singleQuote, v, i + 1, k - |e|);
    }
  }

  lemma NoTagInChar(singleQuote: bool, c: char)
    requires c != '\0'
    ensures var e := EscapedChar(InContent, singleQuote, c);
            e != "" && (forall k | 0 <= k < |e| :: e[k] != '<' && e[k] != '\0') && (!IsSpace(c) ==> !IsSpace(e[0]))
  {
  }

  /** A value that is not white space alone does not look so when it is printed. */
  lemma {:induction false} NotBlank(singleQuote: bool, v: string, i: nat, j: nat) returns (k: nat)
    requires IsText(v) && i <= j < |v| && !IsSpace(v[j])
    ensures k < |EscapedFrom(InContent, singleQuote, v, i)| && !IsSpace(EscapedFrom(InContent, singleQuote, v, i)[k])
    decreases j - i
  {
    NoTagInChar(singleQuote, v[i]);
    if i == j {
      k := 0;
    } else {
      k := NotBlank(singleQuote, v, i + 1, j);
      k := k + |EscapedChar(InContent, singleQuote, v[i])|;
    }
  }

  /** Printed character data is followed by a tag and does not contain one, nor is it blank. */
  ghost predicate LooksLikeText(text: string, s: nat, n: nat) {
    && s + n + 1 < |text| && text[s + n] == '<'
    && (forall k | s <= k < s + n :: text[k] != '<' && text[k] != '\0')
    && exists k :: s <= k < s + n && !IsSpace(text[k])
  }

  lemma PrintedLooks(singleQuote: bool, text: string, s: nat, v: string)
    requires GoodText(v) && Stands(text, s, Escaped(InContent, singleQuote, v))
    requires var n := |Escaped(InContent, singleQuote, v)|; s + n + 1 < |text| && text[s + n] == '<'
    ensures LooksLikeText(text, s, |Escaped(InContent, singleQuote, v)|)
  {
    var e := Escaped(InContent, singleQuote, v);
    forall k | s <= k < s + |e| ensures text[k] != '<' && text[k] != '\0' {
      NoTagInside(singleQuote, v, 0, k - s);
      StandsAt(text, s, e, k - s);
    }
    var j :| 0 <= j < |v| && !IsSpace(v[j]);
    var k := NotBlank(singleQuote, v, 0, j);
    StandsAt(text, s, e, k);
    assert !IsSpace(text[s + k]);
  }

  /** Text that looks like text is taken as character data of the innermost element. */
  lemma TextRead(text: string, conv: Converters, s: nat, n: nat, stack: seq<Open>, v: string)
    requires IsText(text) && Sound(conv, |text|) && |stack| > 1 && LooksLikeText(text, s, n)
    requires conv.content(s) == Ended(v, s + n + 1)
    ensures s < |text| && text[s] != '<'
    ensures TextAt(text, conv, s, stack) == Go(State(s + n + 1, true, AppendChild(stack, PcDataNode(v))))
  {
    var k :| s <= k < s + n && !IsSpace(text[k]);
    var w := SpaceEnd(text, s);
    assert forall j | s <= j < w :: IsSpace(text[j]);
  }

  // --------------------------------------------------------------------- whole trees

  ghost predicate Runs(step: Machine, text: string, conv: Converters, endch: char) {
    && ReadsBack(conv, text) && MachineAdvances(step, |text|)
    && forall m: State {:trigger ParseStep(text, conv, endch, m)} | m.s <= |text| && m.stack != [] ::
         step(m) == ParseStep(text, conv, endch, m)
  }

  /** From a the machine ends as it does from b. */
  ghost predicate Leads(step: Machine, n: nat, a: State, b: State) {
    && MachineAdvances(step, n) && a.s <= n && b.s <= n && a.stack != [] && b.stack != []
    && RunBy(step, n, a) == RunBy(step, n, b)
  }

  lemma LeadsByTwo(step: Machine, n: nat, a: State, m: State, b: State)
    requires MachineAdvances(step, n) && a.s <= n && a.stack != [] && step(a) == Go(m) && step(m) == Go(b)
    ensures Leads(step, n, a, b)
  {
  }

  /** Two states with the same next state end alike. */
  lemma LeadsBoth(step: Machine, n: nat, a: State, b: State, m: State)
    requires MachineAdvances(step, n) && a.s <= n && a.stack != [] && b.s <= n && b.stack != [] && step(a) == Go(m) && step(b) == Go(m)
    ensures Leads(step, n, a, b)
  {
  }

  /** At a `<` the machine goes on behind it. */
  lemma TagBegins(step: Machine, text: string, conv: Converters, endch: char, s: nat, stack: seq<Open>)
    requires Runs(step, text, conv, endch) && s < |text| && text[s] == '<' && stack != []
    ensures step(State(s, false, stack)) == Go(State(s + 1, true, stack))
  {
    assert ParseStep(text, conv, endch, State(s, false, stack)) == Go(State(s + 1, true, stack));
  }

  lemma TagLeads(step: Machine, text: string, conv: Converters, endch: char, s: nat, stack: seq<Open>, to: State)
    requires Runs(step, text, conv, endch) && s + 1 <= |text| && text[s] == '<' && stack != []
    requires TagAt(text, conv, endch, s + 1, stack) == Go(to)
    ensures Leads(step, |text|, State(s, false, stack), to)
  {
    TagBegins(step, text, conv, endch, s, stack);
    assert ParseStep(text, conv, endch, State(s + 1, true, stack)) == Go(to);
    LeadsByTwo(step, |text|, State(s, false, stack), State(s + 1, true, stack), to);
  }

  /** The parts of a printed start tag. */
  lemma StartParts(singleQuote: bool, text: string, endch: char, s: nat, t: Tree, cut: bool) returns (texts: seq<string>, at: seq<nat>)
    requires t.name != "" && t.value == "" && Ends(text, s, StartText(singleQuote, t), cut) && (cut ==> t.children == [] && endch == '>')
    ensures s < |text| && text[s] == '<' && Stands(text, s + 1, t.name)
    ensures TextsOf(singleQuote, t.attrs, texts, 0) && Laid(text, texts, at) && at[0] == s + 1 + |t.name|
    ensures TailAt(text, endch, at[|t.attrs|], t.children == [], cut)
    ensures TailEnd(at[|t.attrs|], t.children == [], cut) == (if cut then |text| else s + |StartText(singleQuote, t)|)
  {
    var tail := StartSplit(singleQuote, text, s, t, cut);
    texts, at := LayAttributes(singleQuote, text, s + 1 + |t.name|, t.attrs, 0);
    TailStands(text, endch, at[|t.attrs|], tail, t.children == [], cut);
  }

  lemma StartSplit(singleQuote: bool, text: string, s: nat, t: Tree, cut: bool) returns (tail: string)
    requires t.name != "" && t.value == "" && Ends(text, s, StartText(singleQuote, t), cut)
    ensures tail == if t.children == [] then "/>" else ">"
    ensures s < |text| && text[s] == '<' && Stands(text, s + 1, t.name)
    ensures Stands(text, s + 1 + |t.name|, AttributesText(singleQuote, t.attrs, 0))
    ensures Ends(text, s + 1 + |t.name| + |AttributesText(singleQuote, t.attrs, 0)|, tail, cut)
    ensures |StartText(singleQuote, t)| == 1 + |t.name| + |AttributesText(singleQuote, t.attrs, 0)| + |tail|
  {
    tail := StartTail(singleQuote, t);
    TagParts(text, s, t.name, AttributesText(singleQuote, t.attrs, 0), tail, cut);
  }

  lemma TagParts(text: string, s: nat, name: string, attributes: string, tail: string, cut: bool)
    requires tail != "" && Ends(text, s, ['<'] + (name + (attributes + tail)), cut)
    ensures s < |text| && text[s] == '<' && Stands(text, s + 1, name) && Stands(text, s + 1 + |name|, attributes)
    ensures Ends(text, s + 1 + |name| + |attributes|, tail, cut)
  {
    EndsSplit(text, s, ['<'], name + (attributes + tail), cut);
    StandsAt(text, s, ['<'], 0);
    EndsSplit(text, s + 1, name, attributes + tail, cut);
    EndsSplit(text, s + 1 + |name|, attributes, tail, cut);
  }

  lemma TailStands(text: string, endch: char, z: nat, tail: string, empty: bool, cut: bool)
    requires tail == (if empty then "/>" else ">") && Ends(text, z, tail, cut) && (cut ==> empty && endch == '>')
    ensures TailAt(text, endch, z, empty, cut)
    ensures TailEnd(z, empty, cut) == (if cut then |text| else z + |tail|)
  {
    if !empty {
      StandsAt(text, z, ">", 0);
    }
  }

  /** A start tag is read: the element is open, or complete if it is empty. */
  lemma StartLeads(step: Machine, singleQuote: bool, text: string, conv: Converters, endch: char, s: nat, t: Tree, stack: seq<Open>, cut: bool)
    requires Runs(step, text, conv, endch) && stack != [] && ValidName(t.name) && GoodAttributes(t.attrs) && t.value == ""
    requires Ends(text, s, StartText(singleQuote, t), cut) && (cut ==> t.children == [] && endch == '>')
    ensures Leads(step, |text|, State(s, false, stack),
                  State(if cut then |text| else s + |StartText(singleQuote, t)|, false, Opened(stack, t.name, t.attrs, t.children == [])))
  {
    var texts, at := StartParts(singleQuote, text, endch, s, t, cut);
    StartGoes(step, singleQuote, text, conv, endch, s, t.name, t.attrs, stack, texts, at, t.children == [], cut);
  }

  lemma StartGoes(step: Machine, singleQuote: bool, text: string, conv: Converters, endch: char, s: nat, name: string, attrs: seq<Attr>, stack: seq<Open>,
                  texts: seq<string>, at: seq<nat>, empty: bool, cut: bool)
    requires Runs(step, text, conv, endch) && stack != [] && ValidName(name) && GoodAttributes(attrs)
    requires s < |text| && text[s] == '<' && Stands(text, s + 1, name)
    requires TextsOf(singleQuote, attrs, texts, 0) && Laid(text, texts, at) && at[0] == s + 1 + |name|
    requires TailAt(text, endch, at[|attrs|], empty, cut)
    ensures Leads(step, |text|, State(s, false, stack), State(TailEnd(at[|attrs|], empty, cut), false, Opened(stack, name, attrs, empty)))
  {
    StartRead(singleQuote, text, conv, endch, s + 1, name, attrs, stack, texts, at, empty, cut);
    TagLeads(step, text, conv, endch, s, stack, State(TailEnd(at[|attrs|], empty, cut), false, Opened(stack, name, attrs, empty)));
  }

  lemma LeadsOn(step: Machine, n: nat, a: State, b: State, c: State)
    requires Leads(step, n, a, b) && Leads(step, n, b, c)
    ensures Leads(step, n, a, c)
  {
  }

  /** The stack after all nodes are appended to the innermost element. */
  function AppendAll(stack: seq<Open>, nodes: seq<Tree>): (r: seq<Open>)
    requires stack != []
    ensures |r| == |stack|
  {
    var top := stack[|stack| - 1];
    stack[..|stack| - 1] + [top.(children := top.children + nodes)]
  }

  lemma AppendFirst(stack: seq<Open>, t: Tree, nodes: seq<Tree>)
    requires stack != []
    ensures AppendAll(AppendChild(stack, t), nodes) == AppendAll(stack, [t] + nodes)
  {
    var top := stack[|stack| - 1];
    assert top.children + [t] + nodes == top.children + ([t] + nodes);
    assert AppendChild(stack, t)[..|stack| - 1] == stack[..|stack| - 1];
  }

  lemma AppendNothing(stack: seq<Open>)
    requires stack != []
    ensures AppendAll(stack, []) == stack
  {
    assert stack[|stack| - 1].children + [] == stack[|stack| - 1].children;
  }
}
