/**
 `parse_tree` with the default options: the parser as a machine that takes one construct
 after the other.
 */
module XmlParse {
  import opened Wrappers
  import opened XmlTree
  import opened XmlChars
  import opened XmlDecode
  import opened XmlMarkup

  /** `xml_parse_status`, as far as the parser itself reports it. */
  datatype Status =
    | UnrecognizedTag | BadPi | BadComment | BadCData | BadDoctype | BadStartElement | BadAttribute | BadEndElement
    | EndElementMismatch | NoDocumentElement

  type Parsed = Result<seq<Tree>, Status>

  /** An element whose end tag is still to come; the document itself is at the bottom of the stack, without a name. */
  datatype Open = Open(name: string, attrs: seq<Attr>, children: seq<Tree>)

  /** Where the parser stands: at s, right behind a `<` if inTag, with the elements that are open. */
  datatype State = State(s: nat, inTag: bool, stack: seq<Open>)

  datatype Move = Go(to: State) | Halt(result: Parsed)

  // --------------------------------------------------------------------- converters

  /**
   What `strconv_attribute`, `strconv_pcdata` and `strconv_cdata` make of one text, from a position on; the character
   is the quotation mark or the one that the terminator replaced.
   */
  datatype Converters = Converters(attribute: (nat, char) -> Decoded, content: nat -> Decoded, section: (nat, char) -> Decoded)

  /** A converter stays inside the text and moves on. */
  ghost predicate Sound(conv: Converters, n: nat) {
    && (forall i: nat, q: char | i <= n && conv.attribute(i, q).Ended? :: i <= conv.attribute(i, q).next <= n)
    && (forall i: nat | i < n && conv.content(i).Ended? :: i < conv.content(i).next <= n)
    && (forall i: nat, e: char | i <= n && conv.section(i, e).Ended? :: i < conv.section(i, e).next < n)
  }

  const CONTENT := Rules(ToLineFeed, true, AtTag)

  function ValueRules(quote: char): Rules {
    Rules(ToBlank, true, AtQuote(quote))
  }

  function SectionRules(endch: char): Rules {
    Rules(ToLineFeed, false, AtCData(endch))
  }

  /** The converters of the default options. */
  function DefaultConverters(text: string): Converters
    requires IsText(text)
  {
    Converters(
      (i: nat, q: char) => if i <= |text| && q != '\0' then DecodeFrom(ValueRules(q), text, i) else Unterminated,
      (i: nat) => if i <= |text| then DecodeFrom(CONTENT, text, i) else Unterminated,
      (i: nat, e: char) => if i <= |text| then DecodeFrom(SectionRules(e), text, i) else Unterminated)
  }

  lemma {:induction false} DecodeEndsInside(r: Rules, text: string, i: nat)
    requires IsText(text) && i <= |text| && (r.stop.AtQuote? ==> r.stop.quote != '\0')
    ensures DecodeFrom(r, text, i).Ended? && (r.stop.AtQuote? || r.stop.AtTag?) ==>
            i <= DecodeFrom(r, text, i).next <= |text| && (r.stop.AtQuote? || i < |text| ==> i < DecodeFrom(r, text, i).next)
    decreases |text| - i
  {
    StepAdvances(r, text, i);
    var step := StepAt(r, text, i);
    if step.More? {
      DecodeEndsInside(r, text, step.next);
    }
  }

  lemma {:induction false} SectionEndsInside(endch: char, text: string, i: nat)
    requires IsText(text) && i <= |text|
    ensures var d := DecodeFrom(SectionRules(endch), text, i); d.Ended? ==> i < d.next < |text| && text[d.next] == ']'
    decreases |text| - i
  {
    StepAdvances(SectionRules(endch), text, i);
    var step := StepAt(SectionRules(endch), text, i);
    if step.More? {
      SectionEndsInside(endch, text, step.next);
    }
  }

  lemma DefaultSound(text: string)
    requires IsText(text)
    ensures Sound(DefaultConverters(text), |text|)
  {
    var conv := DefaultConverters(text);
    forall i: nat, q: char | i <= |text| && conv.attribute(i, q).Ended? ensures i <= conv.attribute(i, q).next <= |text| {
      DecodeEndsInside(ValueRules(q), text, i);
    }
    forall i: nat | i < |text| && conv.content(i).Ended? ensures i < conv.content(i).next <= |text| {
      DecodeEndsInside(CONTENT, text, i);
    }
    forall i: nat, e: char | i <= |text| && conv.section(i, e).Ended? ensures i < conv.section(i, e).next < |text| {
      SectionEndsInside(e, text, i);
    }
  }

  // ------------------------------------------------------------------------ scanning

  function SymbolEnd(text: string, k: nat): (r: nat)
    requires k <= |text|
    ensures k <= r <= |text| && !IsSymbol(At(text, r)) && (IsSymbol(At(text, k)) ==> k < r)
    decreases |text| - k
  {
    if IsSymbol(At(text, k)) then SymbolEnd(text, k + 1) else k
  }

  /** The next `<`, or the end. */
  function TagFrom(text: string, k: nat): (r: nat)
    requires k <= |text|
    ensures k <= r <= |text| && (r < |text| ==> text[r] == '<')
    decreases |text| - k
  {
    if k == |text| || text[k] == '<' then k else TagFrom(text, k + 1)
  }

  // ---------------------------------------------------------------------- attributes

  /** In a start tag: one more attribute, the end of the tag, or an error. */
  datatype InStart = Another(a: Attr, next: nat) | TagDone(empty: bool, next: nat) | Bad(status: Status)

  /** The value of an attribute whose name ends at e. */
  function AttributeValue(text: string, conv: Converters, name: string, e: nat): (r: InStart)
    requires IsText(text) && Sound(conv, |text|) && e <= |text|
    ensures !r.TagDone? && (r.Another? ==> e < r.next <= |text|)
  {
    var eq := if IsSpace(At(text, e)) then SpaceEnd(text, e + 1) else e;
    if At(text, eq) != '=' then Bad(BadAttribute)
    else
      var q := SpaceEnd(text, eq + 1);
      if At(text, q) != '"' && At(text, q) != '\'' then Bad(BadAttribute) else ValueAt(text, conv, name, q)
  }

  /** The value behind the quotation mark at q. */
  function ValueAt(text: string, conv: Converters, name: string, q: nat): (r: InStart)
    requires IsText(text) && Sound(conv, |text|) && q < |text|
    ensures !r.TagDone? && (r.Another? ==> q < r.next <= |text|)
  {
    match conv.attribute(q + 1, text[q])
    case Unterminated => Bad(BadAttribute)
    case Ended(value, next) => if IsStartSymbol(At(text, next)) then Bad(BadAttribute) else Another(Attr(name, value), next)
  }

  function StartStep(text: string, conv: Converters, endch: char, s: nat): InStart
    requires IsText(text) && Sound(conv, |text|) && s <= |text|
  {
    var k := SpaceEnd(text, s);
    if IsStartSymbol(At(text, k)) then
      var e := SymbolEnd(text, k);
      AttributeValue(text, conv, text[k..e], e)
    else if At(text, k) == '/' then
      if At(text, k + 1) == '>' then TagDone(true, k + 2)
      else if At(text, k + 1) == '\0' && endch == '>' then TagDone(true, k + 1)
      else Bad(BadStartElement)
    else if At(text, k) == '>' then TagDone(false, k + 1)
    else if At(text, k) == '\0' && endch == '>' then TagDone(false, k)
    else Bad(BadStartElement)
  }

  lemma StartStepAdvances(text: string, conv: Converters, endch: char, s: nat)
    requires IsText(text) && Sound(conv, |text|) && s <= |text|
    ensures var step := StartStep(text, conv, endch, s);
            && (step.Another? ==> s < step.next <= |text|) && (step.TagDone? ==> s <= step.next <= |text|)
  {
  }

  /** The attributes of a start tag and where it ends. */
  datatype Starts = Started(attrs: seq<Attr>, empty: bool, next: nat) | Failed(status: Status)

  type StartStepper = nat -> InStart

  ghost predicate StartAdvances(step: StartStepper, n: nat) {
    forall s: nat | s <= n ::
      (step(s).Another? ==> s < step(s).next <= n) && (step(s).TagDone? ==> s <= step(s).next <= n)
  }

  /** The attribute loop, for any way of taking one step. */
  function AttributesBy(step: StartStepper, n: nat, s: nat, attrs: seq<Attr>): (r: Starts)
    requires StartAdvances(step, n) && s <= n
    ensures r.Started? ==> s <= r.next <= n
    decreases n - s
  {
    match step(s)
    case Another(a, next) => AttributesBy(step, n, next, attrs + [a])
    case TagDone(empty, next) => Started(attrs, empty, next)
    case Bad(status) => Failed(status)
  }

  function StartStepping(text: string, conv: Converters, endch: char): StartStepper
    requires IsText(text) && Sound(conv, |text|)
  {
    (s: nat) => if s <= |text| then StartStep(text, conv, endch, s) else Bad(BadStartElement)
  }

  lemma StartSteppingAdvances(text: string, conv: Converters, endch: char)
    requires IsText(text) && Sound(conv, |text|)
    ensures StartAdvances(StartStepping(text, conv, endch), |text|)
  {
    forall s: nat | s <= |text| {
      StartStepAdvances(text, conv, endch, s);
    }
  }

  function Attributes(text: string, conv: Converters, endch: char, s: nat): Starts
    requires IsText(text) && Sound(conv, |text|) && s <= |text|
  {
    StartSteppingAdvances(text, conv, endch);
    AttributesBy(StartStepping(text, conv, endch), |text|, s, [])
  }

  // --------------------------------------------------------------------- constructs

  function Push(stack: seq<Open>, name: string, attrs: seq<Attr>): seq<Open> {
    stack + [Open(name, attrs, [])]
  }

  function AppendChild(stack: seq<Open>, t: Tree): (r: seq<Open>)
    requires stack != []
    ensures |r| == |stack|
  {
    var top := stack[|stack| - 1];
    stack[..|stack| - 1] + [top.(children := top.children + [t])]
  }

  function Closed(o: Open): Tree {
    Tree(Element, o.name, "", o.attrs, o.children)
  }

  /** Closes the innermost open element. */
  function Pop(stack: seq<Open>): (r: seq<Open>)
    requires |stack| > 1
    ensures |r| == |stack| - 1
  {
    AppendChild(stack[..|stack| - 1], Closed(stack[|stack| - 1]))
  }

  /** An element is opened, and closed at once if it is empty. */
  function Opened(stack: seq<Open>, name: string, attrs: seq<Attr>, empty: bool): seq<Open>
    requires stack != []
  {
    if empty then Pop(Push(stack, name, attrs)) else Push(stack, name, attrs)
  }

  /** A start tag whose name is followed by white space at e. */
  function FullStart(text: string, conv: Converters, endch: char, name: string, e: nat, stack: seq<Open>): Move
    requires IsText(text) && Sound(conv, |text|) && e < |text| && stack != []
  {
    match Attributes(text, conv, endch, e + 1)
    case Failed(status) => Halt(Err(status))
    case Started(attrs, empty, next) => Go(State(next, false, Opened(stack, name, attrs, empty)))
  }

  /** A start tag whose name ends at e and is followed by something else. */
  function PlainStart(text: string, endch: char, name: string, e: nat, stack: seq<Open>): Move
    requires e <= |text| && stack != []
  {
    if At(text, e) == '>' then Go(State(e + 1, false, Opened(stack, name, [], false)))
    else if At(text, e) == '/' then
      if At(text, e + 1) == '>' then Go(State(e + 2, false, Opened(stack, name, [], true)))
      else if At(text, e + 1) == '\0' && endch == '>' then Go(State(e + 1, false, Opened(stack, name, [], true)))
      else Halt(Err(BadStartElement))
    else if At(text, e) == '\0' && endch == '>' then Go(State(e, false, Opened(stack, name, [], false)))
    else Halt(Err(BadStartElement))
  }

  /** A start tag; s is behind the `<`. */
  function StartTag(text: string, conv: Converters, endch: char, s: nat, stack: seq<Open>): Move
    requires IsText(text) && Sound(conv, |text|) && s <= |text| && IsStartSymbol(At(text, s)) && stack != []
  {
    var e := SymbolEnd(text, s);
    if IsSpace(At(text, e)) then FullStart(text, conv, endch, text[s..e], e, stack)
    else PlainStart(text, endch, text[s..e], e, stack)
  }

  /** An end tag; s is behind the `</`. */
  function EndTagAt(text: string, endch: char, s: nat, stack: seq<Open>): Move
    requires s <= |text| && stack != []
  {
    if |stack| == 1 then Halt(Err(EndElementMismatch))
    else
      var name, e := stack[|stack| - 1].name, SymbolEnd(text, s);
      var read := text[s..e];
      if read != name then
        if read < name && e == |text| && name[|read|..] == [endch] then Halt(Err(BadEndElement)) else Halt(Err(EndElementMismatch))
      else
        var k := SpaceEnd(text, e);
        if At(text, k) == '>' then Go(State(k + 1, false, Pop(stack)))
        else if At(text, k) == '\0' && endch == '>' then Go(State(k, false, Pop(stack)))
        else Halt(Err(BadEndElement))
  }

  function SectionNode(value: string): Tree {
    Tree(CData, "", value, [], [])
  }

  /** Markup that is skipped up to a position, if it is closed. */
  function Skipped(next: Option<nat>, stack: seq<Open>, error: Status): Move {
    if next.Some? then Go(State(next.value, false, stack)) else Halt(Err(error))
  }

  /** `parse_question`; s is behind the `<?`. */
  function QuestionAt(text: string, endch: char, s: nat, stack: seq<Open>): Move
    requires s <= |text|
  {
    if !IsStartSymbol(At(text, s)) then Halt(Err(BadPi))
    else Skipped(SkipPi(text, endch, SymbolEnd(text, s)), stack, BadPi)
  }

  /** The word stands at s. */
  predicate WordAt(text: string, s: nat, word: string): (b: bool)
    ensures b && word != "" && word[|word| - 1] != '\0' ==> s + |word| <= |text|
  {
    assert (forall i | 0 <= i < |word| :: At(text, s + i) == word[i]) && word != "" ==> At(text, s + (|word| - 1)) == word[|word| - 1];
    forall i | 0 <= i < |word| :: At(text, s + i) == word[i]
  }

  /** A CDATA section whose text begins at s. */
  function SectionAt(text: string, conv: Converters, endch: char, s: nat, stack: seq<Open>): Move
    requires IsText(text) && Sound(conv, |text|) && s <= |text| && stack != []
  {
    match conv.section(s, endch)
    case Unterminated => Halt(Err(BadCData))
    case Ended(value, next) =>
      Go(State(if At(text, next + 1) == '>' then next + 2 else next + 1, false, AppendChild(stack, SectionNode(value))))
  }

  /** What begins with a hyphen behind the `<!` at s. */
  function CommentAt(text: string, endch: char, s: nat, stack: seq<Open>): Move
    requires s < |text|
  {
    if At(text, s + 1) == '-' then Skipped(SkipComment(text, endch, s + 2), stack, BadComment) else Halt(Err(BadComment))
  }

  /** What begins with a bracket behind the `<!` at s. */
  function BracketAt(text: string, conv: Converters, endch: char, s: nat, stack: seq<Open>): Move
    requires IsText(text) && Sound(conv, |text|) && s < |text| && stack != []
  {
    if WordAt(text, s + 1, "CDATA[") then SectionAt(text, conv, endch, s + 7, stack) else Halt(Err(BadCData))
  }

  /** A document type or an error; s is behind the `<!`. */
  function DeclaredAt(text: string, endch: char, s: nat, stack: seq<Open>): Move
    requires s <= |text|
  {
    if WordAt(text, s, "DOCTYP") && EndsWith(text, endch, s + 6, 'E') then
      if |stack| > 1 then Halt(Err(BadDoctype)) else Skipped(SkipDoctype(text, endch, s), stack, BadDoctype)
    else if At(text, s) == '\0' && endch == '-' then Halt(Err(BadComment))
    else if At(text, s) == '\0' && endch == '[' then Halt(Err(BadCData))
    else Halt(Err(UnrecognizedTag))
  }

  /** `parse_exclamation`; s is behind the `<!`. */
  function ExclamationAt(text: string, conv: Converters, endch: char, s: nat, stack: seq<Open>): Move
    requires IsText(text) && Sound(conv, |text|) && s <= |text| && stack != []
  {
    if At(text, s) == '-' then CommentAt(text, endch, s, stack)
    else if At(text, s) == '[' then BracketAt(text, conv, endch, s, stack)
    else DeclaredAt(text, endch, s, stack)
  }

  /** A tag that does not begin with a name. */
  function SignAt(text: string, conv: Converters, endch: char, s: nat, stack: seq<Open>): Move
    requires IsText(text) && Sound(conv, |text|) && s < |text| && stack != []
  {
    match text[s]
    case '/' => EndTagAt(text, endch, s + 1, stack)
    case '?' => QuestionAt(text, endch, s + 1, stack)
    case '!' => ExclamationAt(text, conv, endch, s + 1, stack)
    case _ => Halt(Err(UnrecognizedTag))
  }

  /** What comes behind a `<`. */
  function TagAt(text: string, conv: Converters, endch: char, s: nat, stack: seq<Open>): Move
    requires IsText(text) && Sound(conv, |text|) && s <= |text| && stack != []
  {
    if IsStartSymbol(At(text, s)) then StartTag(text, conv, endch, s, stack)
    else if s < |text| then SignAt(text, conv, endch, s, stack)
    else Halt(Err(if endch == '?' then BadPi else UnrecognizedTag))
  }

  function PcDataNode(value: string): Tree {
    Tree(PcData, "", value, [], [])
  }

  /** The end of the input: the last tag must be closed. */
  function AtEnd(stack: seq<Open>): Move
    requires stack != []
  {
    if |stack| == 1 then Halt(Ok(stack[0].children)) else Halt(Err(EndElementMismatch))
  }

  /** Text before the next tag: white space alone and text outside of elements are skipped. */
  function TextAt(text: string, conv: Converters, s: nat, stack: seq<Open>): Move
    requires IsText(text) && Sound(conv, |text|) && s < |text| && text[s] != '<' && stack != []
  {
    var w := SpaceEnd(text, s);
    if At(text, w) == '<' || At(text, w) == '\0' then Go(State(w, false, stack))
    else if |stack| > 1 then
      match conv.content(s)
      case Unterminated => AtEnd(stack)
      case Ended(value, next) =>
        var with := AppendChild(stack, PcDataNode(value));
        if At(text, next) == '\0' then AtEnd(with) else Go(State(next, true, with))
    else
      var k := TagFrom(text, s);
      if k == |text| then AtEnd(stack) else Go(State(k + 1, true, stack))
  }

  /** One step of the loop of `parse_tree`. */
  function ParseStep(text: string, conv: Converters, endch: char, m: State): Move
    requires IsText(text) && Sound(conv, |text|) && m.s <= |text| && m.stack != []
  {
    if m.inTag then TagAt(text, conv, endch, m.s, m.stack)
    else if m.s == |text| then AtEnd(m.stack)
    else if text[m.s] == '<' then Go(m.(s := m.s + 1, inTag := true))
    else TextAt(text, conv, m.s, m.stack)
  }

  // ------------------------------------------------------------------------ running

  /** A move goes on behind s, or ends. */
  predicate Onward(text: string, s: nat, move: Move) {
    move.Go? ==> s < move.to.s <= |text| && move.to.stack != []
  }

  lemma ExclamationOnward(text: string, conv: Converters, endch: char, s: nat, stack: seq<Open>)
    requires IsText(text) && Sound(conv, |text|) && 0 < s <= |text| && stack != []
    ensures Onward(text, s - 1, ExclamationAt(text, conv, endch, s, stack))
  {
  }

  lemma StartOnward(text: string, conv: Converters, endch: char, s: nat, stack: seq<Open>)
    requires IsText(text) && Sound(conv, |text|) && s <= |text| && IsStartSymbol(At(text, s)) && stack != []
    ensures Onward(text, s, StartTag(text, conv, endch, s, stack))
  {
  }

  lemma EndOnward(text: string, endch: char, s: nat, stack: seq<Open>)
    requires 0 < s <= |text| && stack != []
    ensures Onward(text, s - 1, EndTagAt(text, endch, s, stack))
  {
  }

  lemma TagAdvances(text: string, conv: Converters, endch: char, s: nat, stack: seq<Open>)
    requires IsText(text) && Sound(conv, |text|) && s <= |text| && stack != []
    ensures Onward(text, s, TagAt(text, conv, endch, s, stack))
  {
    if IsStartSymbol(At(text, s)) {
      StartOnward(text, conv, endch, s, stack);
    } else if s < |text| {
      EndOnward(text, endch, s + 1, stack);
      ExclamationOnward(text, conv, endch, s + 1, stack);
    }
  }

  lemma TextAdvances(text: string, conv: Converters, s: nat, stack: seq<Open>)
    requires IsText(text) && Sound(conv, |text|) && s < |text| && text[s] != '<' && stack != []
    ensures var move := TextAt(text, conv, s, stack); move.Go? ==> s < move.to.s <= |text| && move.to.stack != []
  {
  }

  lemma ParseAdvances(text: string, conv: Converters, endch: char, m: State)
    requires IsText(text) && Sound(conv, |text|) && m.s <= |text| && m.stack != []
    ensures var move := ParseStep(text, conv, endch, m); move.Go? ==> m.s < move.to.s <= |text| && move.to.stack != []
  {
    if m.inTag {
      TagAdvances(text, conv, endch, m.s, m.stack);
    } else if m.s < |text| && text[m.s] != '<' {
      TextAdvances(text, conv, m.s, m.stack);
    }
  }

  type Machine = State -> Move

  ghost predicate MachineAdvances(step: Machine, n: nat) {
    forall m: State | m.s <= n && m.stack != [] && step(m).Go? :: m.s < step(m).to.s <= n && step(m).to.stack != []
  }

  /** Runs a machine to its end. */
  function RunBy(step: Machine, n: nat, m: State): Parsed
    requires MachineAdvances(step, n) && m.s <= n && m.stack != []
    decreases n - m.s
  {
    match step(m)
    case Halt(r) => r
    case Go(to) => RunBy(step, n, to)
  }

  function Parsing(text: string, conv: Converters, endch: char): Machine
    requires IsText(text) && Sound(conv, |text|)
  {
    (m: State) => if m.s <= |text| && m.stack != [] then ParseStep(text, conv, endch, m) else Halt(Err(UnrecognizedTag))
  }

  lemma ParsingAdvances(text: string, conv: Converters, endch: char)
    requires IsText(text) && Sound(conv, |text|)
    ensures MachineAdvances(Parsing(text, conv, endch), |text|)
  {
    forall m: State | m.s <= |text| && m.stack != [] {
      ParseAdvances(text, conv, endch, m);
    }
  }

  /** `parse_tree`: the nodes below the document. */
  function ParseTree(text: string, conv: Converters, endch: char, s: nat): Parsed
    requires IsText(text) && Sound(conv, |text|) && s <= |text|
  {
    ParsingAdvances(text, conv, endch);
    RunBy(Parsing(text, conv, endch), |text|, State(s, false, [Open("", [], [])]))
  }

  predicate HasElement(nodes: seq<Tree>) {
    exists i | 0 <= i < |nodes| :: nodes[i].kind == Element
  }

  /** The byte order mark is not part of the text. */
  function BomEnd(text: string): (k: nat)
    ensures k <= |text|
  {
    if |text| >= 3 && text[0] as nat == 0xEF && text[1] as nat == 0xBB && text[2] as nat == 0xBF then 3 else 0
  }

  /** `parse`: the last character of the buffer makes room for the terminator; a copied buffer ends with one. */
  function ParseDocument(buffer: string): Parsed
    requires buffer != "" ==> IsText(buffer[..|buffer| - 1])
  {
    if buffer == "" then Err(NoDocumentElement)
    else
      var n := |buffer| - 1;
      var text, endch := buffer[..n], buffer[n];
      DefaultSound(text);
      match ParseTree(text, DefaultConverters(text), endch, BomEnd(text))
      case Err(status) => Err(status)
      case Ok(nodes) =>
        if endch == '<' then Err(UnrecognizedTag)
        else if HasElement(nodes) then Ok(nodes)
        else Err(NoDocumentElement)
  }
}
