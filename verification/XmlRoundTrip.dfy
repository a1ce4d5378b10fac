/** Printing a document and parsing it gives the document back. */
module XmlRoundTrip {
  import opened Wrappers
  import opened XmlTree
  import opened XmlChars
  import opened XmlDecode
  import opened XmlSurvive
  import opened XmlPrint
  import opened XmlParse
  import opened XmlReadBack
  import opened XmlSimpleBack
  import XmlSimple
  import XmlDoctype

  // ------------------------------------------------------------ what can be read back

  /** No character data stands next to character data. */
  predicate Apart(nodes: seq<Tree>) {
    forall i | 0 < i < |nodes| :: nodes[i].kind != PcData || nodes[i - 1].kind != PcData
  }

  /** Nodes that are printed as what they are, wherever they stand: with text that markup can hold. */
  predicate Good(t: Tree)
    decreases t
  {
    match t.kind
    case Element =>
      ValidName(t.name) && t.value == "" && GoodAttributes(t.attrs) && Apart(t.children)
      && forall i | 0 <= i < |t.children| :: Good(t.children[i])
    case PcData => t.name == "" && t.attrs == [] && t.children == [] && GoodText(t.value)
    case CData => t.name == "" && t.attrs == [] && t.children == [] && IsText(t.value) && NoReturn(t.value, 0)
    case Comment => IsText(t.value)
    case Pi => ValidName(t.name) && IsText(t.value)
    case Declaration => ValidName(t.name) && GoodAttributes(t.attrs) && UnbrokenValues(t.attrs)
    case _ => false
  }

  /** A document type in which nothing is left open. */
  ghost predicate GoodDoctype(t: Tree) {
    t.kind == Doctype && IsText(t.value) && XmlDoctype.WellClosed(t.value)
  }

  /** What can stand in a document outside of elements. */
  ghost predicate GoodTop(t: Tree) {
    (t.kind != PcData && Good(t)) || GoodDoctype(t)
  }

  /** A document with at least one element, no character data outside of elements, and document types only there. */
  ghost predicate GoodDocument(d: Tree) {
    d.kind == Document && HasElement(d.children) && forall i | 0 <= i < |d.children| :: GoodTop(d.children[i])
  }

  /**
   What the parser makes of a node by default: comments, instructions, declarations and document types are skipped,
   and a CDATA section that contains its own end comes back in pieces.
   */
  function Shown(t: Tree): seq<Tree>
    decreases t, |t.children| + 1
  {
    match t.kind
    case Element => [t.(children := ShownFrom(t, 0))]
    case PcData => [t]
    case CData => SectionNodes(XmlSimple.Pieces(t.value, 0))
    case _ => []
  }

  /** What the parser makes of the children from number i on. */
  function ShownFrom(t: Tree, i: nat): seq<Tree>
    requires i <= |t.children|
    decreases t, |t.children| - i
  {
    if i == |t.children| then [] else Shown(t.children[i]) + ShownFrom(t, i + 1)
  }

  // ------------------------------------------------------------------ the recursion

  /** An element that is opened, filled and closed is a child of the element around it. */
  lemma ClosedElement(stack: seq<Open>, t: Tree)
    requires stack != [] && t.kind == Element && t.value == ""
    ensures Pop(AppendAll(Push(stack, t.name, t.attrs), t.children)) == AppendChild(stack, t)
  {
    var open := Push(stack, t.name, t.attrs);
    assert open[..|open| - 1] == stack;
    assert [] + t.children == t.children;
    var filled := AppendAll(open, t.children);
    assert filled[..|filled| - 1] == stack;
    assert Closed(filled[|filled| - 1]) == t;
  }

  /** An end tag closes the element it was printed for. */
  lemma EndLeads(step: Machine, text: string, conv: Converters, endch: char, z: nat, t: Tree, stack: seq<Open>, cut: bool)
    requires Runs(step, text, conv, endch) && stack != [] && t.kind == Element && t.value == "" && ValidName(t.name)
    requires EndTagStands(text, endch, z, t.name, cut)
    ensures Leads(step, |text|, State(z, false, AppendAll(Push(stack, t.name, t.attrs), t.children)),
                  State(EndTagEnd(z, t.name, cut), false, AppendChild(stack, t)))
  {
    var full := AppendAll(Push(stack, t.name, t.attrs), t.children);
    EndTagParts(text, endch, z, t.name, cut);
    EndTagRead(text, conv, endch, z, full, cut);
    ClosedElement(stack, t);
    TagLeads(step, text, conv, endch, z, full, State(EndTagEnd(z, t.name, cut), false, AppendChild(stack, t)));
  }

  /** Behind a place where a tag begins there is more text. */
  predicate TagFollows(text: string, z: nat) {
    z + 1 < |text| && text[z] == '<'
  }

  /** Character data becomes a child. */
  lemma DataLeads(step: Machine, singleQuote: bool, text: string, conv: Converters, endch: char, s: nat, t: Tree, stack: seq<Open>)
    requires Runs(step, text, conv, endch) && |stack| > 1 && Good(t) && t.kind == PcData
    requires Stands(text, s, Escaped(InContent, singleQuote, t.value)) && TagFollows(text, s + |Escaped(InContent, singleQuote, t.value)|)
    ensures Leads(step, |text|, State(s, false, stack), State(s + |Escaped(InContent, singleQuote, t.value)|, false, AppendChild(stack, t)))
  {
    var n := |Escaped(InContent, singleQuote, t.value)|;
    PrintedLooks(singleQuote, text, s, t.value);
    assert Printed(InContent, singleQuote, text, s, t.value, 0);
    TextLeads(step, text, conv, endch, s, n, stack, t.value);
    assert t == PcDataNode(t.value);
  }

  lemma TextLeads(step: Machine, text: string, conv: Converters, endch: char, s: nat, n: nat, stack: seq<Open>, v: string)
    requires Runs(step, text, conv, endch) && |stack| > 1 && LooksLikeText(text, s, n) && conv.content(s) == Ended(v, s + n + 1)
    ensures Leads(step, |text|, State(s, false, stack), State(s + n, false, AppendChild(stack, PcDataNode(v))))
  {
    var with := AppendChild(stack, PcDataNode(v));
    TextRead(text, conv, s, n, stack, v);
    assert ParseStep(text, conv, endch, State(s, false, stack)) == Go(State(s + n + 1, true, with));
    TagBegins(step, text, conv, endch, s + n, with);
    LeadsBoth(step, |text|, State(s, false, stack), State(s + n, false, with), State(s + n + 1, true, with));
  }

  /** What is printed for a node begins with a tag, unless it is character data. */
  lemma TagSign(singleQuote: bool, t: Tree)
    requires GoodTop(t)
    ensures var w := Print(singleQuote, t); |w| > 1 && w[0] == '<'
  {
    var more := if Descends(t) then PrintFrom(singleQuote, t, 0) + Closing(t) else "";
    assert Print(singleQuote, t) == Opening(singleQuote, t) + more;
    OpeningSign(singleQuote, t);
  }

  lemma OpeningSign(singleQuote: bool, t: Tree)
    requires GoodTop(t)
    ensures var w := Opening(singleQuote, t); |w| > 1 && w[0] == '<'
  {
    match t.kind {
      case Element =>
        assert StartText(singleQuote, t) == ['<'] + (NameText(t.name) + (AttributesText(singleQuote, t.attrs, 0) + StartTail(singleQuote, t)));
      case CData =>
        SectionsFrom(XmlSimple.Pieces(t.value, 0));
      case _ =>
    }
  }

  /** What follows a child that is character data begins with a tag. */
  lemma ChildBegins(singleQuote: bool, text: string, s: nat, t: Tree, i: nat)
    requires i <= |t.children| && Stands(text, s, PrintFrom(singleQuote, t, i)) && TagFollows(text, s + |PrintFrom(singleQuote, t, i)|)
    requires i < |t.children| ==> Good(t.children[i]) && t.children[i].kind != PcData
    ensures TagFollows(text, s)
  {
    if i < |t.children| {
      var c := t.children[i];
      StandsSplit(text, s, Print(singleQuote, c), PrintFrom(singleQuote, t, i + 1));
      TagSign(singleQuote, c);
      StandsAt(text, s, Print(singleQuote, c), 0);
    }
  }

  lemma DataPrint(singleQuote: bool, t: Tree)
    requires t.kind == PcData
    ensures Print(singleQuote, t) == Escaped(InContent, singleQuote, t.value)
  {
  }

  lemma ThreeParts(text: string, s: nat, start: string, inner: string, end: string, cut: bool)
    requires end != "" && Ends(text, s, start + (inner + end), cut)
    ensures Stands(text, s, start) && Stands(text, s + |start|, inner) && Ends(text, s + |start| + |inner|, end, cut)
  {
    EndsSplit(text, s, start, inner + end, cut);
    EndsSplit(text, s + |start|, inner, end, cut);
  }

  // The recursion names printed texts without looking into them.

  datatype Printer = Printer(whole: Tree -> string, from: (Tree, nat) -> string, start: Tree -> string)

  ghost predicate Prints(p: Printer, singleQuote: bool) {
    && (forall t: Tree {:trigger Print(singleQuote, t)} :: p.whole(t) == Print(singleQuote, t))
    && (forall t: Tree, i: nat {:trigger PrintFrom(singleQuote, t, i)} | i <= |t.children| :: p.from(t, i) == PrintFrom(singleQuote, t, i))
    && (forall t: Tree {:trigger StartText(singleQuote, t)} :: p.start(t) == StartText(singleQuote, t))
  }

  function ThePrinter(singleQuote: bool): Printer {
    Printer(t => Print(singleQuote, t), (t: Tree, i: nat) => if i <= |t.children| then PrintFrom(singleQuote, t, i) else "",
            t => StartText(singleQuote, t))
  }

  lemma ThePrinterPrints(singleQuote: bool)
    ensures Prints(ThePrinter(singleQuote), singleQuote)
  {
  }

  lemma FromFirst(p: Printer, singleQuote: bool, t: Tree, i: nat)
    requires Prints(p, singleQuote) && i < |t.children|
    ensures p.from(t, i) == p.whole(t.children[i]) + p.from(t, i + 1)
  {
    assert PrintFrom(singleQuote, t, i) == Print(singleQuote, t.children[i]) + PrintFrom(singleQuote, t, i + 1);
  }

  lemma WholeFull(p: Printer, singleQuote: bool, t: Tree)
    requires Prints(p, singleQuote) && t.kind == Element && t.name != "" && t.children != []
    ensures p.whole(t) == p.start(t) + (p.from(t, 0) + EndText(t.name))
  {
    assert Print(singleQuote, t) == StartText(singleQuote, t) + (PrintFrom(singleQuote, t, 0) + EndTag(t));
  }

  lemma WholeEmpty(p: Printer, singleQuote: bool, t: Tree)
    requires Prints(p, singleQuote) && t.kind == Element && t.children == []
    ensures p.whole(t) == p.start(t)
  {
    assert Print(singleQuote, t) == StartText(singleQuote, t) + "" == StartText(singleQuote, t);
  }

  /** The text of the children from number i on is that of child i and that of the others. */
  lemma SplitChild(p: Printer, singleQuote: bool, text: string, s: nat, t: Tree, i: nat)
    requires Prints(p, singleQuote) && i < |t.children| && Stands(text, s, p.from(t, i))
    ensures Stands(text, s, p.whole(t.children[i])) && Stands(text, s + |p.whole(t.children[i])|, p.from(t, i + 1))
    ensures |p.from(t, i)| == |p.whole(t.children[i])| + |p.from(t, i + 1)|
  {
    FromFirst(p, singleQuote, t, i);
    StandsSplit(text, s, p.whole(t.children[i]), p.from(t, i + 1));
  }

  lemma NoChildText(p: Printer, singleQuote: bool, t: Tree)
    requires Prints(p, singleQuote)
    ensures p.from(t, |t.children|) == ""
  {
    assert p.from(t, |t.children|) == PrintFrom(singleQuote, t, |t.children|);
  }

  lemma DataChild(step: Machine, p: Printer, singleQuote: bool, text: string, conv: Converters, endch: char, s: nat, t: Tree, stack: seq<Open>)
    requires Prints(p, singleQuote) && Runs(step, text, conv, endch) && |stack| > 1 && Good(t) && t.kind == PcData
    requires Stands(text, s, p.whole(t)) && TagFollows(text, s + |p.whole(t)|)
    ensures Leads(step, |text|, State(s, false, stack), State(s + |p.whole(t)|, false, AppendAll(stack, Shown(t))))
  {
    AppendOne(stack, t);
    DataPrint(singleQuote, t);
    DataLeads(step, singleQuote, text, conv, endch, s, t, stack);
  }

  lemma NextBegins(p: Printer, singleQuote: bool, text: string, s: nat, t: Tree, i: nat)
    requires Prints(p, singleQuote) && i <= |t.children| && Stands(text, s, p.from(t, i)) && TagFollows(text, s + |p.from(t, i)|)
    requires i < |t.children| ==> Good(t.children[i]) && t.children[i].kind != PcData
    ensures TagFollows(text, s)
  {
    assert p.from(t, i) == PrintFrom(singleQuote, t, i);
    ChildBegins(singleQuote, text, s, t, i);
  }

  lemma StartAny(step: Machine, p: Printer, singleQuote: bool, text: string, conv: Converters, endch: char, s: nat, t: Tree, stack: seq<Open>, cut: bool)
    requires Prints(p, singleQuote) && Runs(step, text, conv, endch) && stack != [] && Good(t) && t.kind == Element
    requires Ends(text, s, p.start(t), cut) && (cut ==> t.children == [] && endch == '>')
    ensures Leads(step, |text|, State(s, false, stack),
                  State(if cut then |text| else s + |p.start(t)|, false, Opened(stack, t.name, t.attrs, t.children == [])))
  {
    assert p.start(t) == StartText(singleQuote, t);
    StartLeads(step, singleQuote, text, conv, endch, s, t, stack, cut);
  }

  lemma EmptyElement(step: Machine, p: Printer, singleQuote: bool, text: string, conv: Converters, endch: char, s: nat, t: Tree, stack: seq<Open>, cut: bool)
    requires Prints(p, singleQuote) && Runs(step, text, conv, endch) && stack != [] && Good(t) && t.kind == Element && t.children == []
    requires Ends(text, s, p.whole(t), cut) && (cut ==> endch == '>')
    ensures Leads(step, |text|, State(s, false, stack), State(if cut then |text| else s + |p.whole(t)|, false, AppendChild(stack, t)))
  {
    WholeEmpty(p, singleQuote, t);
    StartAny(step, p, singleQuote, text, conv, endch, s, t, stack, cut);
    ClosedElement(stack, t);
    AppendNothing(Push(stack, t.name, t.attrs));
  }

  /** The three parts of a printed element with children. */
  lemma FullParts(p: Printer, singleQuote: bool, text: string, endch: char, s: nat, t: Tree, cut: bool) returns (z: nat)
    requires Prints(p, singleQuote) && t.kind == Element && t.name != "" && t.children != []
    requires Ends(text, s, p.whole(t), cut) && (cut ==> endch == '>')
    ensures Stands(text, s, p.start(t)) && Stands(text, s + |p.start(t)|, p.from(t, 0)) && z == s + |p.start(t)| + |p.from(t, 0)|
    ensures EndTagStands(text, endch, z, t.name, cut) && TagFollows(text, z)
    ensures EndTagEnd(z, t.name, cut) == if cut then |text| else s + |p.whole(t)|
  {
    WholeFull(p, singleQuote, t);
    ThreeParts(text, s, p.start(t), p.from(t, 0), EndText(t.name), cut);
    z := s + |p.start(t)| + |p.from(t, 0)|;
    EndTagParts(text, endch, z, t.name, cut);
  }

  // ---------------------------------------------------------------- nodes without children

  lemma SimpleWhole(p: Printer, singleQuote: bool, t: Tree)
    requires Prints(p, singleQuote) && t.kind != Document && t.kind != Element
    ensures p.whole(t) == SimpleText(singleQuote, t)
  {
    assert Print(singleQuote, t) == SimpleText(singleQuote, t) + "";
  }

  lemma DeclarationText(singleQuote: bool, t: Tree)
    requires t.kind == Declaration && ValidName(t.name) && GoodAttributes(t.attrs) && UnbrokenValues(t.attrs)
    ensures var w := AttributesText(singleQuote, t.attrs, 0);
            XmlSimple.Unbroken(XmlSimple.InPi, w) && (w == "" || w[0] == ' ') && SimpleText(singleQuote, t) == QuestionText(t.name, w)
  {
    AttributesUnbroken(singleQuote, t.attrs, 0);
  }

  /** A CDATA node becomes one node for each of its sections. */
  lemma CDataLeads(step: Machine, text: string, conv: Converters, endch: char, s: nat, v: string, stack: seq<Open>, cut: bool)
    requires Runs(step, text, conv, endch) && stack != [] && NoReturn(v, 0) && (cut ==> endch == '>')
    requires Ends(text, s, XmlSimple.SectionsText(XmlSimple.Pieces(v, 0)), cut)
    ensures Leads(step, |text|, State(s, false, stack),
                  State(if cut then |text| else s + |XmlSimple.SectionsText(XmlSimple.Pieces(v, 0))|, false,
                        AppendAll(stack, SectionNodes(XmlSimple.Pieces(v, 0)))))
  {
    var pieces := XmlSimple.Pieces(v, 0);
    XmlSimple.PiecesClosed(v, 0);
    XmlSimple.PiecesNoReturn(v, 0);
    SectionsLead(step, text, conv, endch, s, pieces, stack, cut);
  }

  /** What is printed for a node that is no element and no character data is read as what it shows. */
  lemma SimpleLeads(step: Machine, p: Printer, singleQuote: bool, text: string, conv: Converters, endch: char, s: nat, t: Tree, stack: seq<Open>, cut: bool)
    requires Prints(p, singleQuote) && Runs(step, text, conv, endch) && stack != [] && Good(t) && t.kind != Element && t.kind != PcData
    requires Ends(text, s, p.whole(t), cut) && (cut ==> endch == '>')
    ensures Leads(step, |text|, State(s, false, stack), State(if cut then |text| else s + |p.whole(t)|, false, AppendAll(stack, Shown(t))))
  {
    if t.kind == CData {
      SimpleWhole(p, singleQuote, t);
      CDataLeads(step, text, conv, endch, s, t.value, stack, cut);
    } else {
      AppendNothing(stack);
      SkippedLeads(step, p, singleQuote, text, conv, endch, s, t, stack, cut);
    }
  }

  lemma SkippedLeads(step: Machine, p: Printer, singleQuote: bool, text: string, conv: Converters, endch: char, s: nat, t: Tree, stack: seq<Open>, cut: bool)
    requires Prints(p, singleQuote) && Runs(step, text, conv, endch) && stack != [] && Good(t)
    requires t.kind == Comment || t.kind == Pi || t.kind == Declaration
    requires Ends(text, s, p.whole(t), cut) && (cut ==> endch == '>')
    ensures Leads(step, |text|, State(s, false, stack), State(if cut then |text| else s + |p.whole(t)|, false, stack))
  {
    SimpleWhole(p, singleQuote, t);
    if t.kind == Comment {
      CommentLeads(step, text, conv, endch, s, t.value, stack, cut);
    } else {
      var w := InstructionText(singleQuote, t);
      QuestionLeads(step, text, conv, endch, s, t.name, w, stack, cut);
    }
  }

  /** What stands behind the name of a processing instruction or a declaration. */
  lemma InstructionText(singleQuote: bool, t: Tree) returns (w: string)
    requires Good(t) && (t.kind == Pi || t.kind == Declaration)
    ensures XmlSimple.Unbroken(XmlSimple.InPi, w) && (w == "" || w[0] == ' ')
    ensures ValidName(t.name) && SimpleText(singleQuote, t) == QuestionText(t.name, w)
  {
    if t.kind == Pi {
      PiRestUnbroken(t.name, t.value);
      w := PiRest(t.value);
    } else {
      DeclarationText(singleQuote, t);
      w := AttributesText(singleQuote, t.attrs, 0);
    }
  }

  // --------------------------------------------------------------------- all nodes

  lemma {:induction false} ChildrenLead(step: Machine, p: Printer, singleQuote: bool, text: string, conv: Converters, endch: char, s: nat, t: Tree, i: nat, stack: seq<Open>)
    requires Prints(p, singleQuote) && Runs(step, text, conv, endch) && |stack| > 1 && Good(t) && t.kind == Element && i <= |t.children|
    requires Stands(text, s, p.from(t, i)) && TagFollows(text, s + |p.from(t, i)|)
    ensures Leads(step, |text|, State(s, false, stack), State(s + |p.from(t, i)|, false, AppendAll(stack, ShownFrom(t, i))))
    decreases t, |t.children| - i
  {
    if i == |t.children| {
      NoChildText(p, singleQuote, t);
      AppendNothing(stack);
    } else {
      var c := t.children[i];
      var n := |p.whole(c)|;
      var with := AppendAll(stack, Shown(c));
      SplitChild(p, singleQuote, text, s, t, i);
      ChildLeads(step, p, singleQuote, text, conv, endch, s, t, i, stack);
      ChildrenLead(step, p, singleQuote, text, conv, endch, s + n, t, i + 1, with);
      AppendMore(stack, Shown(c), ShownFrom(t, i + 1));
      LeadsOn(step, |text|, State(s, false, stack), State(s + n, false, with),
              State(s + |p.from(t, i)|, false, AppendAll(stack, ShownFrom(t, i))));
    }
  }

  lemma ChildKinds(t: Tree, i: nat)
    requires Good(t) && t.kind == Element && i < |t.children|
    ensures Good(t.children[i])
    ensures t.children[i].kind == PcData && i + 1 < |t.children| ==> Good(t.children[i + 1]) && t.children[i + 1].kind != PcData
  {
    assert Good(t.children[i]);
  }

  /** One child. */
  lemma {:induction false} ChildLeads(step: Machine, p: Printer, singleQuote: bool, text: string, conv: Converters, endch: char, s: nat, t: Tree, i: nat, stack: seq<Open>)
    requires Prints(p, singleQuote) && Runs(step, text, conv, endch) && |stack| > 1 && Good(t) && t.kind == Element && i < |t.children|
    requires Stands(text, s, p.from(t, i)) && TagFollows(text, s + |p.from(t, i)|)
    ensures Leads(step, |text|, State(s, false, stack), State(s + |p.whole(t.children[i])|, false, AppendAll(stack, Shown(t.children[i]))))
    decreases t, 0
  {
    var c := t.children[i];
    SplitChild(p, singleQuote, text, s, t, i);
    ChildKinds(t, i);
    if c.kind == PcData {
      NextBegins(p, singleQuote, text, s + |p.whole(c)|, t, i + 1);
      DataChild(step, p, singleQuote, text, conv, endch, s, c, stack);
    } else {
      NodeLeads(step, p, singleQuote, text, conv, endch, s, c, stack, false);
    }
  }

  /** A printed node is read as what it shows. */
  lemma {:induction false} NodeLeads(step: Machine, p: Printer, singleQuote: bool, text: string, conv: Converters, endch: char, s: nat, t: Tree, stack: seq<Open>, cut: bool)
    requires Prints(p, singleQuote) && Runs(step, text, conv, endch) && stack != [] && Good(t) && t.kind != PcData
    requires Ends(text, s, p.whole(t), cut) && (cut ==> endch == '>')
    ensures Leads(step, |text|, State(s, false, stack), State(if cut then |text| else s + |p.whole(t)|, false, AppendAll(stack, Shown(t))))
    decreases t, |t.children| + 2
  {
    if t.kind == Element {
      ElementLeads(step, p, singleQuote, text, conv, endch, s, t, stack, cut);
    } else {
      SimpleLeads(step, p, singleQuote, text, conv, endch, s, t, stack, cut);
    }
  }

  /** A printed element is read as a child of the innermost open element. */
  lemma {:induction false} ElementLeads(step: Machine, p: Printer, singleQuote: bool, text: string, conv: Converters, endch: char, s: nat, t: Tree, stack: seq<Open>, cut: bool)
    requires Prints(p, singleQuote) && Runs(step, text, conv, endch) && stack != [] && Good(t) && t.kind == Element
    requires Ends(text, s, p.whole(t), cut) && (cut ==> endch == '>')
    ensures Leads(step, |text|, State(s, false, stack), State(if cut then |text| else s + |p.whole(t)|, false, AppendAll(stack, Shown(t))))
    decreases t, |t.children| + 1
  {
    var shown := t.(children := ShownFrom(t, 0));
    if t.children == [] {
      EmptyElement(step, p, singleQuote, text, conv, endch, s, t, stack, cut);
    } else {
      var open := Push(stack, t.name, t.attrs);
      var z := FullParts(p, singleQuote, text, endch, s, t, cut);
      var b := s + |p.start(t)|;
      StartAny(step, p, singleQuote, text, conv, endch, s, t, stack, false);
      ChildrenLead(step, p, singleQuote, text, conv, endch, b, t, 0, open);
      EndLeads(step, text, conv, endch, z, shown, stack, cut);
      LeadsOn(step, |text|, State(s, false, stack), State(b, false, open), State(z, false, AppendAll(open, shown.children)));
    }
    AppendOne(stack, shown);
  }

  lemma AppendOne(stack: seq<Open>, t: Tree)
    requires stack != []
    ensures AppendAll(stack, [t]) == AppendChild(stack, t)
  {
    AppendNothing(AppendChild(stack, t));
    AppendFirst(stack, t, []);
    assert [t] + [] == [t];
  }

  lemma AppendMore(stack: seq<Open>, a: seq<Tree>, b: seq<Tree>)
    requires stack != []
    ensures AppendAll(AppendAll(stack, a), b) == AppendAll(stack, a + b)
  {
    var top := stack[|stack| - 1];
    assert top.children + a + b == top.children + (a + b);
    assert AppendAll(stack, a)[..|stack| - 1] == stack[..|stack| - 1];
  }

  // ------------------------------------------------------------------------ documents

  /** What is written between `<!DOCTYPE` and the bracket. */
  function DoctypeRest(v: string): string {
    if v == "" then "" else " " + v
  }

  lemma DoctypeRestClosed(singleQuote: bool, t: Tree)
    requires GoodDoctype(t)
    ensures XmlDoctype.WellClosed(DoctypeRest(t.value)) && IsText(DoctypeRest(t.value))
    ensures SimpleText(singleQuote, t) == DoctypeText(DoctypeRest(t.value))
  {
    XmlDoctype.WordInFront(" ", t.value);
  }

  /** A printed node outside of elements is read as what it shows. */
  lemma TopNodeLeads(step: Machine, p: Printer, singleQuote: bool, text: string, conv: Converters, endch: char, s: nat, t: Tree, stack: seq<Open>, cut: bool)
    requires Prints(p, singleQuote) && Runs(step, text, conv, endch) && |stack| == 1 && GoodTop(t)
    requires Ends(text, s, p.whole(t), cut) && (cut ==> endch == '>')
    ensures Leads(step, |text|, State(s, false, stack), State(if cut then |text| else s + |p.whole(t)|, false, AppendAll(stack, Shown(t))))
  {
    if t.kind == Doctype {
      SimpleWhole(p, singleQuote, t);
      DoctypeRestClosed(singleQuote, t);
      DoctypeLeads(step, text, conv, endch, s, DoctypeRest(t.value), stack, cut);
      AppendNothing(stack);
    } else {
      NodeLeads(step, p, singleQuote, text, conv, endch, s, t, stack, cut);
    }
  }

  /** The nodes of a document; the last one may be cut off. */
  lemma {:induction false} TopLeads(step: Machine, p: Printer, singleQuote: bool, text: string, conv: Converters, endch: char, s: nat, d: Tree, i: nat, stack: seq<Open>, cut: bool)
    requires Prints(p, singleQuote) && Runs(step, text, conv, endch) && |stack| == 1 && GoodDocument(d) && i < |d.children|
    requires Ends(text, s, p.from(d, i), cut) && (cut ==> endch == '>')
    ensures Leads(step, |text|, State(s, false, stack),
                  State(if cut then |text| else s + |p.from(d, i)|, false, AppendAll(stack, ShownFrom(d, i))))
    decreases |d.children| - i
  {
    var c, last := d.children[i], i + 1 == |d.children|;
    var with := AppendAll(stack, Shown(c));
    SplitTop(p, singleQuote, text, s, d, i, cut);
    TopNodeLeads(step, p, singleQuote, text, conv, endch, s, c, stack, cut && last);
    AppendMore(stack, Shown(c), ShownFrom(d, i + 1));
    if last {
      AppendNothing(with);
    } else {
      TopLeads(step, p, singleQuote, text, conv, endch, s + |p.whole(c)|, d, i + 1, with, cut);
    }
  }

  lemma SplitTop(p: Printer, singleQuote: bool, text: string, s: nat, d: Tree, i: nat, cut: bool)
    requires Prints(p, singleQuote) && GoodDocument(d) && i < |d.children| && Ends(text, s, p.from(d, i), cut)
    ensures var c := d.children[i];
            if i + 1 == |d.children| then Ends(text, s, p.whole(c), cut) && p.from(d, i) == p.whole(c)
            else Stands(text, s, p.whole(c)) && Ends(text, s + |p.whole(c)|, p.from(d, i + 1), cut)
                 && |p.from(d, i)| == |p.whole(c)| + |p.from(d, i + 1)|
  {
    var c := d.children[i];
    FromFirst(p, singleQuote, d, i);
    if i + 1 == |d.children| {
      NoChildText(p, singleQuote, d);
      assert p.whole(c) + "" == p.whole(c);
    } else {
      SomeText(p, singleQuote, d, i + 1);
      EndsSplit(text, s, p.whole(c), p.from(d, i + 1), cut);
    }
  }

  lemma SomeText(p: Printer, singleQuote: bool, d: Tree, i: nat)
    requires Prints(p, singleQuote) && GoodDocument(d) && i < |d.children|
    ensures p.from(d, i) != "" && p.from(d, i)[0] == '<'
  {
    var c := d.children[i];
    TagSign(singleQuote, c);
    FromFirst(p, singleQuote, d, i);
    assert p.whole(c) == Print(singleQuote, c);
  }

  lemma PrintIs(p: Printer, singleQuote: bool, d: Tree)
    requires Prints(p, singleQuote) && GoodDocument(d)
    ensures Print(singleQuote, d) == p.from(d, 0) && p.from(d, 0) != "" && p.from(d, 0)[0] == '<'
  {
    SomeText(p, singleQuote, d, 0);
    assert Print(singleQuote, d) == "" + (PrintFrom(singleQuote, d, 0) + "");
    assert PrintFrom(singleQuote, d, 0) + "" == PrintFrom(singleQuote, d, 0);
  }

  // ------------------------------------------------------------- the printed text

  /** What parts of printed texts have in common: they are texts, and end with the given character. */
  predicate TextUpTo(s: string, last: char) {
    s != "" && IsText(s) && s[|s| - 1] == last
  }

  lemma JoinUpTo(a: string, b: string, last: char)
    requires IsText(a) && TextUpTo(b, last)
    ensures TextUpTo(a + b, last)
  {
  }

  lemma QuotedText(name: string, quote: char, value: string)
    requires IsText(name) && IsText(value) && 0 < quote as nat < 256
    ensures IsText(Quoted(name, quote, value))
  {
    JoinText(value, [quote]);
    JoinText([quote], value + [quote]);
    JoinText(['='], [quote] + (value + [quote]));
    JoinText(name, ['='] + ([quote] + (value + [quote])));
    JoinText([' '], name + (['='] + ([quote] + (value + [quote]))));
  }

  lemma {:induction false} AttributesAreText(singleQuote: bool, attrs: seq<Attr>, i: nat)
    requires GoodAttributes(attrs) && i <= |attrs|
    ensures IsText(AttributesText(singleQuote, attrs, i))
    decreases |attrs| - i
  {
    if i < |attrs| {
      AttributesAreText(singleQuote, attrs, i + 1);
      EscapedText(InAttribute, singleQuote, attrs[i].value, 0);
      QuotedText(attrs[i].name, Quote(singleQuote), Escaped(InAttribute, singleQuote, attrs[i].value));
      JoinText(AttributeText(singleQuote, attrs[i]), AttributesText(singleQuote, attrs, i + 1));
    }
  }

  lemma StartIsText(singleQuote: bool, t: Tree)
    requires ValidName(t.name) && GoodAttributes(t.attrs) && t.value == ""
    ensures TextUpTo(StartText(singleQuote, t), '>')
  {
    var attributes, tail := AttributesText(singleQuote, t.attrs, 0), StartTail(singleQuote, t);
    AttributesAreText(singleQuote, t.attrs, 0);
    JoinUpTo(attributes, tail, '>');
    JoinUpTo(t.name, attributes + tail, '>');
    JoinUpTo(['<'], t.name + (attributes + tail), '>');
  }

  lemma EndIsText(name: string)
    requires ValidName(name)
    ensures TextUpTo(EndText(name), '>')
  {
    JoinUpTo(name, ['>'], '>');
    JoinUpTo(['/'], name + ['>'], '>');
    JoinUpTo(['<'], ['/'] + (name + ['>']), '>');
  }

  lemma {:induction false} BodyIsText(inside: XmlSimple.Inside, v: string, i: nat)
    requires IsText(v) && i <= |v|
    ensures IsText(XmlSimple.Body(inside, v, i))
    decreases |v| - i
  {
    if i < |v| {
      BodyIsText(inside, v, i + 1);
    }
  }

  lemma {:induction false} SectionsAreText(v: string, i: nat)
    requires IsText(v) && i <= |v|
    ensures TextUpTo(XmlSimple.SectionsText(XmlSimple.Pieces(v, i)), '>')
    decreases |v| - i
  {
    var e, p := XmlSimple.PieceEnd(v, i), XmlSimple.Pieces(v, i);
    XmlSimple.PiecesFrom(v, i);
    SectionsFrom(p);
    assert IsText(v[i..e]);
    JoinUpTo(p[0], "]]>", '>');
    JoinUpTo("<![CDATA[", p[0] + "]]>", '>');
    if e < |v| {
      SectionsAreText(v, e);
      JoinUpTo(XmlSimple.SectionText(p[0]), XmlSimple.SectionsText(p[1..]), '>');
    } else {
      assert |p| == 1;
    }
  }

  lemma QuestionIsText(name: string, w: string)
    requires IsText(name) && IsText(w)
    ensures TextUpTo(QuestionText(name, w), '>')
  {
    JoinUpTo(w, "?>", '>');
    JoinUpTo(name, w + "?>", '>');
    JoinUpTo("<?", name + (w + "?>"), '>');
  }

  lemma CommentIsText(v: string)
    requires IsText(v)
    ensures TextUpTo(XmlSimple.CommentText(v), '>')
  {
    BodyIsText(XmlSimple.InComment, v, 0);
    JoinUpTo(XmlSimple.Body(XmlSimple.InComment, v, 0), "-->", '>');
    JoinUpTo("<!--", XmlSimple.Body(XmlSimple.InComment, v, 0) + "-->", '>');
  }

  lemma SimpleIsText(singleQuote: bool, t: Tree)
    requires Good(t) && t.kind != Element && t.kind != PcData
    ensures TextUpTo(SimpleText(singleQuote, t), '>')
  {
    match t.kind {
      case CData =>
        SectionsAreText(t.value, 0);
      case Comment =>
        CommentIsText(t.value);
      case Pi =>
        PiRestUnbroken(t.name, t.value);
        BodyIsText(XmlSimple.InPi, t.value, 0);
        JoinText(" ", XmlSimple.Body(XmlSimple.InPi, t.value, 0));
        QuestionIsText(t.name, PiRest(t.value));
      case Declaration =>
        DeclarationText(singleQuote, t);
        AttributesAreText(singleQuote, t.attrs, 0);
        QuestionIsText(t.name, AttributesText(singleQuote, t.attrs, 0));
    }
  }

  lemma {:induction false} NodeIsText(p: Printer, singleQuote: bool, t: Tree)
    requires Prints(p, singleQuote) && Good(t)
    ensures IsText(p.whole(t)) && (t.kind != PcData ==> TextUpTo(p.whole(t), '>'))
    decreases t, |t.children| + 1
  {
    if t.kind == PcData {
      DataPrint(singleQuote, t);
      EscapedText(InContent, singleQuote, t.value, 0);
    } else if t.kind != Element {
      SimpleWhole(p, singleQuote, t);
      SimpleIsText(singleQuote, t);
    } else if t.children == [] {
      WholeEmpty(p, singleQuote, t);
      StartOf(p, singleQuote, t);
    } else {
      WholeFull(p, singleQuote, t);
      StartOf(p, singleQuote, t);
      ChildrenAreText(p, singleQuote, t, 0);
      EndIsText(t.name);
      JoinUpTo(p.from(t, 0), EndText(t.name), '>');
      JoinUpTo(p.start(t), p.from(t, 0) + EndText(t.name), '>');
    }
  }

  lemma StartOf(p: Printer, singleQuote: bool, t: Tree)
    requires Prints(p, singleQuote) && Good(t) && t.kind == Element
    ensures TextUpTo(p.start(t), '>')
  {
    assert p.start(t) == StartText(singleQuote, t);
    StartIsText(singleQuote, t);
  }

  lemma {:induction false} ChildrenAreText(p: Printer, singleQuote: bool, t: Tree, i: nat)
    requires Prints(p, singleQuote) && Good(t) && t.kind == Element && i <= |t.children|
    ensures IsText(p.from(t, i))
    decreases t, |t.children| - i
  {
    if i == |t.children| {
      NoChildText(p, singleQuote, t);
    } else {
      ChildKinds(t, i);
      NodeIsText(p, singleQuote, t.children[i]);
      ChildrenAreText(p, singleQuote, t, i + 1);
      FromFirst(p, singleQuote, t, i);
      JoinText(p.whole(t.children[i]), p.from(t, i + 1));
    }
  }

  lemma TopNodeIsText(p: Printer, singleQuote: bool, t: Tree)
    requires Prints(p, singleQuote) && GoodTop(t)
    ensures TextUpTo(p.whole(t), '>')
  {
    if t.kind == Doctype {
      SimpleWhole(p, singleQuote, t);
      DoctypeRestClosed(singleQuote, t);
      JoinText("<!DOCTYPE", DoctypeRest(t.value));
      JoinUpTo(DoctypeRest(t.value), ">", '>');
      JoinUpTo("<!DOCTYPE", DoctypeRest(t.value) + ">", '>');
    } else {
      NodeIsText(p, singleQuote, t);
    }
  }

  lemma {:induction false} TopIsText(p: Printer, singleQuote: bool, d: Tree, i: nat)
    requires Prints(p, singleQuote) && GoodDocument(d) && i < |d.children|
    ensures TextUpTo(p.from(d, i), '>')
    decreases |d.children| - i
  {
    var c := d.children[i];
    TopNodeIsText(p, singleQuote, c);
    FromFirst(p, singleQuote, d, i);
    if i + 1 == |d.children| {
      NoChildText(p, singleQuote, d);
      assert p.whole(c) + "" == p.whole(c);
    } else {
      TopIsText(p, singleQuote, d, i + 1);
      JoinUpTo(p.whole(c), p.from(d, i + 1), '>');
    }
  }

  // ------------------------------------------------------------------- the theorem

  lemma ParsingRuns(text: string, conv: Converters, endch: char)
    requires ReadsBack(conv, text)
    ensures Runs(Parsing(text, conv, endch), text, conv, endch)
  {
    ParsingAdvances(text, conv, endch);
  }

  /** A machine that comes to the end of the text with one open item, the document, has parsed it. */
  lemma HaltsThere(step: Machine, text: string, conv: Converters, endch: char, stack: seq<Open>)
    requires Runs(step, text, conv, endch) && |stack| == 1
    ensures RunBy(step, |text|, State(|text|, false, stack)) == Ok(stack[0].children)
  {
    assert ParseStep(text, conv, endch, State(|text|, false, stack)) == Halt(Ok(stack[0].children));
  }

  /** The whole run over a printed document that begins at s, with or without its last character. */
  lemma RunReads(step: Machine, p: Printer, singleQuote: bool, text: string, conv: Converters, endch: char, s: nat, d: Tree, cut: bool)
    requires Prints(p, singleQuote) && Runs(step, text, conv, endch) && GoodDocument(d)
    requires Ends(text, s, p.from(d, 0), cut) && (if cut then endch == '>' else |text| == s + |p.from(d, 0)|)
    ensures s <= |text| && RunBy(step, |text|, State(s, false, [Open("", [], [])])) == Ok(ShownFrom(d, 0))
  {
    var full := FullDocument(ShownFrom(d, 0));
    TopLeads(step, p, singleQuote, text, conv, endch, s, d, 0, [Open("", [], [])], cut);
    HaltsThere(step, text, conv, endch, full);
  }

  lemma FullDocument(children: seq<Tree>) returns (full: seq<Open>)
    ensures full == AppendAll([Open("", [], [])], children) && |full| == 1 && full[0].children == children
  {
    full := AppendAll([Open("", [], [])], children);
    assert [] + children == children;
  }

  /** What stands behind the name of a declaration that `save` writes by itself. */
  predicate Skippable(w: string) {
    IsText(w) && XmlSimple.Unbroken(XmlSimple.InPi, w) && w != "" && w[0] == ' '
  }

  function Prolog(w: Option<string>): string {
    if w.Some? then QuestionText("xml", w.value) else ""
  }

  const BOM: string := [0xEF as char, 0xBB as char, 0xBF as char]

  lemma PrefixLeads(step: Machine, text: string, conv: Converters, endch: char, s: nat, w: Option<string>, stack: seq<Open>)
    requires Runs(step, text, conv, endch) && stack != [] && (w.Some? ==> Skippable(w.value)) && Stands(text, s, Prolog(w))
    ensures Leads(step, |text|, State(s, false, stack), State(s + |Prolog(w)|, false, stack))
  {
    if w.Some? {
      QuestionLeads(step, text, conv, endch, s, "xml", w.value, stack, false);
    }
  }

  /** A prefix that is skipped, and a printed document behind it. */
  ghost predicate Holds(text: string, endch: char, start: nat, w: Option<string>, printed: string, cut: bool) {
    && IsText(text) && (w.Some? ==> Skippable(w.value))
    && Stands(text, start, Prolog(w)) && Ends(text, start + |Prolog(w)|, printed, cut)
    && if cut then endch == '>' else |text| == start + |Prolog(w)| + |printed|
  }

  /** The prefix does not change the result of a run. */
  lemma RunPrefixed(step: Machine, text: string, conv: Converters, endch: char, start: nat, w: Option<string>, r: Parsed)
    requires Runs(step, text, conv, endch) && (w.Some? ==> Skippable(w.value)) && Stands(text, start, Prolog(w))
    requires RunBy(step, |text|, State(start + |Prolog(w)|, false, [Open("", [], [])])) == r
    ensures start <= |text| && RunBy(step, |text|, State(start, false, [Open("", [], [])])) == r
  {
    PrefixLeads(step, text, conv, endch, start, w, [Open("", [], [])]);
  }

  /** A machine that parses the text, and converters that read back what was printed. */
  lemma DefaultRuns(text: string, endch: char, start: nat) returns (step: Machine, conv: Converters)
    requires IsText(text) && start <= |text|
    ensures Runs(step, text, conv, endch) && Sound(DefaultConverters(text), |text|)
    ensures ParseTree(text, DefaultConverters(text), endch, start) == RunBy(step, |text|, State(start, false, [Open("", [], [])]))
  {
    conv := DefaultConverters(text);
    DefaultSound(text);
    DefaultReadsBack(text);
    ParsingRuns(text, conv, endch);
    step := Parsing(text, conv, endch);
  }

  lemma TreeReads(p: Printer, singleQuote: bool, text: string, endch: char, start: nat, w: Option<string>, d: Tree, cut: bool)
    requires Prints(p, singleQuote) && GoodDocument(d) && Holds(text, endch, start, w, p.from(d, 0), cut)
    ensures Sound(DefaultConverters(text), |text|) && start <= |text|
    ensures ParseTree(text, DefaultConverters(text), endch, start) == Ok(ShownFrom(d, 0))
  {
    var step, conv := DefaultRuns(text, endch, start);
    RunReads(step, p, singleQuote, text, conv, endch, start + |Prolog(w)|, d, cut);
    RunPrefixed(step, text, conv, endch, start, w, Ok(ShownFrom(d, 0)));
  }

  /** Where parsing begins behind a byte order mark. */
  lemma BomRead(bom: bool, rest: string, text: string, cut: bool)
    requires rest != "" && rest[0] == '<' && Ends(text, 0, (if bom then BOM else "") + rest, cut) && |rest| > 1
    ensures BomEnd(text) == if bom then 3 else 0
  {
    EndsSplit(text, 0, if bom then BOM else "", rest, cut);
    if bom {
      StandsAt(text, 0, BOM, 0);
      StandsAt(text, 0, BOM, 1);
      StandsAt(text, 0, BOM, 2);
    } else {
      assert text[0] == '<';
    }
  }

  /** An element among the children is among what they show. */
  lemma {:induction false} ElementShown(t: Tree, i: nat, k: nat)
    requires i <= k < |t.children| && t.children[k].kind == Element
    ensures HasElement(ShownFrom(t, i))
    decreases k - i
  {
    var first: seq<Tree>, rest: seq<Tree> := Shown(t.children[i]), ShownFrom(t, i + 1);
    if i == k {
      assert (first + rest)[0].kind == Element;
    } else {
      ElementShown(t, i + 1, k);
      var j :| 0 <= j < |rest| && rest[j].kind == Element;
      assert (first + rest)[|first| + j] == rest[j];
    }
  }

  /** A byte order mark, a declaration and a printed document; the buffer may end with a terminator or with the last character. */
  function Written(bom: bool, w: Option<string>, printed: string): string {
    (if bom then BOM else "") + (Prolog(w) + printed)
  }

  lemma PrefixSign(w: Option<string>, printed: string)
    requires TextUpTo(printed, '>') && printed[0] == '<' && (w.Some? ==> Skippable(w.value))
    ensures TextUpTo(Prolog(w) + printed, '>') && (Prolog(w) + printed)[0] == '<' && |Prolog(w) + printed| > 1
  {
    if w.Some? {
      QuestionIsText("xml", w.value);
      JoinUpTo(Prolog(w), printed, '>');
    } else {
      assert "" + printed == printed;
    }
  }

  lemma TextCut(all: string, text: string, cut: bool)
    requires TextUpTo(all, '>') && text == if cut then all[..|all| - 1] else all
    ensures IsText(text) && Ends(text, 0, all, cut)
  {
  }

  /** Where the parts of a written document stand, with or without the last character. */
  lemma WrittenParts(bom: bool, w: Option<string>, printed: string, text: string, endch: char, cut: bool)
    requires TextUpTo(printed, '>') && printed[0] == '<' && (w.Some? ==> Skippable(w.value))
    requires var all := Written(bom, w, printed); all != "" && text == (if cut then all[..|all| - 1] else all) && (cut ==> endch == '>')
    ensures IsText(Written(bom, w, printed)) && IsText(text) && BomEnd(text) == (if bom then 3 else 0)
    ensures Holds(text, endch, BomEnd(text), w, printed, cut)
  {
    var head, rest := if bom then BOM else "", Prolog(w) + printed;
    PrefixSign(w, printed);
    JoinUpTo(head, rest, '>');
    TextCut(head + rest, text, cut);
    BomRead(bom, rest, text, cut);
    RestParts(text, head, w, printed, cut);
  }

  lemma RestParts(text: string, head: string, w: Option<string>, printed: string, cut: bool)
    requires printed != "" && Ends(text, 0, head + (Prolog(w) + printed), cut)
    ensures Stands(text, |head|, Prolog(w)) && Ends(text, |head| + |Prolog(w)|, printed, cut)
  {
    EndsSplit(text, 0, head, Prolog(w) + printed, cut);
    EndsSplit(text, |head|, Prolog(w), printed, cut);
  }

  lemma ParsedBuffer(buffer: string, text: string, endch: char, nodes: seq<Tree>)
    requires buffer == text + [endch] && IsText(text) && endch != '<' && HasElement(nodes)
    requires Sound(DefaultConverters(text), |text|) && ParseTree(text, DefaultConverters(text), endch, BomEnd(text)) == Ok(nodes)
    ensures ParseDocument(buffer) == Ok(nodes)
  {
    assert buffer[..|buffer| - 1] == text && buffer[|buffer| - 1] == endch;
  }

  lemma SomeElement(d: Tree)
    requires GoodDocument(d)
    ensures HasElement(ShownFrom(d, 0))
  {
    var k :| 0 <= k < |d.children| && d.children[k].kind == Element;
    ElementShown(d, 0, k);
  }

  /** The text that is parsed, and what stands behind it in the buffer. */
  ghost predicate IsCut(all: string, text: string, endch: char, cut: bool) {
    all != "" && if cut then endch == '>' && text + [endch] == all else endch == '\0' && text == all
  }

  lemma CutText(all: string, cut: bool) returns (text: string, endch: char)
    requires TextUpTo(all, '>')
    ensures IsCut(all, text, endch, cut) && text == (if cut then all[..|all| - 1] else all)
    ensures text + [endch] == if cut then all else all + "\0"
  {
    text, endch := if cut then all[..|all| - 1] else all, if cut then '>' else '\0';
  }

  /** Parsing a text that is written with a terminator, or whose last character has made room for it. */
  lemma TextReads(p: Printer, singleQuote: bool, d: Tree, bom: bool, w: Option<string>, text: string, endch: char, cut: bool)
    requires Prints(p, singleQuote) && GoodDocument(d) && Holds(text, endch, BomEnd(text), w, p.from(d, 0), cut) && endch != '<'
    ensures ParseDocument(text + [endch]) == Ok(ShownFrom(d, 0))
  {
    TreeReads(p, singleQuote, text, endch, BomEnd(text), w, d, cut);
    SomeElement(d);
    assert (text + [endch])[..|text|] == text;
    ParsedBuffer(text + [endch], text, endch, ShownFrom(d, 0));
  }

  /** The buffer of a written document is held together by its parts. */
  lemma BufferHolds(bom: bool, w: Option<string>, printed: string, cut: bool) returns (text: string, endch: char)
    requires TextUpTo(printed, '>') && printed[0] == '<' && (w.Some? ==> Skippable(w.value))
    ensures IsText(Written(bom, w, printed)) && Written(bom, w, printed) != "" && IsText(text)
    ensures Holds(text, endch, BomEnd(text), w, printed, cut) && endch != '<'
    ensures text + [endch] == if cut then Written(bom, w, printed) else Written(bom, w, printed) + "\0"
  {
    WrittenUpTo(bom, w, printed);
    text, endch := CutText(Written(bom, w, printed), cut);
    WrittenParts(bom, w, printed, text, endch, cut);
  }

  lemma WrittenUpTo(bom: bool, w: Option<string>, printed: string)
    requires TextUpTo(printed, '>') && printed[0] == '<' && (w.Some? ==> Skippable(w.value))
    ensures TextUpTo(Written(bom, w, printed), '>')
  {
    PrefixSign(w, printed);
    JoinUpTo(if bom then BOM else "", Prolog(w) + printed, '>');
  }

  /** Parsing a buffer that holds a written document, with the terminator behind it or in place of its last character. */
  lemma BufferReads(singleQuote: bool, d: Tree, bom: bool, w: Option<string>, cut: bool)
    requires GoodDocument(d) && (w.Some? ==> Skippable(w.value))
    ensures var all := Written(bom, w, Print(singleQuote, d));
            && IsText(all) && all != ""
            && ParseDocument(if cut then all else all + "\0") == Ok(ShownFrom(d, 0))
  {
    var p := ThePrinter(singleQuote);
    ThePrinterPrints(singleQuote);
    PrintIs(p, singleQuote, d);
    TopIsText(p, singleQuote, d, 0);
    var text, endch := BufferHolds(bom, w, p.from(d, 0), cut);
    TextReads(p, singleQuote, d, bom, w, text, endch, cut);
  }

  /**
   Printing a document and parsing the printed text, where it stands or as a copy with a terminator, gives
   exactly what the document shows: names, attributes with their values, character data and order.
   */
  lemma PrintThenParse(singleQuote: bool, d: Tree)
    requires GoodDocument(d)
    ensures var printed := Print(singleQuote, d);
            && IsText(printed) && ParseDocument(printed) == Ok(ShownFrom(d, 0))
            && ParseDocument(printed + "\0") == Ok(ShownFrom(d, 0))
  {
    BufferReads(singleQuote, d, false, None, true);
    BufferReads(singleQuote, d, false, None, false);
    assert Written(false, None, Print(singleQuote, d)) == Print(singleQuote, d);
  }

  // ------------------------------------------------------------------ when all is shown

  /** Only elements, character data and CDATA sections that do not contain their own end. */
  predicate Visible(t: Tree)
    decreases t
  {
    match t.kind
    case Element => forall i | 0 <= i < |t.children| :: Visible(t.children[i])
    case PcData => true
    case CData => XmlSimple.Closed(t.value)
    case _ => false
  }

  lemma {:induction false} AllShown(t: Tree)
    requires Good(t) && Visible(t)
    ensures Shown(t) == [t]
    decreases t, |t.children| + 1
  {
    if t.kind == Element {
      AllShownFrom(t, 0);
      assert t.children[0..] == t.children;
    } else if t.kind == CData {
      XmlSimple.OneEnd(t.value, 0);
      assert t.value[0..|t.value|] == t.value;
      assert XmlSimple.Pieces(t.value, 0) == [t.value];
      assert SectionNodes([t.value]) == [SectionNode(t.value)];
    }
  }

  lemma {:induction false} AllShownFrom(t: Tree, i: nat)
    requires i <= |t.children| && forall k | 0 <= k < |t.children| :: Good(t.children[k]) && Visible(t.children[k])
    ensures ShownFrom(t, i) == t.children[i..]
    decreases t, |t.children| - i
  {
    if i < |t.children| {
      AllShown(t.children[i]);
      AllShownFrom(t, i + 1);
    }
  }

  /** Documents of elements, character data and CDATA sections come back exactly as they are. */
  lemma RoundTrip(singleQuote: bool, d: Tree)
    requires GoodDocument(d) && forall i | 0 <= i < |d.children| :: Visible(d.children[i])
    ensures IsText(Print(singleQuote, d)) && ParseDocument(Print(singleQuote, d)) == Ok(d.children)
  {
    PrintThenParse(singleQuote, d);
    forall k | 0 <= k < |d.children| ensures Good(d.children[k]) {
      assert GoodTop(d.children[k]) && Visible(d.children[k]);
    }
    AllShownFrom(d, 0);
    assert d.children[0..] == d.children;
  }

  // ------------------------------------------------------------------- document types

  lemma CutBuffer(all: string, text: string, endch: char)
    requires all != "" && IsText(all) && text == all[..|all| - 1] && endch == all[|all| - 1]
    ensures IsText(text) && text + [endch] == all
  {
  }

  /** A well-closed document type in front of a printed document changes nothing. */
  lemma DoctypeInFront(singleQuote: bool, d: Tree, w: string)
    requires GoodDocument(d) && IsText(w) && XmlDoctype.WellClosed(w)
    ensures var printed := Print(singleQuote, d);
            && IsText(DoctypeText(w) + printed) && IsText(printed)
            && ParseDocument(DoctypeText(w) + printed) == ParseDocument(printed) == Ok(ShownFrom(d, 0))
  {
    var p := ThePrinter(singleQuote);
    ThePrinterPrints(singleQuote);
    PrintThenParse(singleQuote, d);
    PrintIs(p, singleQuote, d);
    TopIsText(p, singleQuote, d, 0);
    DoctypeIsText(w);
    JoinUpTo(DoctypeText(w), p.from(d, 0), '>');
    var all := DoctypeText(w) + p.from(d, 0);
    var text := all[..|all| - 1];
    CutBuffer(all, text, '>');
    DoctypeThenNodes(p, singleQuote, d, w, text);
    SomeElement(d);
    ParsedBuffer(all, text, '>', ShownFrom(d, 0));
  }

  lemma DoctypeIsText(w: string)
    requires IsText(w)
    ensures TextUpTo(DoctypeText(w), '>')
  {
    JoinUpTo(w, ">", '>');
    JoinUpTo("<!DOCTYPE", w + ">", '>');
  }

  lemma DoctypeThenNodes(p: Printer, singleQuote: bool, d: Tree, w: string, text: string)
    requires Prints(p, singleQuote) && GoodDocument(d) && XmlDoctype.WellClosed(w) && IsText(text) && p.from(d, 0) != ""
    requires var all := DoctypeText(w) + p.from(d, 0); text == all[..|all| - 1]
    ensures BomEnd(text) == 0 && Sound(DefaultConverters(text), |text|)
    ensures ParseTree(text, DefaultConverters(text), '>', 0) == Ok(ShownFrom(d, 0))
  {
    var stack := [Open("", [], [])];
    assert Ends(text, 0, DoctypeText(w) + p.from(d, 0), true);
    EndsSplit(text, 0, DoctypeText(w), p.from(d, 0), true);
    assert text[0] == DoctypeText(w)[0] == '<';
    var step, conv := DefaultRuns(text, '>', 0);
    DoctypeLeads(step, text, conv, '>', 0, w, stack, false);
    RunReads(step, p, singleQuote, text, conv, '>', |DoctypeText(w)|, d, true);
  }

  /** Behind the start tag of an element it is an error, whatever follows. */
  lemma DoctypeBehindStart(singleQuote: bool, t: Tree, rest: string)
    requires Good(t) && t.kind == Element && t.children != [] && IsText(rest) && rest != ""
    ensures IsText(StartText(singleQuote, t) + ("<!DOCTYPE" + rest))
    ensures ParseDocument(StartText(singleQuote, t) + ("<!DOCTYPE" + rest)) == Err(BadDoctype)
  {
    var start, all := StartText(singleQuote, t), StartText(singleQuote, t) + ("<!DOCTYPE" + rest);
    var text, endch := all[..|all| - 1], all[|all| - 1];
    StartIsText(singleQuote, t);
    JoinText("<!DOCTYPE", rest);
    JoinText(start, "<!DOCTYPE" + rest);
    CutBuffer(all, text, endch);
    assert text == start + ("<!DOCTYPE" + rest[..|rest| - 1]);
    OpeningSign(singleQuote, t);
    StartThenDoctype(singleQuote, t, text, endch, rest[..|rest| - 1]);
  }

  lemma StartThenDoctype(singleQuote: bool, t: Tree, text: string, endch: char, rest: string)
    requires Good(t) && t.kind == Element && t.children != [] && IsText(text)
    requires text == StartText(singleQuote, t) + ("<!DOCTYPE" + rest) && StartText(singleQuote, t) != "" && StartText(singleQuote, t)[0] == '<'
    ensures BomEnd(text) == 0 && Sound(DefaultConverters(text), |text|)
    ensures ParseTree(text, DefaultConverters(text), endch, 0) == Err(BadDoctype)
  {
    var start, stack := StartText(singleQuote, t), [Open("", [], [])];
    assert Stands(text, 0, text);
    StandsSplit(text, 0, start, "<!DOCTYPE" + rest);
    StandsSplit(text, |start|, "<!DOCTYPE", rest);
    var step, conv := DefaultRuns(text, endch, 0);
    StartLeads(step, singleQuote, text, conv, endch, 0, t, stack, false);
    DoctypeInside(step, text, conv, endch, |start|, Push(stack, t.name, t.attrs));
  }
}
