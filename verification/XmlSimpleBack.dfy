/** Printed comments, processing instructions, declarations and CDATA sections on their way through the parser. */
module XmlSimpleBack {
  import opened Wrappers
  import opened XmlTree
  import opened XmlChars
  import opened XmlDecode
  import opened XmlSurvive
  import opened XmlMarkup
  import opened XmlSimple
  import opened XmlPrint
  import opened XmlParse
  import opened XmlReadBack
  import XmlDoctype

  /** What is skipped leaves the stack as it is. */
  lemma SkipLeads(step: Machine, text: string, conv: Converters, endch: char, s: nat, stack: seq<Open>, next: nat)
    requires Runs(step, text, conv, endch) && s + 1 < |text| && text[s] == '<' && stack != [] && !IsStartSymbol(text[s + 1])
    requires SignAt(text, conv, endch, s + 1, stack) == Go(State(next, false, stack))
    ensures Leads(step, |text|, State(s, false, stack), State(next, false, stack))
  {
    TagLeads(step, text, conv, endch, s, stack, State(next, false, stack));
  }

  /** The last bracket stands there, or has been cut off with the text. */
  lemma LastBracket(text: string, endch: char, e: nat, cut: bool)
    requires Ends(text, e, ">", cut) && (cut ==> endch == '>')
    ensures EndsWith(text, endch, e, '>') && (if At(text, e) == '>' then e + 1 else e) == (if cut then |text| else e + 1)
  {
    if !cut {
      StandsAt(text, e, ">", 0);
    }
  }

  lemma FourChars(text: string, s: nat, a: char, b: char, c: char, d: char, rest: string)
    requires Stands(text, s, [a, b, c, d] + rest)
    ensures s + 3 < |text| && text[s] == a && text[s + 1] == b && text[s + 2] == c && text[s + 3] == d && Stands(text, s + 4, rest)
  {
    StandsSplit(text, s, [a, b, c, d], rest);
    StandsAt(text, s, [a, b, c, d], 0);
    StandsAt(text, s, [a, b, c, d], 1);
    StandsAt(text, s, [a, b, c, d], 2);
    StandsAt(text, s, [a, b, c, d], 3);
  }

  lemma BeforeBracket(text: string, s: nat, a: string, b: string, cut: bool)
    requires Ends(text, s, a + (b + ">"), cut)
    ensures Stands(text, s, a + b) && Ends(text, s + |a| + |b|, ">", cut)
  {
    assert a + (b + ">") == (a + b) + ">";
    EndsSplit(text, s, a + b, ">", cut);
  }

  /** A comment is skipped. */
  lemma CommentLeads(step: Machine, text: string, conv: Converters, endch: char, s: nat, v: string, stack: seq<Open>, cut: bool)
    requires Runs(step, text, conv, endch) && stack != [] && Ends(text, s, CommentText(v), cut) && (cut ==> endch == '>')
    ensures Leads(step, |text|, State(s, false, stack), State(if cut then |text| else s + |CommentText(v)|, false, stack))
  {
    var w := Body(InComment, v, 0);
    BodyUnbroken(InComment, v, 0);
    assert CommentText(v) == "<!--" + ((w + "--") + ">");
    BeforeBracket(text, s, "<!--", w + "--", cut);
    FourChars(text, s, '<', '!', '-', '-', w + "--");
    LastBracket(text, endch, s + 6 + |w|, cut);
    CommentSkipped(text, endch, s + 4, w);
    SkipLeads(step, text, conv, endch, s, stack, if cut then |text| else s + |CommentText(v)|);
  }

  /** A name behind a question mark and a text that does not end the instruction are skipped. */
  lemma QuestionSkips(text: string, endch: char, s: nat, name: string, w: string, stack: seq<Open>, cut: bool)
    requires IsText(text) && ValidName(name) && Unbroken(InPi, w) && (w == "" || w[0] == ' ') && (cut ==> endch == '>')
    requires Stands(text, s, name) && Stands(text, s + |name|, w + "?") && Ends(text, s + |name| + |w| + 1, ">", cut)
    ensures QuestionAt(text, endch, s, stack) == Go(State(if cut then |text| else s + |name| + |w| + 2, false, stack))
  {
    StandsAt(text, s + |name|, w + "?", 0);
    NameRead(text, s, name);
    LastBracket(text, endch, s + |name| + |w| + 1, cut);
    PiSkipped(text, endch, s + |name|, w);
  }

  function QuestionText(name: string, w: string): string {
    "<?" + (name + (w + "?>"))
  }

  /** Where the parts of an instruction stand. */
  lemma QuestionParts(text: string, s: nat, name: string, w: string, cut: bool)
    requires Ends(text, s, QuestionText(name, w), cut)
    ensures s + 1 < |text| && text[s] == '<' && text[s + 1] == '?' && Stands(text, s + 2, name)
    ensures Stands(text, s + 2 + |name|, w + "?") && Ends(text, s + 2 + |name| + |w| + 1, ">", cut)
  {
    assert w + "?>" == (w + "?") + ">";
    EndsSplit(text, s, "<?", name + ((w + "?") + ">"), cut);
    StandsAt(text, s, "<?", 0);
    StandsAt(text, s, "<?", 1);
    EndsSplit(text, s + 2, name, (w + "?") + ">", cut);
    EndsSplit(text, s + 2 + |name|, w + "?", ">", cut);
  }

  lemma QuestionLeads(step: Machine, text: string, conv: Converters, endch: char, s: nat, name: string, w: string, stack: seq<Open>, cut: bool)
    requires Runs(step, text, conv, endch) && stack != [] && (cut ==> endch == '>')
    requires ValidName(name) && Unbroken(InPi, w) && (w == "" || w[0] == ' ') && Ends(text, s, QuestionText(name, w), cut)
    ensures Leads(step, |text|, State(s, false, stack), State(if cut then |text| else s + |QuestionText(name, w)|, false, stack))
  {
    QuestionParts(text, s, name, w, cut);
    QuestionSkips(text, endch, s + 2, name, w, stack, cut);
    SkipLeads(step, text, conv, endch, s, stack, if cut then |text| else s + |QuestionText(name, w)|);
  }

  /** The text behind the name of a processing instruction. */
  function PiRest(v: string): string {
    if v == "" then "" else " " + Body(InPi, v, 0)
  }

  lemma PiRestUnbroken(name: string, v: string)
    ensures Unbroken(InPi, PiRest(v)) && PiText(name, v) == QuestionText(name, PiRest(v))
  {
    BodyUnbroken(InPi, v, 0);
    UnbrokenOne(InPi, ' ', Body(InPi, v, 0));
  }

  // ------------------------------------------------------------------- document types

  function DoctypeText(w: string): string {
    "<!DOCTYPE" + (w + ">")
  }

  /** What the parser does at `<!DOCTYPE`: inside of elements it is an error, else it is skipped if it is well closed. */
  lemma DoctypeAt(text: string, conv: Converters, endch: char, s: nat, n: nat, stack: seq<Open>)
    requires IsText(text) && Sound(conv, |text|) && stack != [] && Stands(text, s, "<!DOCTYPE")
    ensures |stack| > 1 ==> SignAt(text, conv, endch, s + 1, stack) == Halt(Err(BadDoctype))
    ensures |stack| == 1 && XmlDoctype.ClosedUpTo(text, endch, s + 2, n) ==>
              SignAt(text, conv, endch, s + 1, stack) == Go(State(n, false, stack))
    ensures |stack| == 1 && !XmlDoctype.Closes(text, endch, s + 2) ==>
              SignAt(text, conv, endch, s + 1, stack) == Halt(Err(BadDoctype))
  {
    DoctypeWord(text, endch, s);
    XmlDoctype.DoctypeExactly(text, endch, s + 2, n);
    var skipped := SkipDoctype(text, endch, s + 2);
    if skipped.Some? {
      XmlDoctype.DoctypeExactly(text, endch, s + 2, skipped.value);
    }
  }

  lemma DoctypeWord(text: string, endch: char, s: nat)
    requires Stands(text, s, "<!DOCTYPE")
    ensures s + 9 <= |text| && text[s] == '<' && text[s + 1] == '!' && text[s + 2] == 'D'
    ensures WordAt(text, s + 2, "DOCTYP") && EndsWith(text, endch, s + 8, 'E')
  {
    var word := "<!DOCTYPE";
    assert text[s + 0] == word[0] && text[s + 1] == word[1] && text[s + 2] == word[2] && text[s + 8] == word[8];
    forall i | 0 <= i < 6 ensures At(text, s + 2 + i) == "DOCTYP"[i] {
      assert text[s + (i + 2)] == word[i + 2];
    }
  }

  /** In front of the root a well-closed document type is skipped. */
  lemma DoctypeLeads(step: Machine, text: string, conv: Converters, endch: char, s: nat, w: string, stack: seq<Open>, cut: bool)
    requires Runs(step, text, conv, endch) && |stack| == 1 && XmlDoctype.WellClosed(w) && (cut ==> endch == '>')
    requires IsText(text) && Ends(text, s, DoctypeText(w), cut)
    ensures Leads(step, |text|, State(s, false, stack), State(if cut then |text| else s + |DoctypeText(w)|, false, stack))
  {
    EndsSplit(text, s, "<!DOCTYPE", w + ">", cut);
    EndsSplit(text, s + 9, w, ">", cut);
    var n := if cut then |text| else s + |DoctypeText(w)|;
    DoctypeStands(text, endch, s, w, cut);
    DoctypeAt(text, conv, endch, s, n, stack);
    DoctypeWord(text, endch, s);
    SkipLeads(step, text, conv, endch, s, stack, n);
  }

  lemma DoctypeStands(text: string, endch: char, s: nat, w: string, cut: bool)
    requires XmlDoctype.WellClosed(w) && (cut ==> endch == '>')
    requires Stands(text, s, "<!DOCTYPE") && Stands(text, s + 9, w) && Ends(text, s + 9 + |w|, ">", cut)
    ensures XmlDoctype.ClosedUpTo(text, endch, s + 2, if cut then |text| else s + |DoctypeText(w)|)
  {
    assert "<!DOCTYPE" == "<!" + "DOCTYPE";
    StandsSplit(text, s, "<!", "DOCTYPE");
    XmlDoctype.StandsJoin(text, s + 2, "DOCTYPE", w);
    if !cut {
      StandsAt(text, s + 9 + |w|, ">", 0);
    }
    XmlDoctype.WordClosed(text, endch, s + 2, "DOCTYPE", w, if cut then |text| else s + |DoctypeText(w)|);
  }

  /** Inside of an element it stops the parser. */
  lemma DoctypeInside(step: Machine, text: string, conv: Converters, endch: char, s: nat, stack: seq<Open>)
    requires Runs(step, text, conv, endch) && |stack| > 1 && IsText(text) && Stands(text, s, "<!DOCTYPE")
    ensures s <= |text| && RunBy(step, |text|, State(s, false, stack)) == Err(BadDoctype)
  {
    DoctypeAt(text, conv, endch, s, 0, stack);
    DoctypeWord(text, endch, s);
    TagHalts(step, text, conv, endch, s, stack, Err(BadDoctype));
  }

  /** A tag that is refused ends the run. */
  lemma TagHalts(step: Machine, text: string, conv: Converters, endch: char, s: nat, stack: seq<Open>, r: Parsed)
    requires Runs(step, text, conv, endch) && s + 1 <= |text| && text[s] == '<' && stack != []
    requires TagAt(text, conv, endch, s + 1, stack) == Halt(r)
    ensures RunBy(step, |text|, State(s, false, stack)) == r
  {
    TagBegins(step, text, conv, endch, s, stack);
    assert ParseStep(text, conv, endch, State(s + 1, true, stack)) == Halt(r);
  }

  // --------------------------------------------------------------------- declarations

  lemma UnbrokenJoin(a: string, b: string)
    requires Unbroken(InPi, a) && Unbroken(InPi, b) && (a != "" && a[|a| - 1] == '?' ==> At(b, 0) != '>')
    ensures Unbroken(InPi, a + b)
  {
    var w := a + b;
    forall i | 0 <= i < |w| && w[i] == '?' ensures At(w, i + 1) != '>' {
      if i < |a| {
        assert w[i] == a[i] && (i + 1 < |a| ==> w[i + 1] == a[i + 1]);
      } else {
        assert w[i] == b[i - |a|] && At(w, i + 1) == At(b, i + 1 - |a|);
      }
    }
  }

  lemma NoMark(w: string)
    requires forall i | 0 <= i < |w| :: w[i] != '?'
    ensures Unbroken(InPi, w)
  {
  }

  lemma EscapedCharMark(singleQuote: bool, c: char)
    ensures var e := EscapedChar(InAttribute, singleQuote, c);
            && e != "" && (e[0] == '>' ==> c == '>') && (c == '?' ==> e == "?") && (c != '?' ==> forall i | 0 <= i < |e| :: e[i] != '?')
  {
  }

  /** Escaping puts no end of an instruction into a value that has none. */
  lemma {:induction false} EscapedUnbroken(singleQuote: bool, v: string, i: nat)
    requires Unbroken(InPi, v) && i <= |v|
    ensures Unbroken(InPi, EscapedFrom(InAttribute, singleQuote, v, i))
    ensures At(EscapedFrom(InAttribute, singleQuote, v, i), 0) == '>' ==> At(v, i) == '>'
    decreases |v| - i
  {
    if i < |v| {
      var e, rest := EscapedChar(InAttribute, singleQuote, v[i]), EscapedFrom(InAttribute, singleQuote, v, i + 1);
      EscapedUnbroken(singleQuote, v, i + 1);
      EscapedCharMark(singleQuote, v[i]);
      assert Unbroken(InPi, e);
      UnbrokenJoin(e, rest);
      assert At(e + rest, 0) == e[0];
    }
  }

  lemma AttributeUnbroken(singleQuote: bool, a: Attr)
    requires GoodAttribute(a) && Unbroken(InPi, a.value)
    ensures var w := AttributeText(singleQuote, a); Unbroken(InPi, w) && w != "" && w[0] == ' ' && w[|w| - 1] != '?'
  {
    var q, value := Quote(singleQuote), Escaped(InAttribute, singleQuote, a.value);
    EscapedUnbroken(singleQuote, a.value, 0);
    NoMark([q]);
    UnbrokenJoin(value, [q]);
    UnbrokenJoin([q], value + [q]);
    UnbrokenJoin(['='], [q] + (value + [q]));
    NoMark(a.name);
    UnbrokenJoin(a.name, ['='] + ([q] + (value + [q])));
    UnbrokenJoin([' '], a.name + (['='] + ([q] + (value + [q]))));
  }

  predicate UnbrokenValues(attrs: seq<Attr>) {
    forall i | 0 <= i < |attrs| :: Unbroken(InPi, attrs[i].value)
  }

  lemma {:induction false} AttributesUnbroken(singleQuote: bool, attrs: seq<Attr>, i: nat)
    requires GoodAttributes(attrs) && UnbrokenValues(attrs) && i <= |attrs|
    ensures var w := AttributesText(singleQuote, attrs, i); Unbroken(InPi, w) && (w == "" || w[0] == ' ')
    decreases |attrs| - i
  {
    if i < |attrs| {
      AttributeUnbroken(singleQuote, attrs[i]);
      AttributesUnbroken(singleQuote, attrs, i + 1);
      UnbrokenJoin(AttributeText(singleQuote, attrs[i]), AttributesText(singleQuote, attrs, i + 1));
    }
  }

  // -------------------------------------------------------------------- CDATA sections

  function SectionNodes(pieces: seq<string>): (r: seq<Tree>)
    ensures |r| == |pieces|
  {
    if pieces == [] then [] else [SectionNode(pieces[0])] + SectionNodes(pieces[1..])
  }

  const OPEN: string := "<![CDATA["

  lemma SectionBegins(text: string, s: nat, rest: string)
    requires Stands(text, s, OPEN + rest)
    ensures s + 9 <= |text| && text[s] == '<' && text[s + 1] == '!' && At(text, s + 2) == '[' && WordAt(text, s + 3, "CDATA[")
    ensures Stands(text, s + 9, rest)
  {
    StandsSplit(text, s, OPEN, rest);
    assert forall k | 0 <= k < 9 :: text[s + k] == OPEN[k];
    assert forall i | 0 <= i < 6 :: OPEN[3 + i] == "CDATA["[i];
    assert text[s + 0] == OPEN[0] && text[s + 1] == OPEN[1] && text[s + 2] == OPEN[2];
    forall i | 0 <= i < 6 ensures At(text, s + 3 + i) == "CDATA["[i] {
      assert text[s + (3 + i)] == OPEN[3 + i];
    }
  }

  lemma SectionRead(text: string, conv: Converters, endch: char, s: nat, piece: string, stack: seq<Open>, cut: bool)
    requires ReadsBack(conv, text) && stack != [] && XmlSimple.Closed(piece) && NoReturn(piece, 0) && (cut ==> endch == '>')
    requires Stands(text, s, piece + "]]") && Ends(text, s + |piece| + 2, ">", cut)
    ensures SectionAt(text, conv, endch, s, stack) == Go(State(if cut then |text| else s + |piece| + 3, false, AppendChild(stack, SectionNode(piece))))
  {
    LastBracket(text, endch, s + |piece| + 2, cut);
    assert XmlSimple.SectionStands(text, endch, s, piece);
  }

  /** One section becomes one node. */
  lemma OneSection(step: Machine, text: string, conv: Converters, endch: char, s: nat, piece: string, stack: seq<Open>, cut: bool)
    requires Runs(step, text, conv, endch) && stack != [] && XmlSimple.Closed(piece) && NoReturn(piece, 0) && (cut ==> endch == '>')
    requires Ends(text, s, SectionText(piece), cut)
    ensures Leads(step, |text|, State(s, false, stack),
                  State(if cut then |text| else s + |SectionText(piece)|, false, AppendChild(stack, SectionNode(piece))))
  {
    assert SectionText(piece) == OPEN + ((piece + "]]") + ">");
    BeforeBracket(text, s, OPEN, piece + "]]", cut);
    SectionBegins(text, s, piece + "]]");
    SectionRead(text, conv, endch, s + 9, piece, stack, cut);
    var to := State(if cut then |text| else s + |SectionText(piece)|, false, AppendChild(stack, SectionNode(piece)));
    assert SignAt(text, conv, endch, s + 1, stack) == ExclamationAt(text, conv, endch, s + 2, stack);
    TagLeads(step, text, conv, endch, s, stack, to);
  }

  lemma SectionsFrom(pieces: seq<string>)
    requires pieces != []
    ensures SectionsText(pieces) == SectionText(pieces[0]) + SectionsText(pieces[1..])
    ensures |pieces| > 1 ==> SectionsText(pieces[1..]) != ""
    ensures |pieces| == 1 ==> SectionsText(pieces) == SectionText(pieces[0])
  {
    if |pieces| == 1 {
      assert SectionText(pieces[0]) + "" == SectionText(pieces[0]);
    } else {
      assert |SectionText(pieces[1..][0])| > 0;
    }
  }

  /** The sections that were written become a node each. */
  lemma {:induction false} SectionsLead(step: Machine, text: string, conv: Converters, endch: char, s: nat, pieces: seq<string>, stack: seq<Open>, cut: bool)
    requires Runs(step, text, conv, endch) && stack != [] && pieces != [] && (cut ==> endch == '>')
    requires XmlSimple.AllClosed(pieces) && forall k | 0 <= k < |pieces| :: NoReturn(pieces[k], 0)
    requires Ends(text, s, SectionsText(pieces), cut)
    ensures Leads(step, |text|, State(s, false, stack),
                  State(if cut then |text| else s + |SectionsText(pieces)|, false, AppendAll(stack, SectionNodes(pieces))))
    decreases |pieces|
  {
    SectionsFrom(pieces);
    var with := AppendChild(stack, SectionNode(pieces[0]));
    AppendFirst(stack, SectionNode(pieces[0]), SectionNodes(pieces[1..]));
    if |pieces| == 1 {
      OneSection(step, text, conv, endch, s, pieces[0], stack, cut);
      AppendNothing(with);
    } else {
      var n := |SectionText(pieces[0])|;
      EndsSplit(text, s, SectionText(pieces[0]), SectionsText(pieces[1..]), cut);
      OneSection(step, text, conv, endch, s, pieces[0], stack, false);
      SectionsLead(step, text, conv, endch, s + n, pieces[1..], with, cut);
    }
  }
}
