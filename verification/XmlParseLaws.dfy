/**
 What the parser makes of the constructs it meets, one by one, from the characters that stand
 there: what is skipped, what is read, and every error with its status.
 */
module XmlParseLaws {
  import opened Wrappers
  import opened XmlTree
  import opened XmlChars
  import opened XmlDecode
  import opened XmlMarkup
  import opened XmlSurvive
  import opened XmlParse
  import opened XmlReadBack
  import opened XmlSimpleBack
  import opened XmlDecodeLaws
  import XmlSimple

  // -------------------------------------------------------------------- the alphabet of names

  /** The characters names are made of: letters, digits, `_`, `:`, `-`, `.` and everything that is not ASCII. */
  lemma NameCharacters(c: char)
    ensures IsStartSymbol(c) <==> 'a' <= c <= 'z' || 'A' <= c <= 'Z' || c == '_' || c == ':' || c as nat >= 128
    ensures IsSymbol(c) <==> IsStartSymbol(c) || '0' <= c <= '9' || c == '-' || c == '.'
  {
  }

  // ------------------------------------------------------------------------ text

  lemma {:induction false} SpaceEndIs(text: string, k: nat, e: nat)
    requires k <= e <= |text| && (forall j | k <= j < e :: IsWhite(text[j])) && (e < |text| ==> !IsWhite(text[e]))
    ensures SpaceEnd(text, k) == e
    decreases e - k
  {
    if k < e {
      SpaceEndIs(text, k + 1, e);
    }
  }

  lemma TextStep(step: Machine, text: string, conv: Converters, endch: char, s: nat, stack: seq<Open>)
    requires Runs(step, text, conv, endch) && s < |text| && text[s] != '<' && stack != []
    ensures step(State(s, false, stack)) == TextAt(text, conv, s, stack)
  {
    assert ParseStep(text, conv, endch, State(s, false, stack)) == TextAt(text, conv, s, stack);
  }

  lemma StepLeads(step: Machine, n: nat, a: State, b: State)
    requires MachineAdvances(step, n) && a.s <= n && a.stack != [] && step(a) == Go(b)
    ensures Leads(step, n, a, b)
  {
  }

  /** White space alone in front of a tag or the end is skipped, inside of elements and outside. */
  lemma SpaceSkipped(step: Machine, text: string, conv: Converters, endch: char, s: nat, e: nat, stack: seq<Open>)
    requires Runs(step, text, conv, endch) && IsText(text) && stack != [] && s < e <= |text|
    requires (forall j | s <= j < e :: IsWhite(text[j])) && (e < |text| ==> text[e] == '<')
    ensures Leads(step, |text|, State(s, false, stack), State(e, false, stack))
  {
    SpaceEndIs(text, s, e);
    TextStep(step, text, conv, endch, s, stack);
    StepLeads(step, |text|, State(s, false, stack), State(e, false, stack));
  }

  lemma {:induction false} TagFromIs(text: string, k: nat, e: nat)
    requires k <= e <= |text| && (forall j | k <= j < e :: text[j] != '<') && (e < |text| ==> text[e] == '<')
    ensures TagFrom(text, k) == e
    decreases e - k
  {
    if k < e {
      TagFromIs(text, k + 1, e);
    }
  }

  /** Text outside of elements is skipped up to the next tag, or to the end of the document. */
  lemma OutsideSkipped(step: Machine, text: string, conv: Converters, endch: char, s: nat, e: nat, stack: seq<Open>)
    requires Runs(step, text, conv, endch) && IsText(text) && |stack| == 1 && s < e <= |text|
    requires (forall j | s <= j < e :: text[j] != '<') && (e < |text| ==> text[e] == '<')
    ensures Leads(step, |text|, State(s, false, stack), State(e, false, stack))
  {
    TagFromIs(text, s, e);
    TextStep(step, text, conv, endch, s, stack);
    OutsideStep(text, conv, s, e, stack);
    if e < |text| {
      TagBegins(step, text, conv, endch, e, stack);
      if TextAt(text, conv, s, stack) == Go(State(e, false, stack)) {
        StepLeads(step, |text|, State(s, false, stack), State(e, false, stack));
      } else {
        LeadsBoth(step, |text|, State(s, false, stack), State(e, false, stack), State(e + 1, true, stack));
      }
    } else {
      assert ParseStep(text, conv, endch, State(|text|, false, stack)) == AtEnd(stack);
    }
  }

  /** One step goes to the tag, or behind its bracket, or ends at the end of the text. */
  lemma OutsideStep(text: string, conv: Converters, s: nat, e: nat, stack: seq<Open>)
    requires IsText(text) && Sound(conv, |text|) && |stack| == 1 && s < e <= |text| && TagFrom(text, s) == e
    requires (forall j | s <= j < e :: text[j] != '<')
    ensures var move := TextAt(text, conv, s, stack);
            || move == Go(State(e, false, stack))
            || (if e < |text| then move == Go(State(e + 1, true, stack)) else move == AtEnd(stack))
  {
    var w := SpaceEnd(text, s);
    assert e < w ==> IsSpace(text[e]);
    assert w < e ==> text[w] != '<' && text[w] != '\0';
  }

  // -------------------------------------------------------------------- the end of the input

  /** The input ends: with elements open that is an error, else the document is complete. */
  lemma InputEnds(step: Machine, text: string, conv: Converters, endch: char, stack: seq<Open>)
    requires Runs(step, text, conv, endch) && stack != []
    ensures RunBy(step, |text|, State(|text|, false, stack)) ==
              if |stack| > 1 then Err(EndElementMismatch) else Ok(stack[0].children)
  {
    assert ParseStep(text, conv, endch, State(|text|, false, stack)) == AtEnd(stack);
  }

  /** What begins with a bracket and neither a name nor a sign of markup is no tag. */
  lemma NoTag(step: Machine, text: string, conv: Converters, endch: char, s: nat, stack: seq<Open>)
    requires Runs(step, text, conv, endch) && stack != [] && s < |text| && text[s] == '<'
    requires var c := At(text, s + 1); !IsStartSymbol(c) && c != '/' && c != '?' && c != '!'
    ensures RunBy(step, |text|, State(s, false, stack)) ==
              Err(if s + 1 == |text| && endch == '?' then BadPi else UnrecognizedTag)
  {
    TagHalts(step, text, conv, endch, s, stack, Err(if s + 1 == |text| && endch == '?' then BadPi else UnrecognizedTag));
  }

  // ------------------------------------------------------------------------ skipped markup

  /** A mark and the bracket behind it, which may have been cut off with the end of the text. */
  predicate ClosedAt(text: string, endch: char, k: nat, mark: string) {
    Stands(text, k, mark) && if k + |mark| < |text| then text[k + |mark|] == '>' else endch == '>'
  }

  predicate CloseOf(mark: Mark, close: string) {
    (mark == CommentClose && close == "--") || (mark == PiClose && close == "?")
  }

  lemma MarkMeans(mark: Mark, text: string, endch: char, k: nat, close: string)
    requires CloseOf(mark, close) && IsText(text)
    ensures MarkAt(mark, text, endch, k) <==> ClosedAt(text, endch, k, close)
  {
    MarkIsAt(text, k, close);
  }

  lemma {:induction false} NoneFound(mark: Mark, text: string, endch: char, s: nat)
    requires s <= |text| && forall k | s <= k < |text| :: !MarkAt(mark, text, endch, k)
    ensures ScanFor(mark, text, endch, s) == |text|
    decreases |text| - s
  {
    if s < |text| {
      NoneFound(mark, text, endch, s + 1);
    }
  }

  /** e is the first place from s on where the mark stands with its bracket; |text| if there is none. */
  ghost predicate FirstClose(text: string, endch: char, s: nat, e: nat, close: string) {
    && s <= e <= |text| && (forall k | s <= k < e :: !ClosedAt(text, endch, k, close))
    && (e < |text| ==> ClosedAt(text, endch, e, close))
  }

  lemma ScanMeans(mark: Mark, text: string, endch: char, s: nat, e: nat, close: string)
    requires CloseOf(mark, close) && IsText(text) && FirstClose(text, endch, s, e, close)
    ensures ScanFor(mark, text, endch, s) == e
  {
    forall k | s <= k <= e ensures MarkAt(mark, text, endch, k) <==> ClosedAt(text, endch, k, close) {
      MarkMeans(mark, text, endch, k, close);
    }
    if e < |text| {
      XmlSimple.FirstMark(mark, text, endch, s, e);
    } else {
      NoneFound(mark, text, endch, s);
    }
  }

  /** Behind a mark and its bracket, if the bracket is there. */
  function Behind(text: string, e: nat, n: nat): nat {
    if e + n < |text| then e + n + 1 else e + n
  }

  lemma OpensWith(text: string, s: nat, open: string)
    requires Stands(text, s, open) && 2 <= |open| <= 4
    ensures s + |open| <= |text| && text[s] == open[0] && text[s + 1] == open[1]
    ensures |open| > 2 ==> text[s + 2] == open[2]
    ensures |open| > 3 ==> text[s + 3] == open[3]
  {
    StandsAt(text, s, open, 0);
    StandsAt(text, s, open, 1);
    if |open| > 2 {
      StandsAt(text, s, open, 2);
    }
    if |open| > 3 {
      StandsAt(text, s, open, 3);
    }
  }

  lemma CommentTag(text: string, conv: Converters, endch: char, s: nat, stack: seq<Open>)
    requires IsText(text) && Sound(conv, |text|) && stack != [] && Stands(text, s, "<!--")
    ensures s + 4 <= |text| && text[s] == '<'
    ensures TagAt(text, conv, endch, s + 1, stack) == Skipped(SkipComment(text, endch, s + 4), stack, BadComment)
  {
    OpensWith(text, s, "<!--");
    assert TagAt(text, conv, endch, s + 1, stack) == SignAt(text, conv, endch, s + 1, stack);
  }

  lemma CommentEnd(text: string, endch: char, s: nat, e: nat)
    requires IsText(text) && FirstClose(text, endch, s, e, "--")
    ensures SkipComment(text, endch, s) == if e == |text| then None else Some(Behind(text, e, 2))
  {
    ScanMeans(CommentClose, text, endch, s, e, "--");
  }

  /** What follows is skipped, or an error. */
  lemma SkippedLeads(step: Machine, text: string, conv: Converters, endch: char, s: nat, next: Option<nat>, stack: seq<Open>, error: Status)
    requires Runs(step, text, conv, endch) && stack != [] && s < |text| && text[s] == '<'
    requires TagAt(text, conv, endch, s + 1, stack) == Skipped(next, stack, error)
    ensures next.None? ==> RunBy(step, |text|, State(s, false, stack)) == Err(error)
    ensures next.Some? ==> Leads(step, |text|, State(s, false, stack), State(next.value, false, stack))
  {
    if next.None? {
      TagHalts(step, text, conv, endch, s, stack, Err(error));
    } else {
      TagLeads(step, text, conv, endch, s, stack, State(next.value, false, stack));
    }
  }

  /** A comment reaches to the first `-->` behind its beginning; without one it is an error. */
  lemma CommentExactly(step: Machine, text: string, conv: Converters, endch: char, s: nat, e: nat, stack: seq<Open>)
    requires Runs(step, text, conv, endch) && IsText(text) && stack != [] && Stands(text, s, "<!--")
    requires FirstClose(text, endch, s + 4, e, "--")
    ensures e == |text| ==> RunBy(step, |text|, State(s, false, stack)) == Err(BadComment)
    ensures e < |text| ==> Leads(step, |text|, State(s, false, stack), State(Behind(text, e, 2), false, stack))
  {
    CommentTag(text, conv, endch, s, stack);
    CommentEnd(text, endch, s + 4, e);
    SkippedLeads(step, text, conv, endch, s, SkipComment(text, endch, s + 4), stack, BadComment);
  }

  /** `<!-` without a second hyphen is an error. */
  lemma CommentBroken(step: Machine, text: string, conv: Converters, endch: char, s: nat, stack: seq<Open>)
    requires Runs(step, text, conv, endch) && IsText(text) && stack != [] && Stands(text, s, "<!-") && At(text, s + 3) != '-'
    ensures RunBy(step, |text|, State(s, false, stack)) == Err(BadComment)
  {
    OpensWith(text, s, "<!-");
    TagHalts(step, text, conv, endch, s, stack, Err(BadComment));
  }

  lemma InstructionTag(text: string, conv: Converters, endch: char, s: nat, name: string, stack: seq<Open>)
    requires IsText(text) && Sound(conv, |text|) && stack != [] && Stands(text, s, "<?") && Stands(text, s + 2, name)
    requires ValidName(name) && !IsSymbol(At(text, s + 2 + |name|))
    ensures s < |text| && text[s] == '<'
    ensures TagAt(text, conv, endch, s + 1, stack) == Skipped(SkipPi(text, endch, s + 2 + |name|), stack, BadPi)
  {
    OpensWith(text, s, "<?");
    NameRead(text, s + 2, name);
    assert TagAt(text, conv, endch, s + 1, stack) == SignAt(text, conv, endch, s + 1, stack);
  }

  lemma InstructionEnd(text: string, endch: char, s: nat, e: nat)
    requires IsText(text) && FirstClose(text, endch, s, e, "?")
    ensures SkipPi(text, endch, s) == if e == |text| then None else Some(Behind(text, e, 1))
  {
    ScanMeans(PiClose, text, endch, s, e, "?");
  }

  lemma InstructionRun(step: Machine, text: string, conv: Converters, endch: char, s: nat, name: string, next: Option<nat>, stack: seq<Open>)
    requires Runs(step, text, conv, endch) && IsText(text) && stack != [] && Stands(text, s, "<?") && Stands(text, s + 2, name)
    requires ValidName(name) && !IsSymbol(At(text, s + 2 + |name|)) && SkipPi(text, endch, s + 2 + |name|) == next
    ensures s <= |text|
    ensures next.None? ==> RunBy(step, |text|, State(s, false, stack)) == Err(BadPi)
    ensures next.Some? ==> Leads(step, |text|, State(s, false, stack), State(next.value, false, stack))
  {
    InstructionTag(text, conv, endch, s, name, stack);
    SkippedLeads(step, text, conv, endch, s, next, stack, BadPi);
  }

  /** An instruction reaches to the first `?>` behind its name; without one, or without a name, it is an error. */
  lemma InstructionExactly(step: Machine, text: string, conv: Converters, endch: char, s: nat, name: string, b: nat, e: nat, stack: seq<Open>)
    requires Runs(step, text, conv, endch) && IsText(text) && stack != [] && Stands(text, s, "<?") && Stands(text, s + 2, name)
    requires ValidName(name) && b == s + 2 + |name| && !IsSymbol(At(text, b)) && FirstClose(text, endch, b, e, "?")
    ensures e == |text| ==> RunBy(step, |text|, State(s, false, stack)) == Err(BadPi)
    ensures e < |text| ==> Leads(step, |text|, State(s, false, stack), State(Behind(text, e, 1), false, stack))
  {
    InstructionEnd(text, endch, b, e);
    InstructionRun(step, text, conv, endch, s, name, SkipPi(text, endch, b), stack);
  }

  lemma InstructionNameless(step: Machine, text: string, conv: Converters, endch: char, s: nat, stack: seq<Open>)
    requires Runs(step, text, conv, endch) && IsText(text) && stack != [] && Stands(text, s, "<?") && !IsStartSymbol(At(text, s + 2))
    ensures RunBy(step, |text|, State(s, false, stack)) == Err(BadPi)
  {
    OpensWith(text, s, "<?");
    TagHalts(step, text, conv, endch, s, stack, Err(BadPi));
  }

  // ----------------------------------------------------------------------- CDATA sections

  lemma BracketWord(text: string, s: nat)
    requires IsText(text) && Stands(text, s, "<![")
    ensures WordAt(text, s + 3, "CDATA[") <==> Stands(text, s, "<![CDATA[")
  {
    var word, all := "CDATA[", "<![CDATA[";
    OpensWith(text, s, "<![");
    if WordAt(text, s + 3, word) {
      forall k | 0 <= k < 9 ensures text[s + k] == all[k] {
        assert k >= 3 ==> At(text, s + 3 + (k - 3)) == word[k - 3];
      }
    }
    if Stands(text, s, all) {
      forall k | 0 <= k < 6 ensures At(text, s + 3 + k) == word[k] {
        assert text[s + (3 + k)] == all[3 + k];
      }
    }
  }

  /** `<![` that does not go on with `CDATA[` is an error. */
  lemma SectionBroken(step: Machine, text: string, conv: Converters, endch: char, s: nat, stack: seq<Open>)
    requires Runs(step, text, conv, endch) && IsText(text) && stack != [] && Stands(text, s, "<![") && !Stands(text, s, "<![CDATA[")
    ensures RunBy(step, |text|, State(s, false, stack)) == Err(BadCData)
  {
    OpensWith(text, s, "<![");
    BracketWord(text, s);
    TagHalts(step, text, conv, endch, s, stack, Err(BadCData));
  }

  /** A CDATA section without its end is an error. */
  lemma SectionUnclosed(step: Machine, text: string, conv: Converters, endch: char, s: nat, stack: seq<Open>)
    requires Runs(step, text, conv, endch) && IsText(text) && stack != [] && Stands(text, s, "<![CDATA[")
    requires conv == DefaultConverters(text) && forall k | s + 9 <= k < |text| :: !ClosedAt(text, endch, k, "]]")
    ensures RunBy(step, |text|, State(s, false, stack)) == Err(BadCData)
  {
    SectionOpens(text, s);
    SectionEndless(text, endch, s + 9);
    assert TagAt(text, conv, endch, s + 1, stack) == ExclamationAt(text, conv, endch, s + 2, stack);
    TagHalts(step, text, conv, endch, s, stack, Err(BadCData));
  }

  lemma SectionEndless(text: string, endch: char, s: nat)
    requires IsText(text) && s <= |text| && forall k | s <= k < |text| :: !ClosedAt(text, endch, k, "]]")
    ensures DecodeFrom(SectionRules(endch), text, s).Unterminated?
  {
    forall k | s <= k <= |text| ensures !StopAt(AtCData(endch), text, k).Done? {
      EndStep(text, k, '"', endch);
      SectionMark(text, endch, k);
    }
    NoEnd(SectionRules(endch), text, s);
  }

  lemma SectionOpens(text: string, s: nat)
    requires IsText(text) && Stands(text, s, "<![CDATA[")
    ensures Stands(text, s, "<![") && s + 9 <= |text| && text[s] == '<' && text[s + 1] == '!' && text[s + 2] == '['
    ensures WordAt(text, s + 3, "CDATA[")
  {
    assert "<![CDATA[" == "<![" + "CDATA[";
    StandsSplit(text, s, "<![", "CDATA[");
    OpensWith(text, s, "<![");
    BracketWord(text, s);
  }

  lemma SectionMark(text: string, endch: char, k: nat)
    requires IsText(text)
    ensures Stands(text, k, "]]>") ==> ClosedAt(text, endch, k, "]]") && k < |text|
    ensures endch == '>' && Stands(text, k, "]]") && k + 2 == |text| ==> ClosedAt(text, endch, k, "]]") && k < |text|
  {
    assert "]]>" == "]]" + ">";
    if Stands(text, k, "]]>") {
      StandsSplit(text, k, "]]", ">");
      StandsAt(text, k + 2, ">", 0);
    }
  }

  // -------------------------------------------------------------------- other exclamations

  lemma NoDoctype(text: string, s: nat)
    requires Stands(text, s, "<!") && !Stands(text, s, "<!DOCTYP")
    ensures !WordAt(text, s + 2, "DOCTYP")
  {
    var word, all := "DOCTYP", "<!DOCTYP";
    StandsAt(text, s, "<!", 0);
    StandsAt(text, s, "<!", 1);
    if WordAt(text, s + 2, word) {
      forall k | 0 <= k < 8 ensures text[s + k] == all[k] {
        assert k >= 2 ==> At(text, s + 2 + (k - 2)) == word[k - 2];
      }
    }
  }

  /** The status for `<!` with nothing known behind it; at the end of the text the character that was cut off decides. */
  function NothingKnown(text: string, endch: char, s: nat): Status {
    if s < |text| then UnrecognizedTag
    else if endch == '-' then BadComment
    else if endch == '[' then BadCData
    else UnrecognizedTag
  }

  lemma NothingTag(text: string, conv: Converters, endch: char, s: nat, stack: seq<Open>)
    requires IsText(text) && Sound(conv, |text|) && stack != [] && s + 2 <= |text| && text[s + 1] == '!'
    requires At(text, s + 2) != '-' && At(text, s + 2) != '[' && !WordAt(text, s + 2, "DOCTYP")
    ensures TagAt(text, conv, endch, s + 1, stack) == Halt(Err(NothingKnown(text, endch, s + 2)))
  {
    assert TagAt(text, conv, endch, s + 1, stack) == ExclamationAt(text, conv, endch, s + 2, stack);
  }

  /** What begins with `<!` and is no comment, section or document type. */
  lemma NoDeclaration(step: Machine, text: string, conv: Converters, endch: char, s: nat, stack: seq<Open>)
    requires Runs(step, text, conv, endch) && IsText(text) && stack != [] && Stands(text, s, "<!")
    requires At(text, s + 2) != '-' && At(text, s + 2) != '[' && !Stands(text, s, "<!DOCTYP")
    ensures RunBy(step, |text|, State(s, false, stack)) == Err(NothingKnown(text, endch, s + 2))
  {
    NoDoctype(text, s);
    OpensWith(text, s, "<!");
    NothingTag(text, conv, endch, s, stack);
    TagHalts(step, text, conv, endch, s, stack, Err(NothingKnown(text, endch, s + 2)));
  }

  // ------------------------------------------------------------------------ end tags

  /** An end tag: its name as far as it goes, then white space up to k. */
  ghost predicate EndTagIs(text: string, s: nat, name: string, k: nat) {
    && Stands(text, s, "</") && Stands(text, s + 2, name) && (forall i | 0 <= i < |name| :: IsSymbol(name[i]))
    && !IsSymbol(At(text, s + 2 + |name|)) && s + 2 + |name| <= k <= |text|
    && (forall j | s + 2 + |name| <= j < k :: IsWhite(text[j])) && !IsWhite(At(text, k))
  }

  lemma EndTagTag(text: string, conv: Converters, endch: char, s: nat, stack: seq<Open>)
    requires IsText(text) && Sound(conv, |text|) && stack != [] && Stands(text, s, "</")
    ensures s + 2 <= |text| && text[s] == '<'
    ensures TagAt(text, conv, endch, s + 1, stack) == EndTagAt(text, endch, s + 2, stack)
  {
    OpensWith(text, s, "</");
    assert TagAt(text, conv, endch, s + 1, stack) == SignAt(text, conv, endch, s + 1, stack);
  }

  lemma EndTagNamed(text: string, s: nat, name: string, k: nat)
    requires IsText(text) && EndTagIs(text, s, name, k)
    ensures SymbolEnd(text, s + 2) == s + 2 + |name| && text[s + 2..s + 2 + |name|] == name
    ensures SpaceEnd(text, s + 2 + |name|) == k
  {
    SymbolEndIs(text, s + 2, name, 0);
    SpaceEndIs(text, s + 2 + |name|, k);
  }

  /** What a tag comes to is what the run comes to. */
  lemma TagRuns(step: Machine, text: string, conv: Converters, endch: char, s: nat, stack: seq<Open>, move: Move)
    requires Runs(step, text, conv, endch) && s + 1 <= |text| && text[s] == '<' && stack != []
    requires TagAt(text, conv, endch, s + 1, stack) == move
    ensures move.Halt? ==> RunBy(step, |text|, State(s, false, stack)) == move.result
    ensures move.Go? ==> Leads(step, |text|, State(s, false, stack), move.to)
  {
    if move.Halt? {
      TagHalts(step, text, conv, endch, s, stack, move.result);
    } else {
      TagLeads(step, text, conv, endch, s, stack, move.to);
    }
  }

  lemma EndTagMove(text: string, conv: Converters, endch: char, s: nat, k: nat, stack: seq<Open>)
    requires IsText(text) && Sound(conv, |text|) && |stack| > 1 && EndTagIs(text, s, stack[|stack| - 1].name, k)
    ensures s + 1 <= |text| && text[s] == '<'
    ensures TagAt(text, conv, endch, s + 1, stack) ==
              if At(text, k) == '>' then Go(State(k + 1, false, Pop(stack)))
              else if k == |text| && endch == '>' then Go(State(k, false, Pop(stack)))
              else Halt(Err(BadEndElement))
  {
    EndTagTag(text, conv, endch, s, stack);
    EndTagNamed(text, s, stack[|stack| - 1].name, k);
  }

  /** An end tag closes the innermost element if it has its name and nothing but white space behind it. */
  lemma EndTagCloses(step: Machine, text: string, conv: Converters, endch: char, s: nat, k: nat, stack: seq<Open>)
    requires Runs(step, text, conv, endch) && IsText(text) && |stack| > 1 && EndTagIs(text, s, stack[|stack| - 1].name, k)
    ensures s <= |text|
    ensures At(text, k) == '>' ==> Leads(step, |text|, State(s, false, stack), State(k + 1, false, Pop(stack)))
    ensures k == |text| && endch == '>' ==> Leads(step, |text|, State(s, false, stack), State(k, false, Pop(stack)))
    ensures At(text, k) != '>' && !(k == |text| && endch == '>') ==> RunBy(step, |text|, State(s, false, stack)) == Err(BadEndElement)
  {
    EndTagMove(text, conv, endch, s, k, stack);
    TagRuns(step, text, conv, endch, s, stack, TagAt(text, conv, endch, s + 1, stack));
  }

  /** The name was cut off with the last character of the text. */
  predicate NameCut(text: string, endch: char, s: nat, read: string, name: string) {
    s + 2 + |read| == |text| && name == read + [endch]
  }

  /** An end tag that no element is open for, or not of that name. */
  lemma EndTagMismatch(step: Machine, text: string, conv: Converters, endch: char, s: nat, read: string, k: nat, stack: seq<Open>)
    requires Runs(step, text, conv, endch) && IsText(text) && stack != [] && EndTagIs(text, s, read, k)
    requires |stack| > 1 ==> read != stack[|stack| - 1].name
    ensures RunBy(step, |text|, State(s, false, stack)) ==
              Err(if |stack| > 1 && NameCut(text, endch, s, read, stack[|stack| - 1].name) then BadEndElement else EndElementMismatch)
  {
    EndTagTag(text, conv, endch, s, stack);
    EndTagNamed(text, s, read, k);
    var status := if |stack| > 1 && NameCut(text, endch, s, read, stack[|stack| - 1].name) then BadEndElement else EndElementMismatch;
    if |stack| > 1 {
      CutName(read, stack[|stack| - 1].name, endch);
    }
    assert EndTagAt(text, endch, s + 2, stack) == Halt(Err(status));
    TagHalts(step, text, conv, endch, s, stack, Err(status));
  }

  lemma CutName(read: string, name: string, endch: char)
    ensures name == read + [endch] <==> read < name && name[|read|..] == [endch]
  {
    if read < name && name[|read|..] == [endch] {
      assert name == name[..|read|] + name[|read|..];
    }
  }

  // ------------------------------------------------------------------------ start tags

  /** A start tag: its name behind the bracket at s, as far as it goes. */
  ghost predicate StartTagIs(text: string, s: nat, name: string) {
    s < |text| && text[s] == '<' && ValidName(name) && Stands(text, s + 1, name) && !IsSymbol(At(text, s + 1 + |name|))
  }

  lemma StartTagTag(text: string, conv: Converters, endch: char, s: nat, name: string, stack: seq<Open>)
    requires IsText(text) && Sound(conv, |text|) && stack != [] && StartTagIs(text, s, name)
    ensures var e := s + 1 + |name|;
            && s + 1 <= |text| && e <= |text|
            && TagAt(text, conv, endch, s + 1, stack) ==
               if IsSpace(At(text, e)) then FullStart(text, conv, endch, name, e, stack) else PlainStart(text, endch, name, e, stack)
  {
    NameRead(text, s + 1, name);
  }

  /** What a name may not be followed by in a start tag. */
  lemma StartBroken(step: Machine, text: string, conv: Converters, endch: char, s: nat, name: string, stack: seq<Open>)
    requires Runs(step, text, conv, endch) && IsText(text) && stack != [] && StartTagIs(text, s, name)
    requires var e := s + 1 + |name|;
             && !IsWhite(At(text, e)) && At(text, e) != '>' && !(e == |text| && endch == '>')
             && (At(text, e) == '/' ==> At(text, e + 1) != '>' && !(e + 1 == |text| && endch == '>'))
    ensures RunBy(step, |text|, State(s, false, stack)) == Err(BadStartElement)
  {
    StartTagTag(text, conv, endch, s, name, stack);
    TagHalts(step, text, conv, endch, s, stack, Err(BadStartElement));
  }

  // ------------------------------------------------------------------------ attributes

  /** White space from s to k, and none at k. */
  ghost predicate Gap(text: string, s: nat, k: nat) {
    s <= k <= |text| && (forall j | s <= j < k :: IsWhite(text[j])) && !IsWhite(At(text, k))
  }

  lemma GapEnds(text: string, s: nat, k: nat)
    requires Gap(text, s, k)
    ensures SpaceEnd(text, s) == k
  {
    SpaceEndIs(text, s, k);
  }

  /** The name of an attribute: white space from s on, the name from k to e, and white space up to q. */
  ghost predicate NameIs(text: string, s: nat, k: nat, name: string, q: nat) {
    && Gap(text, s, k) && ValidName(name) && Stands(text, k, name) && !IsSymbol(At(text, k + |name|))
    && Gap(text, k + |name|, q)
  }

  lemma NameStep(text: string, conv: Converters, endch: char, s: nat, k: nat, name: string, q: nat)
    requires IsText(text) && Sound(conv, |text|) && NameIs(text, s, k, name, q)
    ensures StartStep(text, conv, endch, s) == AttributeValue(text, conv, name, k + |name|)
    ensures (if IsSpace(At(text, k + |name|)) then SpaceEnd(text, k + |name| + 1) else k + |name|) == q
  {
    GapEnds(text, s, k);
    NameRead(text, k, name);
    GapEnds(text, k + |name|, q);
  }

  /** What stands at q behind the equals sign of an attribute. */
  function Quoted(text: string, conv: Converters, name: string, q: nat): InStart
    requires IsText(text) && Sound(conv, |text|)
  {
    if At(text, q) == '"' || At(text, q) == '\'' then ValueAt(text, conv, name, q) else Bad(BadAttribute)
  }

  lemma NamedStep(text: string, conv: Converters, endch: char, s: nat, k: nat, name: string, eq: nat, q: nat)
    requires IsText(text) && Sound(conv, |text|) && NameIs(text, s, k, name, eq) && (At(text, eq) == '=' ==> Gap(text, eq + 1, q))
    ensures StartStep(text, conv, endch, s) == if At(text, eq) == '=' then Quoted(text, conv, name, q) else Bad(BadAttribute)
  {
    NameStep(text, conv, endch, s, k, name, eq);
    ValueStep(text, conv, name, k + |name|, eq, q);
  }

  lemma ValueStep(text: string, conv: Converters, name: string, e: nat, eq: nat, q: nat)
    requires IsText(text) && Sound(conv, |text|) && e <= |text| && eq == (if IsSpace(At(text, e)) then SpaceEnd(text, e + 1) else e)
    requires At(text, eq) == '=' ==> Gap(text, eq + 1, q)
    ensures AttributeValue(text, conv, name, e) == if At(text, eq) == '=' then Quoted(text, conv, name, q) else Bad(BadAttribute)
  {
    if At(text, eq) == '=' {
      GapEnds(text, eq + 1, q);
    }
  }

  /** An attribute: white space is allowed around the equals sign, and the value is converted. */
  lemma AttributeReads(text: string, conv: Converters, endch: char, s: nat, k: nat, name: string, eq: nat, q: nat)
    requires IsText(text) && Sound(conv, |text|) && NameIs(text, s, k, name, eq)
    requires At(text, eq) == '=' && Gap(text, eq + 1, q) && (At(text, q) == '"' || At(text, q) == '\'')
    requires var d := conv.attribute(q + 1, text[q]); d.Ended? && !IsStartSymbol(At(text, d.next))
    ensures StartStep(text, conv, endch, s) ==
              Another(Attr(name, conv.attribute(q + 1, text[q]).output), conv.attribute(q + 1, text[q]).next)
  {
    NamedStep(text, conv, endch, s, k, name, eq, q);
  }

  /** A name without an equals sign, a sign without a quotation mark, a value without an end, or with a name right behind it. */
  lemma AttributeBroken(text: string, conv: Converters, endch: char, s: nat, k: nat, name: string, eq: nat, q: nat)
    requires IsText(text) && Sound(conv, |text|) && NameIs(text, s, k, name, eq) && (At(text, eq) == '=' ==> Gap(text, eq + 1, q))
    requires || At(text, eq) != '='
             || (At(text, q) != '"' && At(text, q) != '\'')
             || conv.attribute(q + 1, text[q]).Unterminated?
             || IsStartSymbol(At(text, conv.attribute(q + 1, text[q]).next))
    ensures StartStep(text, conv, endch, s) == Bad(BadAttribute)
  {
    NamedStep(text, conv, endch, s, k, name, eq, q);
  }

  /** What else stands behind white space in a start tag: its end, or an error. */
  lemma StartEnds(text: string, conv: Converters, endch: char, s: nat, k: nat)
    requires IsText(text) && Sound(conv, |text|) && Gap(text, s, k) && !IsStartSymbol(At(text, k))
    ensures StartStep(text, conv, endch, s) ==
              if Stands(text, k, ">") then TagDone(false, k + 1)
              else if Stands(text, k, "/>") then TagDone(true, k + 2)
              else if endch == '>' && k == |text| then TagDone(false, k)
              else if endch == '>' && Stands(text, k, "/") && k + 1 == |text| then TagDone(true, k + 1)
              else Bad(BadStartElement)
  {
    GapEnds(text, s, k);
    MarkIsAt(text, k, ">");
    MarkIsAt(text, k, "/>");
    MarkIsAt(text, k, "/");
  }

  /** Attributes that are read one after the other, and what comes behind the last one. */
  ghost predicate Read(step: StartStepper, n: nat, attrs: seq<Attr>, at: seq<nat>, last: InStart) {
    && StartAdvances(step, n) && |at| == |attrs| + 1 && (forall j | 0 <= j <= |attrs| :: at[j] <= n)
    && (forall j | 0 <= j < |attrs| :: step(at[j]) == Another(attrs[j], at[j + 1])) && step(at[|attrs|]) == last
  }

  function ReadAs(attrs: seq<Attr>, last: InStart): Starts
    requires !last.Another?
  {
    if last.Bad? then Failed(last.status) else Started(attrs, last.empty, last.next)
  }

  lemma {:induction false} ReadFrom(step: StartStepper, n: nat, attrs: seq<Attr>, at: seq<nat>, last: InStart, i: nat)
    requires Read(step, n, attrs, at, last) && !last.Another? && i <= |attrs|
    ensures AttributesBy(step, n, at[i], attrs[..i]) == ReadAs(attrs, last)
    decreases |attrs| - i
  {
    if i < |attrs| {
      assert attrs[..i] + [attrs[i]] == attrs[..i + 1];
      ReadFrom(step, n, attrs, at, last, i + 1);
    } else {
      assert attrs[..i] == attrs;
    }
  }

  lemma ReadWhole(step: StartStepper, n: nat, attrs: seq<Attr>, at: seq<nat>, last: InStart)
    requires Read(step, n, attrs, at, last) && !last.Another?
    ensures AttributesBy(step, n, at[0], []) == ReadAs(attrs, last) && (last.TagDone? ==> last.next <= n)
  {
    ReadFrom(step, n, attrs, at, last, 0);
    assert attrs[..0] == [];
  }

  /** The attributes of a start tag are all read up to its end; the first error among them is the result of the parser. */
  lemma StartTagRuns(step: Machine, text: string, conv: Converters, endch: char, s: nat, name: string, stack: seq<Open>,
                     attrs: seq<Attr>, at: seq<nat>, last: InStart)
    requires Runs(step, text, conv, endch) && IsText(text) && stack != [] && StartTagIs(text, s, name)
    requires s + 1 + |name| < |text| && IsWhite(text[s + 1 + |name|]) && |at| > 0 && at[0] == s + 2 + |name|
    requires Read(StartStepping(text, conv, endch), |text|, attrs, at, last) && !last.Another?
    ensures last.Bad? ==> RunBy(step, |text|, State(s, false, stack)) == Err(last.status)
    ensures last.TagDone? ==>
              last.next <= |text| && Leads(step, |text|, State(s, false, stack), State(last.next, false, Opened(stack, name, attrs, last.empty)))
  {
    StartTagMove(text, conv, endch, s, name, stack, attrs, at, last);
    TagRuns(step, text, conv, endch, s, stack, TagAt(text, conv, endch, s + 1, stack));
  }

  lemma StartTagMove(text: string, conv: Converters, endch: char, s: nat, name: string, stack: seq<Open>,
                     attrs: seq<Attr>, at: seq<nat>, last: InStart)
    requires IsText(text) && Sound(conv, |text|) && stack != [] && StartTagIs(text, s, name)
    requires s + 1 + |name| < |text| && IsWhite(text[s + 1 + |name|]) && |at| > 0 && at[0] == s + 2 + |name|
    requires Read(StartStepping(text, conv, endch), |text|, attrs, at, last) && !last.Another?
    ensures last.TagDone? ==> last.next <= |text|
    ensures TagAt(text, conv, endch, s + 1, stack) ==
              if last.Bad? then Halt(Err(last.status)) else Go(State(last.next, false, Opened(stack, name, attrs, last.empty)))
  {
    StartTagTag(text, conv, endch, s, name, stack);
    AttributesRead(text, conv, endch, attrs, at, last);
  }

  lemma AttributesRead(text: string, conv: Converters, endch: char, attrs: seq<Attr>, at: seq<nat>, last: InStart)
    requires IsText(text) && Sound(conv, |text|) && |at| > 0 && at[0] <= |text|
    requires Read(StartStepping(text, conv, endch), |text|, attrs, at, last) && !last.Another?
    ensures Attributes(text, conv, endch, at[0]) == ReadAs(attrs, last) && (last.TagDone? ==> last.next <= |text|)
  {
    ReadWhole(StartStepping(text, conv, endch), |text|, attrs, at, last);
  }

  // ------------------------------------------------------------------------ documents

  /** A run that ends well is the document if it has an element and no bracket was cut off; an error stays an error. */
  lemma DocumentResult(text: string, endch: char)
    requires IsText(text)
    ensures ParseDocument("") == Err(NoDocumentElement)
    ensures Sound(DefaultConverters(text), |text|)
    ensures var start := if Stands(text, 0, BOM) then 3 else 0;
            var parsed := ParseTree(text, DefaultConverters(text), endch, start);
            (text + [endch])[..|text + [endch]| - 1] == text
            && ParseDocument(text + [endch]) ==
               if parsed.Err? then parsed
               else if endch == '<' then Err(UnrecognizedTag)
               else if exists t :: t in parsed.value && t.kind == Element then parsed
               else Err(NoDocumentElement)
  {
    DefaultSound(text);
    var buffer := text + [endch];
    assert buffer[..|buffer| - 1] == text && buffer[|buffer| - 1] == endch;
    BomStands(text);
    var parsed := ParseTree(text, DefaultConverters(text), endch, BomEnd(text));
    if parsed.Ok? {
      ElementAmong(parsed.value);
    }
  }

  const BOM: string := [0xEF as char, 0xBB as char, 0xBF as char]

  lemma BomStands(text: string)
    ensures BomEnd(text) == if Stands(text, 0, BOM) then 3 else 0
  {
    if Stands(text, 0, BOM) {
      StandsAt(text, 0, BOM, 0);
      StandsAt(text, 0, BOM, 1);
      StandsAt(text, 0, BOM, 2);
    }
  }

  lemma ElementAmong(nodes: seq<Tree>)
    ensures HasElement(nodes) <==> exists t :: t in nodes && t.kind == Element
  {
    if HasElement(nodes) {
      var i :| 0 <= i < |nodes| && nodes[i].kind == Element;
      assert nodes[i] in nodes;
    }
  }
}
