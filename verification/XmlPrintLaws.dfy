/** What the printed text of a node looks like, told without the functions that put it together. */
module XmlPrintLaws {
  import opened Wrappers
  import opened XmlTree
  import opened XmlChars
  import opened XmlDecode
  import opened XmlSurvive
  import opened XmlPrint
  import opened XmlSimple
  import opened XmlMarkup
  import Digits
  import XmlDoctype

  // ------------------------------------------------- comments and instructions

  /** A hyphen in front of another one or at the end, or a question mark in front of a bracket. */
  predicate NeedsBlank(inside: Inside, v: string, i: nat)
    requires i < |v|
  {
    if inside == InComment then v[i] == '-' && (i + 1 == |v| || v[i + 1] == '-')
    else v[i] == '?' && i + 1 < |v| && v[i + 1] == '>'
  }

  /** How many of the first n characters need a blank behind them. */
  function BlanksBefore(inside: Inside, v: string, n: nat): nat
    requires n <= |v|
  {
    if n == 0 then 0 else BlanksBefore(inside, v, n - 1) + if NeedsBlank(inside, v, n - 1) then 1 else 0
  }

  /** From place b on w has character i of v, and the blank behind it if one is needed. */
  ghost predicate GuardedAt(inside: Inside, v: string, w: string, i: nat, b: int)
    requires i < |v|
  {
    0 <= b < |w| && w[b] == v[i] && (NeedsBlank(inside, v, i) ==> b + 1 < |w| && w[b + 1] == ' ')
  }

  /** w is v with a blank behind every character that needs one, and nothing else. */
  ghost predicate IsGuarded(inside: Inside, v: string, w: string) {
    && |w| == |v| + BlanksBefore(inside, v, |v|)
    && forall i {:trigger BlanksBefore(inside, v, i)} | 0 <= i < |v| :: GuardedAt(inside, v, w, i, i + BlanksBefore(inside, v, i))
  }

  /** No character needs a blank. */
  predicate Plain(inside: Inside, v: string) {
    forall i | 0 <= i < |v| :: !NeedsBlank(inside, v, i)
  }

  lemma {:induction false} NoBlanks(inside: Inside, v: string, n: nat)
    requires Plain(inside, v) && n <= |v|
    ensures BlanksBefore(inside, v, n) == 0
  {
    if n > 0 {
      NoBlanks(inside, v, n - 1);
    }
  }

  /** A text that needs no blanks is written as it is. */
  lemma GuardedPlain(inside: Inside, v: string, w: string)
    requires IsGuarded(inside, v, w) && Plain(inside, v)
    ensures w == v
  {
    NoBlanks(inside, v, |v|);
    forall i | 0 <= i < |v| ensures w[i] == v[i] {
      NoBlanks(inside, v, i);
      assert GuardedAt(inside, v, w, i, i + BlanksBefore(inside, v, i));
    }
  }

  lemma BodyCut(inside: Inside, v: string, i: nat)
    requires i < |v|
    ensures Body(inside, v, i) == (if NeedsBlank(inside, v, i) then [v[i], ' '] else [v[i]]) + Body(inside, v, i + 1)
  {
  }

  lemma LaterGuarded(inside: Inside, v: string, first: string, w: string, k: nat, b: int)
    requires k < |v| && GuardedAt(inside, v, w, k, b)
    ensures GuardedAt(inside, v, first + w, k, b + |first|)
  {
  }

  /** Where the characters of the text stand in what is written from character i on. */
  lemma {:induction false} BodyPlaces(inside: Inside, v: string, i: nat, k: nat)
    requires i <= k < |v|
    ensures GuardedAt(inside, v, Body(inside, v, i), k, k - i + BlanksBefore(inside, v, k) - BlanksBefore(inside, v, i))
    decreases k - i
  {
    BodyCut(inside, v, i);
    if i < k {
      BodyPlaces(inside, v, i + 1, k);
      LaterGuarded(inside, v, if NeedsBlank(inside, v, i) then [v[i], ' '] else [v[i]], Body(inside, v, i + 1), k,
                   k - i - 1 + BlanksBefore(inside, v, k) - BlanksBefore(inside, v, i + 1));
    }
  }

  lemma {:induction false} BodyLength(inside: Inside, v: string, i: nat)
    requires i <= |v|
    ensures BlanksBefore(inside, v, i) <= BlanksBefore(inside, v, |v|)
    ensures |Body(inside, v, i)| == |v| - i + BlanksBefore(inside, v, |v|) - BlanksBefore(inside, v, i)
    decreases |v| - i
  {
    if i < |v| {
      BodyLength(inside, v, i + 1);
    }
  }

  lemma BodyGuarded(inside: Inside, v: string)
    ensures IsGuarded(inside, v, Body(inside, v, 0))
  {
    BodyLength(inside, v, 0);
    forall i {:trigger BlanksBefore(inside, v, i)} | 0 <= i < |v|
      ensures GuardedAt(inside, v, Body(inside, v, 0), i, i + BlanksBefore(inside, v, i))
    {
      BodyPlaces(inside, v, 0, i);
    }
  }

  /** A comment is printed between its marks, with a blank behind every hyphen that would end it. */
  lemma CommentPrinted(singleQuote: bool, t: Tree)
    requires t.kind == Comment
    ensures exists w :: IsGuarded(InComment, t.value, w) && SimpleText(singleQuote, t) == "<!--" + w + "-->"
  {
    var w := Body(InComment, t.value, 0);
    BodyGuarded(InComment, t.value);
    assert "<!--" + w + "-->" == "<!--" + (w + "-->");
  }

  /** A processing instruction is printed with its value behind a blank, if it has one. */
  lemma InstructionPrinted(singleQuote: bool, t: Tree)
    requires t.kind == Pi && t.name != ""
    ensures t.value == "" ==> SimpleText(singleQuote, t) == "<?" + t.name + "?>"
    ensures t.value != "" ==>
              exists w :: IsGuarded(InPi, t.value, w) && SimpleText(singleQuote, t) == "<?" + t.name + " " + w + "?>"
  {
    if t.value == "" {
      assert "<?" + t.name + "?>" == "<?" + (t.name + ("" + "?>"));
    } else {
      var w := Body(InPi, t.value, 0);
      BodyGuarded(InPi, t.value);
      assert "<?" + t.name + " " + w + "?>" == "<?" + (t.name + ((" " + w) + "?>"));
    }
  }

  /** A comment whose hyphens need no blanks is read back by the converter for comments, up to its end. */
  lemma CommentBack(singleQuote: bool, t: Tree, rest: string)
    requires t.kind == Comment && Plain(InComment, t.value) && NoReturn(t.value, 0) && IsText(t.value) && IsText(rest)
    ensures var printed := SimpleText(singleQuote, t);
            && IsText(printed + rest) && 4 <= |printed|
            && DecodeFrom(Rules(ToLineFeed, false, AtComment('>')), printed + rest, 4) == Ended(t.value, |printed|)
  {
    var v := t.value;
    CommentPlain(singleQuote, t);
    assert SimpleText(singleQuote, t) + rest == "<!--" + (v + ("-->" + rest));
    CommentRead(v, rest, 0);
    assert v[0..] == v;
  }

  lemma CommentPlain(singleQuote: bool, t: Tree)
    requires t.kind == Comment && Plain(InComment, t.value)
    ensures SimpleText(singleQuote, t) == "<!--" + t.value + "-->"
  {
    CommentPrinted(singleQuote, t);
    var w :| IsGuarded(InComment, t.value, w) && SimpleText(singleQuote, t) == "<!--" + w + "-->";
    GuardedPlain(InComment, t.value, w);
  }

  lemma CommentRead(v: string, rest: string, i: nat)
    requires Plain(InComment, v) && NoReturn(v, 0) && IsText(v) && IsText(rest) && i <= |v|
    ensures var text := "<!--" + (v + ("-->" + rest));
            IsText(text) && DecodeFrom(Rules(ToLineFeed, false, AtComment('>')), text, 4 + i) == Ended(v[i..], |v| + 7)
    decreases |v| - i
  {
    var text := "<!--" + (v + ("-->" + rest));
    CommentStep(v, rest, i);
    if i < |v| {
      CommentRead(v, rest, i + 1);
      assert v[i..] == [v[i]] + v[i + 1..];
    } else {
      assert v[i..] == [];
    }
  }

  lemma CommentStep(v: string, rest: string, i: nat)
    requires Plain(InComment, v) && NoReturn(v, 0) && IsText(v) && IsText(rest) && i <= |v|
    ensures var text := "<!--" + (v + ("-->" + rest));
            && IsText(text)
            && StepAt(Rules(ToLineFeed, false, AtComment('>')), text, 4 + i) ==
               if i < |v| then More([v[i]], 5 + i) else Done(|v| + 7)
  {
    var text := "<!--" + (v + ("-->" + rest));
    assert forall k | 0 <= k < |v| :: text[4 + k] == v[k];
    assert text[|v| + 4] == '-' && text[|v| + 5] == '-' && text[|v| + 6] == '>';
    if i < |v| {
      assert !NeedsBlank(InComment, v, i);
    }
  }

  /** The value of an instruction that does not contain its end stands there as it is, and the parser skips just that far. */
  lemma InstructionBack(singleQuote: bool, t: Tree, rest: string)
    requires t.kind == Pi && t.name != "" && Plain(InPi, t.value) && t.value != "" && IsText(SimpleText(singleQuote, t) + rest)
    ensures var printed, b := SimpleText(singleQuote, t), |t.name| + 3;
            && b + |t.value| + 2 == |printed| && printed[b..|printed| - 2] == t.value
            && SkipPi(printed + rest, '\0', b) == Some(|printed|)
  {
    InstructionPlain(singleQuote, t);
    InstructionSkips("<?" + t.name + " ", t.value, rest);
  }

  lemma InstructionPlain(singleQuote: bool, t: Tree)
    requires t.kind == Pi && t.name != "" && Plain(InPi, t.value) && t.value != ""
    ensures SimpleText(singleQuote, t) == "<?" + t.name + " " + t.value + "?>"
  {
    InstructionPrinted(singleQuote, t);
    var w :| IsGuarded(InPi, t.value, w) && SimpleText(singleQuote, t) == "<?" + t.name + " " + w + "?>";
    GuardedPlain(InPi, t.value, w);
  }

  lemma InstructionSkips(head: string, v: string, rest: string)
    requires Plain(InPi, v) && IsText(head + v + "?>" + rest)
    ensures (head + v + "?>")[|head|..|head| + |v|] == v
    ensures SkipPi(head + v + "?>" + rest, '\0', |head|) == Some(|head| + |v| + 2)
  {
    InstructionStands(head, v, rest);
    PlainUnbroken(v);
    PiSkipped(head + v + "?>" + rest, '\0', |head|, v);
  }

  lemma MiddleStands(head: string, v: string, tail: string, rest: string)
    ensures Stands(head + v + tail + rest, |head|, v + tail)
  {
  }

  lemma InstructionStands(head: string, v: string, rest: string)
    ensures var text, b := head + v + "?>" + rest, |head|;
            Stands(text, b, v + "?") && XmlChars.At(text, b + |v| + 1) == '>' && (head + v + "?>")[b..b + |v|] == v
  {
    var text, b := head + v + "?>" + rest, |head|;
    MiddleStands(head, v, "?>", rest);
    assert v + "?>" == (v + "?") + ">";
    StandsSplit(text, b, v + "?", ">");
    StandsAt(text, b + |v| + 1, ">", 0);
  }

  lemma PlainUnbroken(v: string)
    requires Plain(InPi, v)
    ensures Unbroken(InPi, v)
  {
    forall i | 0 <= i < |v| && v[i] == '?' ensures XmlChars.At(v, i + 1) != '>' {
      assert !NeedsBlank(InPi, v, i);
    }
  }

  /** The text of a well-closed document type stands there as it is, and the parser skips just that far. */
  lemma DoctypeBack(singleQuote: bool, t: Tree, rest: string)
    requires t.kind == Doctype && XmlDoctype.WellClosed(t.value) && t.value != "" && IsText(SimpleText(singleQuote, t) + rest)
    ensures var printed := SimpleText(singleQuote, t);
            && |printed| == |t.value| + 11 && printed[..10] == "<!DOCTYPE " && printed[10..|t.value| + 10] == t.value
            && SkipDoctype(printed + rest, '\0', 2) == Some(|printed|)
  {
    var v, printed := t.value, SimpleText(singleQuote, t);
    DoctypeParts(v);
    MiddleStands("<!", "DOCTYPE " + v, ">", rest);
    DoctypeStands(printed + rest, v);
    XmlDoctype.WordClosed(printed + rest, '\0', 2, "DOCTYPE ", v, |printed|);
    XmlDoctype.DoctypeExactly(printed + rest, '\0', 2, |printed|);
  }

  lemma DoctypeParts(v: string)
    ensures "<!DOCTYPE" + ((" " + v) + ">") == "<!" + ("DOCTYPE " + v) + ">"
    ensures ("<!" + ("DOCTYPE " + v) + ">")[..10] == "<!DOCTYPE " && ("<!" + ("DOCTYPE " + v) + ">")[10..|v| + 10] == v
  {
  }

  lemma DoctypeStands(text: string, v: string)
    requires Stands(text, 2, ("DOCTYPE " + v) + ">")
    ensures Stands(text, 2, "DOCTYPE " + v) && |v| + 10 < |text| && text[|v| + 10] == '>'
  {
    StandsSplit(text, 2, "DOCTYPE " + v, ">");
    StandsAt(text, |v| + 10, ">", 0);
  }

  // ------------------------------------------------------------- elements and names

  /** Between its marks a declaration has what the start tag of an element of the same name and attributes has. */
  lemma DeclarationPrinted(singleQuote: bool, t: Tree)
    requires t.kind == Declaration
    ensures var start := StartText(singleQuote, Tree(Element, t.name, "", t.attrs, []));
            |start| >= 3 && SimpleText(singleQuote, t) == "<?" + start[1..|start| - 2] + "?>"
  {
    DeclarationParts(NameText(t.name), AttributesText(singleQuote, t.attrs, 0));
  }

  lemma DeclarationParts(name: string, attributes: string)
    ensures var start := ['<'] + (name + (attributes + "/>"));
            "<?" + start[1..|start| - 2] + "?>" == "<?" + (name + (attributes + "?>"))
  {
    var start := ['<'] + (name + (attributes + "/>"));
    assert start[1..|start| - 2] == name + attributes;
  }

  /** What has no name is printed as if it were named `:anonymous`. */
  lemma Anonymous(singleQuote: bool, t: Tree, a: Attr)
    requires t.kind != Document
    ensures t.name == "" ==> Opening(singleQuote, t) == Opening(singleQuote, t.(name := ":anonymous"))
    ensures t.name == "" ==> Closing(t) == Closing(t.(name := ":anonymous"))
    ensures AttributesText(singleQuote, [a.(name := "")], 0) == AttributesText(singleQuote, [a.(name := ":anonymous")], 0)
  {
    var as', bs := [a.(name := "")], [a.(name := ":anonymous")];
    assert AttributesText(singleQuote, as', 1) == AttributesText(singleQuote, bs, 1);
    assert AttributeText(singleQuote, as'[0]) == AttributeText(singleQuote, bs[0]);
  }

  lemma FromCut(singleQuote: bool, t: Tree, i: nat)
    requires i < |t.children|
    ensures PrintFrom(singleQuote, t, i) == Print(singleQuote, t.children[i]) + PrintFrom(singleQuote, t, i + 1)
  {
  }

  lemma {:induction false} ChildrenSame(singleQuote: bool, t: Tree, u: Tree, i: nat)
    requires i <= |t.children| && |u.children| == |t.children| + 1 && u.children[1..] == t.children
    ensures PrintFrom(singleQuote, u, i + 1) == PrintFrom(singleQuote, t, i)
    decreases |t.children| - i
  {
    if i < |t.children| {
      assert u.children[i + 1] == u.children[1..][i];
      ChildrenSame(singleQuote, t, u, i + 1);
      FromCut(singleQuote, t, i);
      FromCut(singleQuote, u, i + 1);
    }
  }

  /** The start tag of an element with children. */
  function Head(singleQuote: bool, t: Tree): string {
    "<" + (NameText(t.name) + (AttributesText(singleQuote, t.attrs, 0) + ">"))
  }

  lemma HeadText(name: string, attributes: string, value: string, end: string)
    ensures ['<'] + (name + (attributes + ">")) == "<" + (name + (attributes + ">"))
    ensures ['<'] + (name + (attributes + (">" + (value + end)))) == ("<" + (name + (attributes + ">"))) + (value + end)
  {
  }

  lemma StartPrinted(singleQuote: bool, t: Tree)
    requires t.value != ""
    ensures StartText(singleQuote, t)
         == Head(singleQuote, t) + (Escaped(InContent, singleQuote, t.value) + if t.children == [] then EndTag(t) else "")
  {
    HeadText(NameText(t.name), AttributesText(singleQuote, t.attrs, 0), Escaped(InContent, singleQuote, t.value),
             if t.children == [] then EndTag(t) else "");
  }

  lemma HeadPrinted(singleQuote: bool, t: Tree)
    requires t.value == "" && t.children != []
    ensures StartText(singleQuote, t) == Head(singleQuote, t)
  {
    HeadText(NameText(t.name), AttributesText(singleQuote, t.attrs, 0), "", "");
  }

  /** A value embedded in an element is printed as a first child of character data would be. */
  lemma EmbeddedValue(singleQuote: bool, t: Tree)
    requires t.kind == Element && t.value != ""
    ensures Print(singleQuote, t)
         == Print(singleQuote, t.(value := "", children := [Tree(PcData, "", t.value, [], [])] + t.children))
  {
    var u := t.(value := "", children := [Tree(PcData, "", t.value, [], [])] + t.children);
    var head, value, rest := Head(singleQuote, t), Escaped(InContent, singleQuote, t.value), PrintFrom(singleQuote, t, 0);
    ValuePrinted(singleQuote, t);
    ChildrenSame(singleQuote, t, u, 0);
    HeadPrinted(singleQuote, u);
    DataPrinted(singleQuote, t.value);
    FromCut(singleQuote, u, 0);
    assert Print(singleQuote, u) == head + ((value + rest) + EndTag(t));
  }

  lemma ValuePrinted(singleQuote: bool, t: Tree)
    requires t.kind == Element && t.value != ""
    ensures Print(singleQuote, t) == Head(singleQuote, t)
              + ((Escaped(InContent, singleQuote, t.value) + PrintFrom(singleQuote, t, 0)) + EndTag(t))
  {
    StartPrinted(singleQuote, t);
    FlatText(Head(singleQuote, t), Escaped(InContent, singleQuote, t.value), PrintFrom(singleQuote, t, 0), EndTag(t));
    assert t.children == [] ==> PrintFrom(singleQuote, t, 0) == "";
  }

  lemma DataPrinted(singleQuote: bool, v: string)
    ensures Print(singleQuote, Tree(PcData, "", v, [], [])) == Escaped(InContent, singleQuote, v)
  {
    assert Escaped(InContent, singleQuote, v) + "" == Escaped(InContent, singleQuote, v);
  }

  lemma FlatText(a: string, b: string, c: string, d: string)
    ensures (a + (b + d)) + "" == a + ((b + "") + d)
    ensures (a + (b + "")) + (c + d) == a + ((b + c) + d)
  {
  }

  // ------------------------------------------------------------------------ escaping

  /** Text is escaped character by character. */
  lemma {:induction false} EscapedConcat(place: Place, singleQuote: bool, a: string, b: string)
    ensures Escaped(place, singleQuote, a + b) == Escaped(place, singleQuote, a) + Escaped(place, singleQuote, b)
  {
    EscapedSuffix(place, singleQuote, a, b, 0);
  }

  lemma {:induction false} EscapedSuffix(place: Place, singleQuote: bool, a: string, b: string, i: nat)
    requires i <= |a|
    ensures EscapedFrom(place, singleQuote, a + b, i) == EscapedFrom(place, singleQuote, a, i) + EscapedFrom(place, singleQuote, b, 0)
    decreases |a| - i
  {
    if i == |a| {
      EscapedShift(place, singleQuote, a, b, 0);
    } else {
      EscapedSuffix(place, singleQuote, a, b, i + 1);
      Regroup(EscapedChar(place, singleQuote, a[i]), EscapedFrom(place, singleQuote, a, i + 1), EscapedFrom(place, singleQuote, b, 0));
    }
  }

  lemma {:induction false} EscapedShift(place: Place, singleQuote: bool, a: string, b: string, i: nat)
    requires i <= |b|
    ensures EscapedFrom(place, singleQuote, a + b, |a| + i) == EscapedFrom(place, singleQuote, b, i)
    decreases |b| - i
  {
    if i < |b| {
      EscapedShift(place, singleQuote, a, b, i + 1);
    }
  }

  const NUMERALS: string := "0123456789"

  /**
   One character. Markup and the quotation mark in use become named references, control characters
   become decimal ones, but for white space in content; everything else is printed as it is.
   */
  lemma EscapedOne(singleQuote: bool, c: char)
    ensures Escaped(InContent, singleQuote, [c]) ==
              if c == '&' then "&amp;" else if c == '<' then "&lt;" else if c == '>' then "&gt;"
              else if c as nat >= 32 || c == '\t' || c == '\n' || c == '\r' then [c]
              else "&#" + [NUMERALS[c as nat / 10], NUMERALS[c as nat % 10]] + ";"
    ensures Escaped(InAttribute, singleQuote, [c]) ==
              if c == '&' then "&amp;" else if c == '<' then "&lt;"
              else if c == Quote(singleQuote) then (if singleQuote then "&apos;" else "&quot;")
              else if c as nat >= 32 then [c]
              else "&#" + [NUMERALS[c as nat / 10], NUMERALS[c as nat % 10]] + ";"
  {
    forall n: nat | n < 10 ensures Digits.Digit(n) == NUMERALS[n] {
      NumeralIs(n);
    }
    OneEscaped(InContent, singleQuote, c);
    OneEscaped(InAttribute, singleQuote, c);
  }

  lemma OneEscaped(place: Place, singleQuote: bool, c: char)
    ensures Escaped(place, singleQuote, [c]) == EscapedChar(place, singleQuote, c)
  {
    assert EscapedFrom(place, singleQuote, [c], 1) == [];
    assert EscapedChar(place, singleQuote, c) + [] == EscapedChar(place, singleQuote, c);
  }

  lemma NumeralIs(n: nat)
    requires n < 10
    ensures Digits.Digit(n) == NUMERALS[n]
  {
    assert NUMERALS[0] == '0' && NUMERALS[1] == '1' && NUMERALS[2] == '2' && NUMERALS[3] == '3' && NUMERALS[4] == '4';
    assert NUMERALS[5] == '5' && NUMERALS[6] == '6' && NUMERALS[7] == '7' && NUMERALS[8] == '8' && NUMERALS[9] == '9';
  }
}
