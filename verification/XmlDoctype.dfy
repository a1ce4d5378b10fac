/**
 Document types (section 2.8 of XML 1.0) as the parser knows them: plain characters, quotations,
 instructions, comments, and groups and ignored sections that hold more of the same. The parser
 skips a document type if and only if it is made of these and closed.
 */
module XmlDoctype {
  import opened Wrappers
  import opened XmlChars
  import opened XmlMarkup
  import opened XmlSurvive
  import opened XmlSimple

  // -------------------------------------------------------------------- the parts

  /** What can stand between the brackets of a document type. */
  datatype Inner = End | Then(item: Item, rest: Inner)

  datatype Item =
    | Plain(c: char)
    | Quoted(quote: char, w: string)
    | Instruction(w: string)
    | Note(w: string)
    | Group(inner: Inner)
    | Ignored(skip: Skip)

  /** The inside of an ignored section: characters and other ignored sections. */
  datatype Skip = Over | Raw(c: char, rest: Skip) | Nested(inner: Skip, rest: Skip)

  function SkipText(k: Skip): string {
    match k
    case Over => ""
    case Raw(c, rest) => [c] + SkipText(rest)
    case Nested(inner, rest) => "<![" + (SkipText(inner) + ("]]>" + SkipText(rest)))
  }

  function ItemText(item: Item): string {
    match item
    case Plain(c) => [c]
    case Quoted(q, w) => [q] + (w + [q])
    case Instruction(w) => "<?" + (w + "?>")
    case Note(w) => "<!--" + (w + "-->")
    case Group(inner) => "<!" + (InnerText(inner) + ">")
    case Ignored(skip) => "<![" + (SkipText(skip) + "]]>")
  }

  function InnerText(i: Inner): string {
    match i
    case End => ""
    case Then(item, rest) => ItemText(item) + InnerText(rest)
  }

  /** The mark stands in w + mark only at its end. */
  predicate NotBefore(w: string, mark: string) {
    forall k | 0 <= k < |w| :: !Stands(w + mark, k, mark)
  }

  /** No other section opens or closes at the beginning of s. */
  predicate IsRaw(s: string) {
    !("<![" <= s) && !("]]>" <= s)
  }

  predicate FineSkip(k: Skip) {
    match k
    case Over => true
    case Raw(c, rest) => IsRaw([c] + (SkipText(rest) + "]]>")) && FineSkip(rest)
    case Nested(inner, rest) => FineSkip(inner) && FineSkip(rest)
  }

  predicate IsQuote(c: char) {
    c == '"' || c == '\''
  }

  /** Every part is what it is written as, and closed. */
  predicate FineItem(item: Item) {
    match item
    case Plain(c) => c != '<' && c != '>' && !IsQuote(c)
    case Quoted(q, w) => IsQuote(q) && q !in w
    case Instruction(w) => NotBefore(w, "?>")
    case Note(w) => NotBefore(w, "-->")
    case Group(inner) => Fine(inner) && (InnerText(inner) + ">")[0] != '-' && (InnerText(inner) + ">")[0] != '['
    case Ignored(skip) => FineSkip(skip)
  }

  predicate Fine(i: Inner) {
    match i
    case End => true
    case Then(item, rest) => FineItem(item) && Fine(rest)
  }

  /** A text with no quotation, instruction, comment, group or section left open. */
  ghost predicate WellClosed(w: string) {
    exists i :: Fine(i) && InnerText(i) == w
  }

  // ---------------------------------------------------------- what is well closed is passed

  /** What does not stand in a text does not stand in it where it is part of a longer one. */
  lemma PartStands(text: string, s: nat, w: string, k: nat, e: string)
    requires Stands(text, s, w) && k + |e| <= |w|
    ensures Stands(text, s + k, e) <==> Stands(w, k, e)
  {
    forall j | 0 <= j < |e| ensures text[s + k + j] == e[j] <==> w[k + j] == e[j] {
      assert text[s + (k + j)] == w[k + j];
    }
  }

  /** Scanning for a closing mark of two or three characters ends where the part ends. */
  lemma ScanEnds(mark: Mark, text: string, endch: char, s: nat, w: string, close: string)
    requires (mark == InDoctypePi && close == "?>") || (mark == InDoctypeComment && close == "-->")
    requires IsText(text) && Stands(text, s, w + close) && NotBefore(w, close)
    ensures ScanFor(mark, text, endch, s) == s + |w|
  {
    var e := s + |w|;
    StandsSplit(text, s, w, close);
    MarkIs(mark, text, endch, e, close);
    forall k | s <= k < e ensures !MarkAt(mark, text, endch, k) {
      MarkIs(mark, text, endch, k, close);
      PartStands(text, s, w + close, k - s, close);
    }
    FirstMark(mark, text, endch, s, e);
  }

  lemma MarkIs(mark: Mark, text: string, endch: char, k: nat, close: string)
    requires (mark == InDoctypePi && close == "?>") || (mark == InDoctypeComment && close == "-->")
    requires IsText(text)
    ensures MarkAt(mark, text, endch, k) <==> Stands(text, k, close)
  {
    if Stands(text, k, close) {
      assert text[k] == close[0] && text[k + 1] == close[1];
      assert mark == InDoctypeComment ==> text[k + 2] == close[2];
    }
  }

  lemma QuoteEnds(text: string, endch: char, s: nat, w: string, q: char)
    requires Stands(text, s, w + [q]) && q !in w
    ensures ScanFor(InDoctypeQuote(q), text, endch, s) == s + |w|
  {
    var e := s + |w|;
    StandsSplit(text, s, w, [q]);
    assert text[e] == [q][0];
    forall k | s <= k < e ensures !MarkAt(InDoctypeQuote(q), text, endch, k) {
      assert text[k] == w[k - s] && w[k - s] in w;
    }
    FirstMark(InDoctypeQuote(q), text, endch, s, e);
  }

  lemma ThreeAt(text: string, s: nat, e: string)
    requires |e| == 3 && IsText(text) && forall j | 0 <= j < 3 :: e[j] != '\0'
    ensures Stands(text, s, e) <==> At(text, s) == e[0] && At(text, s + 1) == e[1] && At(text, s + 2) == e[2]
  {
    if Stands(text, s, e) {
      assert text[s + 0] == e[0] && text[s + 1] == e[1] && text[s + 2] == e[2];
    }
  }

  /** A scan by position and depth that is not looked into. */
  type Scan = (nat, nat) -> Option<nat>

  ghost predicate Ignores(f: Scan, text: string) {
    forall s: nat, d: nat {:trigger DoctypeIgnore(text, s, d)} | s <= |text| :: f(s, d) == DoctypeIgnore(text, s, d)
  }

  lemma SectionOpens(f: Scan, text: string, s: nat, depth: nat)
    requires Ignores(f, text) && IsText(text) && Stands(text, s, "<![")
    ensures f(s, depth) == f(s + 3, depth + 1)
  {
    assert DoctypeIgnore(text, s, depth) == DoctypeIgnore(text, s + 3, depth + 1) by {
      ThreeAt(text, s, "<![");
    }
  }

  lemma SectionCloses(f: Scan, text: string, s: nat, depth: nat)
    requires Ignores(f, text) && IsText(text) && Stands(text, s, "]]>")
    ensures f(s, depth) == if depth == 0 then Some(s + 3) else f(s + 3, depth - 1)
  {
    ThreeAt(text, s, "]]>");
    assert DoctypeIgnore(text, s, depth) == if depth == 0 then Some(s + 3) else DoctypeIgnore(text, s + 3, depth - 1);
  }

  lemma RawPasses(f: Scan, text: string, s: nat, c: char, rest: string, depth: nat)
    requires Ignores(f, text) && IsText(text) && Stands(text, s, [c] + rest) && IsRaw([c] + rest) && |rest| >= 3
    ensures f(s, depth) == f(s + 1, depth)
  {
    RawHere(text, s, c, rest);
    assert DoctypeIgnore(text, s, depth) == DoctypeIgnore(text, s + 1, depth);
  }

  lemma RawHere(text: string, s: nat, c: char, rest: string)
    requires IsText(text) && Stands(text, s, [c] + rest) && IsRaw([c] + rest) && |rest| >= 3
    ensures !(At(text, s) == '<' && At(text, s + 1) == '!' && At(text, s + 2) == '[')
    ensures !(At(text, s) == ']' && At(text, s + 1) == ']' && At(text, s + 2) == '>')
  {
    ThreeAt(text, s, "<![");
    ThreeAt(text, s, "]]>");
    PartStands(text, s, [c] + rest, 0, "<![");
    PartStands(text, s, [c] + rest, 0, "]]>");
    StandsFirst("<![", [c] + rest);
    StandsFirst("]]>", [c] + rest);
  }

  /** Ignoring goes on behind what an ignored section holds, at the same depth. */
  lemma {:induction false} SkipPasses(f: Scan, text: string, s: nat, k: Skip, depth: nat)
    requires Ignores(f, text) && IsText(text) && FineSkip(k) && Stands(text, s, SkipText(k) + "]]>")
    ensures f(s, depth) == f(s + |SkipText(k)|, depth)
    decreases k
  {
    match k
    case Over =>
    case Raw(c, rest) =>
      RawParts(text, s, c, rest);
      RawPasses(f, text, s, c, SkipText(rest) + "]]>", depth);
      SkipPasses(f, text, s + 1, rest, depth);
    case Nested(inner, rest) =>
      NestedParts(text, s, inner, rest);
      SkipPasses(f, text, s + 3, inner, depth + 1);
      SkipPasses(f, text, s + 6 + |SkipText(inner)|, rest, depth);
      NestedPasses(f, text, s, |SkipText(inner)|, depth);
  }

  lemma NestedPasses(f: Scan, text: string, s: nat, n: nat, depth: nat)
    requires Ignores(f, text) && IsText(text) && Stands(text, s, "<![") && Stands(text, s + 3 + n, "]]>")
    requires f(s + 3, depth + 1) == f(s + 3 + n, depth + 1)
    ensures f(s, depth) == f(s + 6 + n, depth)
  {
    SectionOpens(f, text, s, depth);
    SectionCloses(f, text, s + 3 + n, depth + 1);
  }

  lemma RawParts(text: string, s: nat, c: char, rest: Skip)
    requires Stands(text, s, SkipText(Raw(c, rest)) + "]]>")
    ensures Stands(text, s, [c] + (SkipText(rest) + "]]>")) && Stands(text, s + 1, SkipText(rest) + "]]>")
  {
    assert SkipText(Raw(c, rest)) + "]]>" == [c] + (SkipText(rest) + "]]>");
    StandsSplit(text, s, [c], SkipText(rest) + "]]>");
  }

  lemma NestedParts(text: string, s: nat, inner: Skip, rest: Skip)
    requires Stands(text, s, SkipText(Nested(inner, rest)) + "]]>")
    ensures Stands(text, s, "<![") && Stands(text, s + 3, SkipText(inner) + "]]>")
    ensures Stands(text, s + 3 + |SkipText(inner)|, "]]>")
    ensures Stands(text, s + 6 + |SkipText(inner)|, SkipText(rest) + "]]>")
  {
    SixParts(text, s, "<![", SkipText(inner), "]]>", SkipText(rest));
  }

  lemma SixParts(text: string, s: nat, a: string, b: string, c: string, d: string)
    requires Stands(text, s, (a + (b + (c + d))) + c)
    ensures Stands(text, s, a) && Stands(text, s + |a|, b + c)
    ensures Stands(text, s + |a| + |b|, c) && Stands(text, s + |a| + |b| + |c|, d + c)
  {
    assert (a + (b + (c + d))) + c == a + ((b + c) + (d + c));
    StandsSplit(text, s, a, (b + c) + (d + c));
    StandsSplit(text, s + |a|, b + c, d + c);
    StandsSplit(text, s + |a|, b, c);
  }

  lemma StandsFirst(e: string, w: string)
    ensures Stands(w, 0, e) <==> e <= w
  {
  }

  // ------------------------------------------------------------------- whole groups

  ghost predicate Scans(g: Scan, text: string, endch: char) {
    forall s: nat, d: nat {:trigger DoctypeGroup(text, endch, s, d)} | s <= |text| :: g(s, d) == DoctypeGroup(text, endch, s, d)
  }

  /** Taking one part of n characters, the scan goes on behind it at the same depth. */
  ghost predicate Passes(g: Scan, text: string, s: nat, n: nat, depth: nat) {
    s + n <= |text| && g(s, depth) == g(s + n, depth)
  }

  lemma PrimitivePasses(g: Scan, text: string, endch: char, s: nat, n: nat, depth: nat)
    requires Scans(g, text, endch) && s < |text|
    requires IsQuote(text[s]) || (text[s] == '<' && !(At(text, s + 1) == '!' && At(text, s + 2) != '-'))
    requires DoctypePrimitive(text, endch, s) == Some(s + n)
    ensures Passes(g, text, s, n, depth)
  {
    assert DoctypeGroup(text, endch, s, depth) == DoctypeGroup(text, endch, s + n, depth);
  }

  lemma PlainPasses(g: Scan, text: string, endch: char, s: nat, c: char, depth: nat)
    requires Scans(g, text, endch) && Stands(text, s, [c]) && FineItem(Plain(c))
    ensures Passes(g, text, s, 1, depth)
  {
    assert text[s] == [c][0];
    assert DoctypeGroup(text, endch, s, depth) == DoctypeGroup(text, endch, s + 1, depth);
  }

  lemma QuotedPasses(g: Scan, text: string, endch: char, s: nat, q: char, w: string, depth: nat)
    requires Scans(g, text, endch) && Stands(text, s, [q] + (w + [q])) && IsQuote(q) && q !in w
    ensures Passes(g, text, s, |w| + 2, depth)
  {
    StandsSplit(text, s, [q], w + [q]);
    assert text[s] == [q][0];
    QuoteEnds(text, endch, s + 1, w, q);
    PrimitivePasses(g, text, endch, s, |w| + 2, depth);
  }

  lemma InstructionPasses(g: Scan, text: string, endch: char, s: nat, w: string, depth: nat)
    requires Scans(g, text, endch) && IsText(text) && Stands(text, s, "<?" + (w + "?>")) && NotBefore(w, "?>")
    ensures Passes(g, text, s, |w| + 4, depth)
  {
    StandsSplit(text, s, "<?", w + "?>");
    StandsAt(text, s, "<?", 0);
    StandsAt(text, s, "<?", 1);
    ScanEnds(InDoctypePi, text, endch, s + 2, w, "?>");
    PrimitivePasses(g, text, endch, s, |w| + 4, depth);
  }

  lemma NotePasses(g: Scan, text: string, endch: char, s: nat, w: string, depth: nat)
    requires Scans(g, text, endch) && IsText(text) && Stands(text, s, "<!--" + (w + "-->")) && NotBefore(w, "-->")
    ensures Passes(g, text, s, |w| + 7, depth)
  {
    StandsSplit(text, s, "<!--", w + "-->");
    StandsAt(text, s, "<!--", 0);
    StandsAt(text, s, "<!--", 1);
    StandsAt(text, s, "<!--", 2);
    StandsAt(text, s, "<!--", 3);
    ScanEnds(InDoctypeComment, text, endch, s + 4, w, "-->");
    PrimitivePasses(g, text, endch, s, |w| + 7, depth);
  }

  lemma IgnoredPasses(g: Scan, text: string, endch: char, s: nat, k: Skip, depth: nat)
    requires Scans(g, text, endch) && IsText(text) && Stands(text, s, "<![" + (SkipText(k) + "]]>")) && FineSkip(k)
    ensures Passes(g, text, s, |SkipText(k)| + 6, depth)
  {
    StandsSplit(text, s, "<![", SkipText(k) + "]]>");
    ThreeAt(text, s, "<![");
    SectionPasses(text, s + 3, k);
    assert DoctypeGroup(text, endch, s, depth) == DoctypeGroup(text, endch, s + |SkipText(k)| + 6, depth);
  }

  lemma SectionPasses(text: string, s: nat, k: Skip)
    requires IsText(text) && Stands(text, s, SkipText(k) + "]]>") && FineSkip(k)
    ensures DoctypeIgnore(text, s, 0) == Some(s + |SkipText(k)| + 3)
  {
    var f: Scan := (i: nat, d: nat) => if i <= |text| then DoctypeIgnore(text, i, d) else None;
    SectionEnds(f, text, s, k);
  }

  lemma SectionEnds(f: Scan, text: string, s: nat, k: Skip)
    requires Ignores(f, text) && IsText(text) && Stands(text, s, SkipText(k) + "]]>") && FineSkip(k)
    ensures f(s, 0) == Some(s + |SkipText(k)| + 3)
  {
    SkipPasses(f, text, s, k, 0);
    StandsSplit(text, s, SkipText(k), "]]>");
    SectionCloses(f, text, s + |SkipText(k)|, 0);
  }

  lemma GroupOpened(g: Scan, text: string, endch: char, s: nat, rest: string, depth: nat)
    requires Scans(g, text, endch) && IsText(text) && Stands(text, s, "<!" + rest) && rest != "" && rest[0] != '-' && rest[0] != '['
    ensures g(s, depth) == g(s + 2, depth + 1)
  {
    StandsSplit(text, s, "<!", rest);
    StandsAt(text, s, "<!", 0);
    StandsAt(text, s, "<!", 1);
    StandsAt(text, s + 2, rest, 0);
    assert DoctypeGroup(text, endch, s, depth) == DoctypeGroup(text, endch, s + 2, depth + 1);
  }

  lemma GroupClosed(g: Scan, text: string, endch: char, s: nat, depth: nat)
    requires Scans(g, text, endch) && Stands(text, s, ">")
    ensures g(s, depth) == if depth == 0 then Some(s) else g(s + 1, depth - 1)
  {
    StandsAt(text, s, ">", 0);
    assert DoctypeGroup(text, endch, s, depth) == if depth == 0 then Some(s) else DoctypeGroup(text, endch, s + 1, depth - 1);
  }

  lemma {:induction false} ItemPasses(g: Scan, text: string, endch: char, s: nat, item: Item, depth: nat)
    requires Scans(g, text, endch) && IsText(text) && FineItem(item) && Stands(text, s, ItemText(item))
    ensures Passes(g, text, s, |ItemText(item)|, depth)
    decreases item
  {
    match item
    case Plain(c) => PlainPasses(g, text, endch, s, c, depth);
    case Quoted(q, w) => QuotedPasses(g, text, endch, s, q, w, depth);
    case Instruction(w) => InstructionPasses(g, text, endch, s, w, depth);
    case Note(w) => NotePasses(g, text, endch, s, w, depth);
    case Ignored(skip) => IgnoredPasses(g, text, endch, s, skip, depth);
    case Group(inner) =>
      var w := InnerText(inner);
      GroupOpened(g, text, endch, s, w + ">", depth);
      StandsSplit(text, s, "<!", w + ">");
      StandsSplit(text, s + 2, w, ">");
      InnerPasses(g, text, endch, s + 2, inner, depth + 1);
      GroupClosed(g, text, endch, s + 2 + |w|, depth + 1);
  }

  lemma {:induction false} InnerPasses(g: Scan, text: string, endch: char, s: nat, i: Inner, depth: nat)
    requires Scans(g, text, endch) && IsText(text) && Fine(i) && Stands(text, s, InnerText(i))
    ensures Passes(g, text, s, |InnerText(i)|, depth)
    decreases i
  {
    match i
    case End =>
    case Then(item, rest) =>
      StandsSplit(text, s, ItemText(item), InnerText(rest));
      ItemPasses(g, text, endch, s, item, depth);
      InnerPasses(g, text, endch, s + |ItemText(item)|, rest, depth);
  }

  // ---------------------------------------------------------- what is passed is well closed

  /** Sections that are open one inside the other, from the innermost on, with their ends. */
  function Layers(ks: seq<Skip>): string {
    if ks == [] then "" else (SkipText(ks[0]) + "]]>") + Layers(ks[1..])
  }

  /** From s to n the text is the rest of the sections that are open. */
  predicate Layered(text: string, s: nat, n: nat, ks: seq<Skip>) {
    && Stands(text, s, Layers(ks)) && n == s + |Layers(ks)|
    && forall i | 0 <= i < |ks| :: FineSkip(ks[i])
  }

  lemma StandsJoin(text: string, s: nat, a: string, b: string)
    requires Stands(text, s, a) && Stands(text, s + |a|, b)
    ensures Stands(text, s, a + b)
  {
    forall k | 0 <= k < |a + b| ensures text[s + k] == (a + b)[k] {
      if k >= |a| {
        assert text[s + |a| + (k - |a|)] == b[k - |a|];
      }
    }
  }

  lemma LayersOpened(text: string, s: nat, n: nat, inner: Skip, outer: Skip, ks: seq<Skip>)
    requires Stands(text, s, "<![") && Layered(text, s + 3, n, [inner, outer] + ks)
    ensures Layered(text, s, n, [Nested(inner, outer)] + ks)
  {
    var all, less := [inner, outer] + ks, [outer] + ks;
    assert all[0] == inner && all[1..] == less && less[0] == outer && less[1..] == ks;
    assert FineSkip(all[0]) && FineSkip(all[1]) && forall i | 0 <= i < |ks| :: ks[i] == all[i + 2];
    var made := [Nested(inner, outer)] + ks;
    assert made[0] == Nested(inner, outer) && made[1..] == ks;
    assert Layers(less) == (SkipText(outer) + "]]>") + Layers(ks);
    assert Layers(all) == (SkipText(inner) + "]]>") + Layers(less);
    StandsJoin(text, s, "<![", Layers(all));
    OpenedText(SkipText(inner), SkipText(outer), Layers(ks));
    assert forall i | 1 <= i < |made| :: made[i] == ks[i - 1];
  }

  lemma OpenedText(a: string, b: string, c: string)
    ensures "<![" + ((a + "]]>") + ((b + "]]>") + c)) == (("<![" + (a + ("]]>" + b))) + "]]>") + c
  {
  }

  lemma LayersClosed(text: string, s: nat, n: nat, ks: seq<Skip>)
    requires Stands(text, s, "]]>") && Layered(text, s + 3, n, ks)
    ensures Layered(text, s, n, [Over] + ks)
  {
    var made := [Over] + ks;
    assert made[0] == Over && made[1..] == ks && "" + "]]>" == "]]>";
    StandsJoin(text, s, "]]>", Layers(ks));
    assert forall i | 1 <= i < |made| :: made[i] == ks[i - 1];
  }

  lemma LayersRaw(text: string, s: nat, n: nat, c: char, first: Skip, ks: seq<Skip>)
    requires s < |text| && text[s] == c && Layered(text, s + 1, n, [first] + ks)
    requires !Stands(text, s, "<![") && !Stands(text, s, "]]>")
    ensures Layered(text, s, n, [Raw(c, first)] + ks)
  {
    var all, made := [first] + ks, [Raw(c, first)] + ks;
    assert all[0] == first && all[1..] == ks && made[0] == Raw(c, first) && made[1..] == ks;
    StandsSplit(text, s + 1, SkipText(first) + "]]>", Layers(ks));
    StandsJoin(text, s, [c], SkipText(first) + "]]>");
    RawIsRaw(text, s, [c] + (SkipText(first) + "]]>"));
    StandsJoin(text, s, [c], Layers(all));
    RawText(c, SkipText(first), Layers(ks));
    assert FineSkip(all[0]) && forall i | 0 <= i < |ks| :: ks[i] == all[i + 1];
  }

  lemma RawText(c: char, a: string, b: string)
    ensures [c] + ((a + "]]>") + b) == (([c] + a) + "]]>") + b
    ensures [c] + (a + "]]>") == ([c] + a) + "]]>"
  {
  }

  lemma RawIsRaw(text: string, s: nat, w: string)
    requires Stands(text, s, w) && !Stands(text, s, "<![") && !Stands(text, s, "]]>")
    ensures IsRaw(w)
  {
    StandsFirst("<![", w);
    StandsFirst("]]>", w);
    if |w| >= 3 {
      PartStands(text, s, w, 0, "<![");
      PartStands(text, s, w, 0, "]]>");
    }
  }

  lemma {:induction false} IgnoreRead(text: string, s: nat, depth: nat) returns (ks: seq<Skip>)
    requires IsText(text) && s <= |text| && DoctypeIgnore(text, s, depth).Some?
    ensures |ks| == depth + 1 && Layered(text, s, DoctypeIgnore(text, s, depth).value, ks)
    decreases |text| - s
  {
    var n := DoctypeIgnore(text, s, depth).value;
    ThreeAt(text, s, "<![");
    ThreeAt(text, s, "]]>");
    if Stands(text, s, "<![") {
      var more := IgnoreRead(text, s + 3, depth + 1);
      assert more == [more[0], more[1]] + more[2..];
      LayersOpened(text, s, n, more[0], more[1], more[2..]);
      ks := [Nested(more[0], more[1])] + more[2..];
    } else if Stands(text, s, "]]>") {
      var more: seq<Skip> := [];
      if depth > 0 {
        more := IgnoreRead(text, s + 3, depth - 1);
      }
      LayersClosed(text, s, n, more);
      ks := [Over] + more;
    } else {
      var more := IgnoreRead(text, s + 1, depth);
      assert more == [more[0]] + more[1..];
      LayersRaw(text, s, n, text[s], more[0], more[1..]);
      ks := [Raw(text[s], more[0])] + more[1..];
    }
  }

  lemma SectionRead(text: string, s: nat) returns (k: Skip)
    requires IsText(text) && s <= |text| && DoctypeIgnore(text, s, 0).Some?
    ensures FineSkip(k) && Stands(text, s, SkipText(k) + "]]>")
    ensures DoctypeIgnore(text, s, 0).value == s + |SkipText(k)| + 3
  {
    var ks := IgnoreRead(text, s, 0);
    k := ks[0];
    assert Layers(ks) == (SkipText(k) + "]]>") + Layers(ks[1..]) && Layers(ks[1..]) == "";
    assert (SkipText(k) + "]]>") + "" == SkipText(k) + "]]>";
  }

  // -------------------------------------------------------------- groups that are open

  /** Groups that are open one inside the other, from the innermost on. */
  function Levels(es: seq<Inner>): string
    requires es != []
  {
    InnerText(es[0]) + if |es| == 1 then "" else ">" + Levels(es[1..])
  }

  /** From s to n the text is the rest of the groups that are open. */
  predicate Levelled(text: string, s: nat, n: nat, es: seq<Inner>) {
    && es != [] && Stands(text, s, Levels(es)) && n == s + |Levels(es)|
    && forall i | 0 <= i < |es| :: Fine(es[i])
  }

  lemma LevelsItem(text: string, s: nat, n: nat, item: Item, first: Inner, es: seq<Inner>)
    requires FineItem(item) && Stands(text, s, ItemText(item)) && Levelled(text, s + |ItemText(item)|, n, [first] + es)
    ensures Levelled(text, s, n, [Then(item, first)] + es)
  {
    var all, made := [first] + es, [Then(item, first)] + es;
    assert all[0] == first && all[1..] == es && made[0] == Then(item, first) && made[1..] == es;
    StandsJoin(text, s, ItemText(item), Levels(all));
    Regroup(ItemText(item), InnerText(first), if es == [] then "" else ">" + Levels(es));
    assert Fine(all[0]) && forall i | 0 <= i < |es| :: es[i] == all[i + 1];
  }

  lemma LevelsClosed(text: string, s: nat, n: nat, es: seq<Inner>)
    requires Stands(text, s, ">") && Levelled(text, s + 1, n, es)
    ensures Levelled(text, s, n, [End] + es)
  {
    var made := [End] + es;
    assert made[0] == End && made[1..] == es && "" + (">" + Levels(es)) == ">" + Levels(es);
    StandsJoin(text, s, ">", Levels(es));
    assert forall i | 1 <= i < |made| :: made[i] == es[i - 1];
  }

  lemma LevelsOpened(text: string, s: nat, n: nat, inner: Inner, outer: Inner, es: seq<Inner>)
    requires Stands(text, s, "<!") && Levelled(text, s + 2, n, [inner, outer] + es)
    requires s + 2 < |text| && text[s + 2] != '-' && text[s + 2] != '['
    ensures Levelled(text, s, n, [Then(Group(inner), outer)] + es)
  {
    var all, less, made := [inner, outer] + es, [outer] + es, [Then(Group(inner), outer)] + es;
    assert all[0] == inner && all[1..] == less && less[0] == outer && less[1..] == es;
    assert made[0] == Then(Group(inner), outer) && made[1..] == es;
    var w, rest := InnerText(inner) + ">", Levels(less);
    assert Levels(all) == w + rest;
    assert text[s + 2] == (w + rest)[0] == w[0];
    var behind := if es == [] then "" else ">" + Levels(es);
    assert Levels(less) == InnerText(outer) + behind;
    StandsJoin(text, s, "<!", Levels(all));
    GroupText(InnerText(inner), InnerText(outer), behind);
    assert ItemText(Group(inner)) == "<!" + (InnerText(inner) + ">");
    assert Levels(made) == (ItemText(Group(inner)) + InnerText(outer)) + behind;
    assert forall i | 1 <= i < |made| :: made[i] == es[i - 1];
    assert Fine(all[0]) && Fine(all[1]) && forall i | 0 <= i < |es| :: es[i] == all[i + 2];
  }

  lemma GroupText(a: string, b: string, c: string)
    ensures "<!" + (a + (">" + (b + c))) == (("<!" + (a + ">")) + b) + c
  {
  }

  lemma {:induction false} NoMarkBefore(mark: Mark, text: string, endch: char, s: nat, k: nat)
    requires s <= |text| && s <= k < ScanFor(mark, text, endch, s)
    ensures !MarkAt(mark, text, endch, k)
    decreases k - s
  {
    if s < k {
      NoMarkBefore(mark, text, endch, s + 1, k);
    }
  }

  /** What is scanned up to a closing mark, and the mark. */
  lemma ScanRead(mark: Mark, text: string, endch: char, s: nat, close: string) returns (w: string)
    requires (mark == InDoctypePi && close == "?>") || (mark == InDoctypeComment && close == "-->")
    requires IsText(text) && s <= |text| && ScanFor(mark, text, endch, s) < |text|
    ensures Stands(text, s, w + close) && NotBefore(w, close) && ScanFor(mark, text, endch, s) == s + |w|
  {
    var e := ScanFor(mark, text, endch, s);
    w := text[s..e];
    MarkIs(mark, text, endch, e, close);
    StandsJoin(text, s, w, close);
    forall k | 0 <= k < |w| ensures !Stands(w + close, k, close) {
      NoMarkBefore(mark, text, endch, s, s + k);
      MarkIs(mark, text, endch, s + k, close);
      if k + |close| <= |w + close| {
        PartStands(text, s, w + close, k, close);
      }
    }
  }

  lemma QuoteRead(text: string, endch: char, s: nat, q: char) returns (w: string)
    requires s <= |text| && ScanFor(InDoctypeQuote(q), text, endch, s) < |text|
    ensures Stands(text, s, w + [q]) && q !in w && ScanFor(InDoctypeQuote(q), text, endch, s) == s + |w|
  {
    var e := ScanFor(InDoctypeQuote(q), text, endch, s);
    w := text[s..e];
    assert At(text, e) == q;
    StandsJoin(text, s, w, [q]);
    forall k | 0 <= k < |w| ensures w[k] != q {
      NoMarkBefore(InDoctypeQuote(q), text, endch, s, s + k);
    }
  }

  /** What the parser takes for a quotation, an instruction or a comment is one. */
  lemma PrimitiveRead(text: string, endch: char, s: nat) returns (item: Item)
    requires IsText(text) && s < |text| && DoctypePrimitive(text, endch, s).Some?
    ensures FineItem(item) && Stands(text, s, ItemText(item))
    ensures DoctypePrimitive(text, endch, s).value == s + |ItemText(item)|
  {
    if IsQuote(text[s]) {
      var w := QuoteRead(text, endch, s + 1, text[s]);
      StandsJoin(text, s, [text[s]], w + [text[s]]);
      item := Quoted(text[s], w);
    } else if At(text, s + 1) == '?' {
      var w := ScanRead(InDoctypePi, text, endch, s + 2, "?>");
      StandsJoin(text, s, "<?", w + "?>");
      item := Instruction(w);
    } else {
      var w := ScanRead(InDoctypeComment, text, endch, s + 4, "-->");
      StandsJoin(text, s, "<!--", w + "-->");
      item := Note(w);
    }
  }

  /** A part at s, and the scan goes on behind it at the same depth. */
  ghost predicate Takes(text: string, endch: char, s: nat, depth: nat, item: Item) {
    && FineItem(item) && Stands(text, s, ItemText(item)) && ItemText(item) != ""
    && DoctypeGroup(text, endch, s, depth) == DoctypeGroup(text, endch, s + |ItemText(item)|, depth)
  }

  lemma ItemRead(text: string, endch: char, s: nat, depth: nat) returns (item: Item)
    requires IsText(text) && s < |text| && DoctypeGroup(text, endch, s, depth).Some?
    requires text[s] != '>' && !(text[s] == '<' && At(text, s + 1) == '!' && At(text, s + 2) != '-' && At(text, s + 2) != '[')
    ensures Takes(text, endch, s, depth, item)
  {
    if text[s] == '<' && At(text, s + 1) == '!' && At(text, s + 2) == '[' {
      var k := SectionRead(text, s + 3);
      ThreeAt(text, s, "<![");
      StandsJoin(text, s, "<![", SkipText(k) + "]]>");
      item := Ignored(k);
    } else if text[s] == '<' || IsQuote(text[s]) {
      item := PrimitiveRead(text, endch, s);
    } else {
      item := Plain(text[s]);
    }
  }

  /** A group opens at s. */
  predicate GroupAt(text: string, s: nat) {
    At(text, s) == '<' && At(text, s + 1) == '!' && At(text, s + 2) != '-' && At(text, s + 2) != '['
  }

  lemma {:induction false} GroupRead(text: string, endch: char, s: nat, depth: nat) returns (es: seq<Inner>)
    requires IsText(text) && s <= |text| && DoctypeGroup(text, endch, s, depth).Some?
    ensures |es| == depth + 1 && Levelled(text, s, DoctypeGroup(text, endch, s, depth).value, es)
    decreases |text| - s
  {
    var n := DoctypeGroup(text, endch, s, depth).value;
    if s == |text| || (text[s] == '>' && depth == 0) {
      es := [End];
    } else if GroupAt(text, s) {
      var more := GroupRead(text, endch, s + 2, depth + 1);
      assert more == [more[0], more[1]] + more[2..];
      GroupBegins(text, endch, s, depth);
      LevelsOpened(text, s, n, more[0], more[1], more[2..]);
      es := [Then(Group(more[0]), more[1])] + more[2..];
    } else if text[s] == '>' {
      var more := GroupRead(text, endch, s + 1, depth - 1);
      LevelsClosed(text, s, n, more);
      es := [End] + more;
    } else {
      var item := ItemRead(text, endch, s, depth);
      var more := GroupRead(text, endch, s + |ItemText(item)|, depth);
      assert more == [more[0]] + more[1..];
      LevelsItem(text, s, n, item, more[0], more[1..]);
      es := [Then(item, more[0])] + more[1..];
    }
  }

  lemma GroupBegins(text: string, endch: char, s: nat, depth: nat)
    requires IsText(text) && s < |text| && GroupAt(text, s) && DoctypeGroup(text, endch, s, depth).Some?
    ensures Stands(text, s, "<!") && s + 2 < |text| && text[s + 2] != '-' && text[s + 2] != '['
  {
    assert DoctypeGroup(text, endch, |text|, depth + 1).None?;
  }

  // ------------------------------------------------------------------------ the theorem

  /** From s on there is a well-closed text, and then the bracket, or the end of the text where it was cut off. */
  ghost predicate ClosedUpTo(text: string, endch: char, s: nat, n: nat) {
    exists i :: Fine(i) && Stands(text, s, InnerText(i)) && EndsAt(text, endch, s + |InnerText(i)|, n)
  }

  /** From s on there is a well-closed text with its end. */
  ghost predicate Closes(text: string, endch: char, s: nat) {
    exists n: nat :: ClosedUpTo(text, endch, s, n)
  }

  predicate EndsAt(text: string, endch: char, e: nat, n: nat) {
    if e < |text| then text[e] == '>' && n == e + 1 else e == |text| == n && endch == '>'
  }

  /** A document type is skipped exactly when it is well closed, and exactly up to its end. */
  lemma DoctypeExactly(text: string, endch: char, s: nat, n: nat)
    requires IsText(text) && s <= |text|
    ensures SkipDoctype(text, endch, s) == Some(n) <==> ClosedUpTo(text, endch, s, n)
  {
    if SkipDoctype(text, endch, s) == Some(n) {
      var es := GroupRead(text, endch, s, 0);
      assert InnerText(es[0]) + "" == InnerText(es[0]);
      GroupEnds(text, endch, s, 0);
      assert Fine(es[0]) && Stands(text, s, InnerText(es[0])) && EndsAt(text, endch, s + |InnerText(es[0])|, n);
    }
    if ClosedUpTo(text, endch, s, n) {
      var i :| Fine(i) && Stands(text, s, InnerText(i)) && EndsAt(text, endch, s + |InnerText(i)|, n);
      ClosedSkips(text, endch, s, i);
    }
  }

  lemma {:induction false} GroupEnds(text: string, endch: char, s: nat, depth: nat)
    requires s <= |text| && DoctypeGroup(text, endch, s, depth).Some?
    ensures DoctypeGroup(text, endch, s, depth).value == |text| ==> endch == '>'
    decreases |text| - s
  {
    if s == |text| {
    } else if text[s] == '<' && At(text, s + 1) == '!' && At(text, s + 2) != '-' {
      if At(text, s + 2) == '[' {
        GroupEnds(text, endch, DoctypeIgnore(text, s + 3, 0).value, depth);
      } else {
        GroupEnds(text, endch, s + 2, depth + 1);
      }
    } else if text[s] == '<' || IsQuote(text[s]) {
      GroupEnds(text, endch, DoctypePrimitive(text, endch, s).value, depth);
    } else if text[s] == '>' {
      if depth > 0 {
        GroupEnds(text, endch, s + 1, depth - 1);
      }
    } else {
      GroupEnds(text, endch, s + 1, depth);
    }
  }

  lemma ClosedSkips(text: string, endch: char, s: nat, i: Inner)
    requires IsText(text) && Fine(i) && Stands(text, s, InnerText(i))
    requires var e := s + |InnerText(i)|; if e < |text| then text[e] == '>' else endch == '>'
    ensures var e := s + |InnerText(i)|; SkipDoctype(text, endch, s) == Some(if e < |text| then e + 1 else e)
  {
    var g: Scan := (k: nat, d: nat) => if k <= |text| then DoctypeGroup(text, endch, k, d) else None;
    InnerPasses(g, text, endch, s, i, 0);
    var e := s + |InnerText(i)|;
    assert DoctypeGroup(text, endch, e, 0) == Some(e);
  }

  // ------------------------------------------------------------------- written document types

  /** Plain characters in front of a text. */
  function Fronted(word: string, i: Inner): Inner {
    if word == "" then i else Then(Plain(word[0]), Fronted(word[1..], i))
  }

  predicate PlainWord(word: string) {
    forall k | 0 <= k < |word| :: FineItem(Plain(word[k]))
  }

  lemma {:induction false} FrontedFine(word: string, i: Inner)
    requires PlainWord(word) && Fine(i)
    ensures Fine(Fronted(word, i)) && InnerText(Fronted(word, i)) == word + InnerText(i)
  {
    if word == "" {
      assert word + InnerText(i) == InnerText(i);
    } else {
      FrontedFine(word[1..], i);
      assert word + InnerText(i) == [word[0]] + (word[1..] + InnerText(i));
    }
  }

  /** A word in front of a well-closed text and a bracket behind it, which may have been cut off. */
  lemma WordClosed(text: string, endch: char, s: nat, word: string, w: string, n: nat)
    requires PlainWord(word) && WellClosed(w) && Stands(text, s, word + w) && EndsAt(text, endch, s + |word| + |w|, n)
    ensures ClosedUpTo(text, endch, s, n)
  {
    var i :| Fine(i) && InnerText(i) == w;
    FrontedFine(word, i);
    assert Fine(Fronted(word, i)) && Stands(text, s, InnerText(Fronted(word, i)));
  }

  lemma WordInFront(word: string, w: string)
    requires PlainWord(word) && WellClosed(w)
    ensures WellClosed(word + w)
  {
    var i :| Fine(i) && InnerText(i) == w;
    FrontedFine(word, i);
  }
}
