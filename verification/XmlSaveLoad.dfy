/** Saving a document and loading it: the printer, the output buffer, the conversions and the parser, one behind the other. */
module XmlSaveLoad {
  import opened Wrappers
  import opened XmlTree
  import opened XmlChars
  import opened XmlSurvive
  import opened XmlPrint
  import opened XmlParse
  import opened XmlReadBack
  import opened XmlRoundTrip
  import XmlSimple
  import XmlSimpleBack
  import XmlUtf8
  import XmlWriter
  import XmlTranscode
  import XmlInPlace

  // --------------------------------------------------------------------------- saving

  /** `format_attribute_single_quote`, `format_write_bom` and `format_no_declaration`, with `format_raw`. */
  datatype SaveFlags = SaveFlags(singleQuote: bool, bom: bool, noDeclaration: bool)

  /** A declaration stands among the children, before the first element. */
  predicate DeclaredFrom(nodes: seq<Tree>, i: nat)
    requires i <= |nodes|
    decreases |nodes| - i
  {
    i < |nodes| && nodes[i].kind != Element && (nodes[i].kind == Declaration || DeclaredFrom(nodes, i + 1))
  }

  /** That is: some child is a declaration, and no child before it is an element. */
  lemma {:induction false} DeclaredExactly(nodes: seq<Tree>, i: nat)
    requires i <= |nodes|
    ensures DeclaredFrom(nodes, i) <==>
              exists k | i <= k < |nodes| :: nodes[k].kind == Declaration && forall j | i <= j < k :: nodes[j].kind != Element
    decreases |nodes| - i
  {
    if i < |nodes| {
      DeclaredExactly(nodes, i + 1);
    }
  }

  /** `has_declaration` */
  method HasDeclaration(d: Tree) returns (b: bool)
    ensures b == DeclaredFrom(d.children, 0)
  {
    var i := 0;
    while i < |d.children|
      invariant i <= |d.children| && DeclaredFrom(d.children, i) == DeclaredFrom(d.children, 0)
    {
      if d.children[i].kind == Declaration {
        return true;
      }
      if d.children[i].kind == Element {
        return false;
      }
      i := i + 1;
    }
    return false;
  }

  const VERSION: string := " version=\"1.0\""
  const LATIN: string := " encoding=\"ISO-8859-1\""

  /** What stands behind the name of the declaration that is written by default. */
  function DefaultDeclaration(encoding: XmlUtf8.Encoding): string {
    if encoding.Latin1? then VERSION + LATIN else VERSION
  }

  function DeclarationOf(flags: SaveFlags, encoding: XmlUtf8.Encoding, d: Tree): Option<string> {
    if flags.noDeclaration || DeclaredFrom(d.children, 0) then None else Some(DefaultDeclaration(encoding))
  }

  predicate WithBom(flags: SaveFlags, encoding: XmlUtf8.Encoding) {
    flags.bom && !encoding.Latin1?
  }

  /** The text of a saved document. */
  function SavedText(flags: SaveFlags, encoding: XmlUtf8.Encoding, d: Tree): string {
    Written(WithBom(flags, encoding), DeclarationOf(flags, encoding, d), Print(flags.singleQuote, d))
  }

  const MARK: string := [0xEF as char, 0xBB as char, 0xBF as char]

  /** What is saved: the mark and the declaration as far as they are asked for, and then the document. */
  lemma SavedExactly(flags: SaveFlags, encoding: XmlUtf8.Encoding, d: Tree)
    ensures SavedText(flags, encoding, d) ==
              (if flags.bom && encoding != XmlUtf8.Latin1 then MARK else "")
              + ((if flags.noDeclaration || DeclaredFrom(d.children, 0) then ""
                  else if encoding == XmlUtf8.Latin1 then "<?xml" + (" version=\"1.0\"" + " encoding=\"ISO-8859-1\"") + "?>"
                  else "<?xml" + " version=\"1.0\"" + "?>")
                 + Print(flags.singleQuote, d))
  {
    DeclarationParts(VERSION);
    DeclarationParts(VERSION + LATIN);
  }

  lemma DeclarationParts(w: string)
    ensures "<?" + ("xml" + (w + "?>")) == "<?xml" + w + "?>"
  {
  }

  lemma DeclarationSkips(encoding: XmlUtf8.Encoding)
    ensures Skippable(DefaultDeclaration(encoding))
  {
    XmlSimpleBack.NoMark(VERSION);
    XmlSimpleBack.NoMark(LATIN);
    JoinText(VERSION, LATIN);
    XmlSimpleBack.UnbrokenJoin(VERSION, LATIN);
  }

  // ------------------------------------------------------------------ what is written

  lemma DeclarationText(was: string, latin1: bool, start: string, middle: string)
    requires start == "<?xml" + VERSION && middle == if latin1 then LATIN else ""
    ensures was + start + middle + "?>" == was + ("<?" + ("xml" + ((VERSION + middle) + "?>")))
  {
    assert start == "<?" + ("xml" + VERSION);
  }

  /** The declaration that is written by default, in its pieces. */
  method WriteDeclaration(w: XmlWriter.BufferedWriter)
    requires w.Valid()
    modifies w`sink, w`bufsize, w`written, w`clean, w.buffer
    ensures w.Valid() && w.written == old(w.written) + Prolog(Some(DefaultDeclaration(w.encoding))) && (old(w.clean) ==> w.clean)
  {
    ghost var was := w.written;
    var start, middle := "<?xml" + VERSION, "";
    w.WriteString(start);
    if w.encoding.Latin1? {
      middle := LATIN;
      w.WriteString(LATIN);
    }
    assert w.written == was + start + middle;
    w.Write("?>");
    DeclarationText(was, w.encoding.Latin1?, start, middle);
    assert VERSION + middle == DefaultDeclaration(w.encoding);
  }

  /** The byte order mark and the declaration, as far as they are wanted. */
  function HeadText(bom: bool, w: Option<string>): string {
    (if bom then BOM else "") + Prolog(w)
  }

  method WriteBom(bom: bool, w: XmlWriter.BufferedWriter)
    requires w.Valid() && w.written == "" && w.clean
    modifies w`sink, w`bufsize, w`written, w`clean, w.buffer
    ensures w.Valid() && w.clean && w.written == if bom then BOM else ""
  {
    if bom {
      w.Write(BOM);
      assert "" + BOM == BOM;
    }
  }

  method WriteHead(flags: SaveFlags, w: XmlWriter.BufferedWriter, d: Tree)
    requires w.Valid() && w.written == "" && w.clean
    modifies w`sink, w`bufsize, w`written, w`clean, w.buffer
    ensures w.Valid() && w.clean && w.written == HeadText(WithBom(flags, w.encoding), DeclarationOf(flags, w.encoding, d))
  {
    WriteBom(flags.bom && !w.encoding.Latin1?, w);
    ghost var head := w.written;
    var declared := HasDeclaration(d);
    if !flags.noDeclaration && !declared {
      WriteDeclaration(w);
    }
    assert head + "" == head;
  }

  lemma HeadAndBody(bom: bool, w: Option<string>, printed: string)
    ensures HeadText(bom, w) + printed == Written(bom, w, printed)
  {
    Regroup(if bom then BOM else "", Prolog(w), printed);
  }

  /** Writes a text behind the head and hands everything to the sink. */
  method WriteBody(w: XmlWriter.BufferedWriter, printed: string)
    requires w.Valid() && w.clean
    modifies w`sink, w`bufsize, w`written, w`clean, w.buffer
    ensures XmlWriter.Begins(w.encoding, printed) ==> w.sink == XmlUtf8.Encoded(w.encoding, old(w.written) + printed)
  {
    w.WriteString(printed);
    w.Flush();
  }

  /** `xml_document::save`: what the sink receives is the encoded text. */
  method Save(flags: SaveFlags, encoding: XmlUtf8.Encoding, d: Tree) returns (sink: seq<nat>)
    ensures XmlWriter.Begins(encoding, Print(flags.singleQuote, d)) ==> sink == XmlUtf8.Encoded(encoding, SavedText(flags, encoding, d))
  {
    var w := new XmlWriter.BufferedWriter(encoding);
    WriteHead(flags, w, d);
    var printed := NodeOutput(flags.singleQuote, d);
    HeadAndBody(WithBom(flags, encoding), DeclarationOf(flags, encoding, d), printed);
    WriteBody(w, printed);
    sink := w.sink;
  }

  // -------------------------------------------------------------------------- loading

  /** `get_mutable_buffer`: a copy with a terminator. */
  method CopyBuffer(data: seq<nat>) returns (buffer: array<char>)
    requires forall i | 0 <= i < |data| :: data[i] < 256
    ensures fresh(buffer) && buffer.Length == |data| + 1
    ensures XmlTranscode.Filled(buffer[..], data) && buffer[buffer.Length - 1] == '\0'
  {
    buffer := new char[|data| + 1];
    for i := 0 to |data|
      invariant forall k | 0 <= k < i :: buffer[k] as nat == data[k]
    {
      buffer[i] := data[i] as char;
    }
    buffer[|data|] := '\0';
  }

  /** The text in which an input is parsed. */
  function LoadedText(encoding: XmlUtf8.Encoding, data: seq<nat>): seq<nat> {
    if encoding.Native? then data else XmlTranscode.Transcoded(encoding, data)
  }

  /** `convert_buffer` */
  method ConvertBuffer(encoding: XmlUtf8.Encoding, data: seq<nat>) returns (buffer: array<char>)
    requires XmlTranscode.Wide(encoding, data)
    ensures fresh(buffer) && buffer.Length == |LoadedText(encoding, data)| + 1
    ensures XmlTranscode.Filled(buffer[..], LoadedText(encoding, data)) && buffer[buffer.Length - 1] == '\0'
  {
    if encoding.Native? {
      buffer := CopyBuffer(data);
    } else {
      buffer := XmlTranscode.ConvertBufferGeneric(encoding, data);
    }
  }

  lemma FilledText(buffer: string, text: string)
    requires |buffer| == |text| + 1 && XmlTranscode.Filled(buffer, XmlUtf8.AsBytes(text)) && buffer[|text|] == '\0'
    ensures buffer == text + "\0" && buffer[..|buffer| - 1] == text
  {
  }

  /** `load_buffer` on an input that stands for a text without terminators. */
  method Load(encoding: XmlUtf8.Encoding, data: seq<nat>, ghost text: string) returns (r: XmlInPlace.RawParsed, buffer: array<char>)
    requires XmlTranscode.Wide(encoding, data) && LoadedText(encoding, data) == XmlUtf8.AsBytes(text) && IsText(text)
    ensures fresh(buffer)
    ensures (text + "\0")[..|text|] == text
    ensures XmlInPlace.HoldsParsed(buffer[..], r, ParseDocument(text + "\0"))
  {
    buffer := ConvertBuffer(encoding, data);
    FilledText(buffer[..], text);
    assert buffer[..buffer.Length - 1] == text;
    r := XmlInPlace.ParseInPlace(buffer);
  }

  // ------------------------------------------------------------------ there and back

  lemma {:induction false} WideBy(w: XmlUtf8.Writer, u: XmlUtf8.Decoder, n: nat, i: nat, e: XmlUtf8.Encoding)
    requires XmlUtf8.Decodes(u, n) && i <= n && forall j: nat | j < n :: XmlTranscode.Wide(e, w(u(j).point))
    ensures XmlTranscode.Wide(e, XmlUtf8.UnitsBy(w, u, n, i))
    decreases n - i
  {
    if i < n {
      WideBy(w, u, n, i + u(i).length, e);
    }
  }

  lemma PointSize(s: string, j: nat)
    requires j < |s| && s[j] as nat < 256
    ensures match XmlUtf8.UnitAt(s, j).point
            case Low(ch) => ch < 0x10000
            case High(ch) => 0x10000 <= ch < 0x20_0000 || ch < 0x10000
            case Invalid => true
  {
  }

  lemma SurrogatesWide(ch: nat)
    requires ch < 0x20_0000
    ensures var w := XmlUtf8.Surrogates(ch); w[0] < 0x10000 && w[1] < 0x10000
  {
  }

  lemma UnitsWide(e: XmlUtf8.Encoding, p: XmlUtf8.Point)
    requires match p case Low(ch) => ch < 0x10000 case High(ch) => ch < 0x20_0000 case Invalid => true
    ensures XmlTranscode.Wide(e, XmlUtf8.UnitsOf(e, p))
  {
    if !p.Invalid? {
      if e.Utf16? && p.High? {
        var w := XmlUtf8.Surrogates(p.ch);
        SurrogatesWide(p.ch);
        XmlTranscode.Swapped(w[0]);
        XmlTranscode.Swapped(w[1]);
      } else if e.Utf16? {
        XmlTranscode.Swapped(p.ch);
      } else if e.Utf32? {
        XmlTranscode.SwappedWide(p.ch);
      }
    }
  }

  /** What is written fits the type of its units. */
  lemma EncodedWide(e: XmlUtf8.Encoding, s: string)
    requires IsText(s)
    ensures XmlTranscode.Wide(e, XmlUtf8.Encoded(e, s))
  {
    if !e.Native? {
      XmlUtf8.DecodingDecodes(s);
      forall j: nat | j < |s| ensures XmlTranscode.Wide(e, XmlUtf8.Writing(e)(XmlUtf8.Decoding(s)(j).point)) {
        PointSize(s, j);
        UnitsWide(e, XmlUtf8.UnitAt(s, j).point);
      }
      WideBy(XmlUtf8.Writing(e), XmlUtf8.Decoding(s), |s|, 0, e);
    }
  }

  /** The encoding can hold the text, which stands for these code points; UTF-8 is kept as it is. */
  ghost predicate Carries(encoding: XmlUtf8.Encoding, text: string, points: seq<nat>) {
    encoding.Native? || (XmlTranscode.AreCodePoints(points) && XmlTranscode.HasAll(encoding, points) && text == XmlUtf8.Utf8All(points))
  }

  /** What was encoded is read as the text that it was. */
  lemma LoadsBack(encoding: XmlUtf8.Encoding, text: string, points: seq<nat>)
    requires Carries(encoding, text, points)
    ensures LoadedText(encoding, XmlUtf8.Encoded(encoding, text)) == XmlUtf8.AsBytes(text)
  {
    if !encoding.Native? {
      XmlTranscode.ThereAndBack(encoding, points);
    }
  }

  predicate AllTexts(nodes: seq<Tree>) {
    forall i | 0 <= i < |nodes| :: XmlInPlace.AllText(nodes[i])
  }

  lemma ElementText(t: Tree, children: seq<Tree>)
    requires Good(t) && t.kind == Element && AllTexts(children)
    ensures XmlInPlace.AllText(t.(children := children))
  {
    forall i | 0 <= i < |t.attrs| ensures IsText(t.attrs[i].name) && IsText(t.attrs[i].value) {
      assert GoodAttribute(t.attrs[i]);
    }
  }

  lemma {:induction false} ShownText(t: Tree)
    requires Good(t)
    ensures AllTexts(Shown(t))
    decreases t, |t.children| + 1
  {
    if t.kind == Element {
      ShownFromText(t, 0);
      ElementText(t, ShownFrom(t, 0));
    } else if t.kind == CData {
      PiecesText(t.value, 0);
    }
  }

  lemma {:induction false} ShownFromText(t: Tree, i: nat)
    requires i <= |t.children| && forall k | 0 <= k < |t.children| :: Good(t.children[k])
    ensures AllTexts(ShownFrom(t, i))
    decreases t, |t.children| - i
  {
    if i < |t.children| {
      ShownText(t.children[i]);
      ShownFromText(t, i + 1);
    }
  }

  lemma {:induction false} TopShownText(d: Tree, i: nat)
    requires GoodDocument(d) && i <= |d.children|
    ensures AllTexts(ShownFrom(d, i))
    decreases |d.children| - i
  {
    if i < |d.children| {
      assert GoodTop(d.children[i]);
      if Good(d.children[i]) {
        ShownText(d.children[i]);
      }
      TopShownText(d, i + 1);
    }
  }

  lemma {:induction false} PiecesText(v: string, i: nat)
    requires IsText(v) && i <= |v|
    ensures AllTexts(XmlSimpleBack.SectionNodes(XmlSimple.Pieces(v, i)))
    decreases |v| - i
  {
    XmlSimple.PiecesFrom(v, i);
    var e, p := XmlSimple.PieceEnd(v, i), XmlSimple.Pieces(v, i);
    if e < |v| {
      PiecesText(v, e);
    }
    SectionsText(p);
  }

  lemma SectionsText(p: seq<string>)
    requires p != [] && IsText(p[0]) && AllTexts(XmlSimpleBack.SectionNodes(p[1..]))
    ensures AllTexts(XmlSimpleBack.SectionNodes(p))
  {
    var all, more := XmlSimpleBack.SectionNodes(p), XmlSimpleBack.SectionNodes(p[1..]);
    forall k | 0 <= k < |all| ensures XmlInPlace.AllText(all[k]) {
      assert k > 0 ==> all[k] == more[k - 1];
    }
  }

  /** The nodes that a document is parsed to are read from the buffer. */
  lemma NodesBack(d: Tree, buffer: string, r: XmlInPlace.RawParsed)
    requires GoodDocument(d) && XmlInPlace.HoldsParsed(buffer, r, Ok(ShownFrom(d, 0)))
    ensures r.Ok? && XmlInPlace.TreesAt(buffer, r.value) == ShownFrom(d, 0)
  {
    TopShownText(d, 0);
    XmlInPlace.TreesBack(buffer, r.value, ShownFrom(d, 0));
  }

  lemma SavedReads(flags: SaveFlags, encoding: XmlUtf8.Encoding, d: Tree)
    requires GoodDocument(d)
    ensures var text := SavedText(flags, encoding, d);
            && IsText(text) && (text + "\0")[..|text|] == text && ParseDocument(text + "\0") == Ok(ShownFrom(d, 0))
  {
    DeclarationSkips(encoding);
    BufferReads(flags.singleQuote, d, WithBom(flags, encoding), DeclarationOf(flags, encoding, d), false);
    var text := SavedText(flags, encoding, d);
    assert (text + "\0")[..|text|] == text;
  }

  lemma PrintBegins(flags: SaveFlags, encoding: XmlUtf8.Encoding, d: Tree)
    requires GoodDocument(d)
    ensures XmlWriter.Begins(encoding, Print(flags.singleQuote, d))
  {
    var p := ThePrinter(flags.singleQuote);
    ThePrinterPrints(flags.singleQuote);
    PrintIs(p, flags.singleQuote, d);
  }

  /**
   A document that is saved in any encoding, with or without a byte order mark and a declaration, and loaded again,
   is what it shows: the nodes in the buffer of the parser have the same names, attributes, values and order.
   */
  method SaveThenLoad(flags: SaveFlags, encoding: XmlUtf8.Encoding, d: Tree, ghost points: seq<nat>)
    returns (r: XmlInPlace.RawParsed, buffer: array<char>)
    requires GoodDocument(d) && Carries(encoding, SavedText(flags, encoding, d), points)
    ensures r.Ok? && XmlInPlace.TreesAt(buffer[..], r.value) == ShownFrom(d, 0)
  {
    ghost var text := SavedText(flags, encoding, d);
    SavedReads(flags, encoding, d);
    PrintBegins(flags, encoding, d);
    EncodedWide(encoding, text);
    LoadsBack(encoding, text, points);
    var sink := Save(flags, encoding, d);
    r, buffer := Load(encoding, sink, text);
    NodesBack(d, buffer[..], r);
  }
}
