/** Raw printing: `node_output` with `format_raw`. */
module XmlPrint {
  import opened Wrappers
  import opened XmlTree
  import opened XmlChars
  import XmlSimple

  // ------------------------------------------------------------------ what is printed

  /** A missing name is printed as a placeholder. */
  function NameText(name: string): string {
    if name == "" then ":anonymous" else name
  }

  function AttributeText(singleQuote: bool, a: Attr): string {
    Quoted(NameText(a.name), Quote(singleQuote), Escaped(InAttribute, singleQuote, a.value))
  }

  function Quoted(name: string, quote: char, value: string): string {
    [' '] + (name + (['='] + ([quote] + (value + [quote]))))
  }

  function AttributesText(singleQuote: bool, attrs: seq<Attr>, i: nat): string
    requires i <= |attrs|
    decreases |attrs| - i
  {
    if i == |attrs| then [] else AttributeText(singleQuote, attrs[i]) + AttributesText(singleQuote, attrs, i + 1)
  }

  function EndText(name: string): string {
    ['<'] + (['/'] + (name + ['>']))
  }

  function EndTag(t: Tree): string {
    EndText(NameText(t.name))
  }

  /** `node_output_start`: the start tag, or the whole element when it has no children. */
  function StartText(singleQuote: bool, t: Tree): string {
    ['<'] + (NameText(t.name) + (AttributesText(singleQuote, t.attrs, 0) + StartTail(singleQuote, t)))
  }

  /** What stands behind the attributes; elements read with the option to embed character data have a value. */
  function StartTail(singleQuote: bool, t: Tree): string {
    if t.value == "" then (if t.children == [] then "/>" else ">")
    else ">" + (Escaped(InContent, singleQuote, t.value) + (if t.children == [] then EndTag(t) else ""))
  }

  /** `node_output_simple`: a node without regard to children. */
  function SimpleText(singleQuote: bool, t: Tree): string
    requires t.kind != Document && t.kind != Element
  {
    match t.kind
    case PcData => Escaped(InContent, singleQuote, t.value)
    case CData => XmlSimple.SectionsText(XmlSimple.Pieces(t.value, 0))
    case Comment => XmlSimple.CommentText(t.value)
    case Pi => XmlSimple.PiText(NameText(t.name), t.value)
    case Declaration => "<?" + (NameText(t.name) + (AttributesText(singleQuote, t.attrs, 0) + "?>"))
    case Doctype => "<!DOCTYPE" + ((if t.value == "" then "" else " " + t.value) + ">")
  }

  /** What stands before the children of a node. */
  function Opening(singleQuote: bool, t: Tree): string {
    match t.kind
    case Document => ""
    case Element => StartText(singleQuote, t)
    case _ => SimpleText(singleQuote, t)
  }

  /** What stands behind the children of a node. */
  function Closing(t: Tree): string {
    if t.kind == Element then EndTag(t) else ""
  }

  /** Other nodes are printed without looking at children. */
  predicate Descends(t: Tree) {
    (t.kind == Document || t.kind == Element) && t.children != []
  }

  function Print(singleQuote: bool, t: Tree): string
    decreases t, |t.children| + 1
  {
    Opening(singleQuote, t) + if Descends(t) then PrintFrom(singleQuote, t, 0) + Closing(t) else ""
  }

  /** The children from number i on. */
  function PrintFrom(singleQuote: bool, t: Tree, i: nat): string
    requires i <= |t.children|
    decreases t, |t.children| - i
  {
    if i == |t.children| then [] else Print(singleQuote, t.children[i]) + PrintFrom(singleQuote, t, i + 1)
  }

  // ------------------------------------------------------------------- the tree walk

  /** What is still to be printed once the node at p is finished. */
  function After(singleQuote: bool, t: Tree, p: Path): string
    requires Valid(t, p)
    decreases |p|, 0
  {
    if p == [] then []
    else
      ValidPrefix(t, p, |p| - 1);
      Onward(singleQuote, t, p[..|p| - 1], LastIndex(p) + 1)
  }

  /** What is still to be printed from child number i of a node on. */
  function Onward(singleQuote: bool, t: Tree, up: Path, i: nat): string
    requires Valid(t, up) && i <= |Sub(t, up).children|
    decreases |up|, 1
  {
    PrintFrom(singleQuote, Sub(t, up), i) + (Closing(Sub(t, up)) + After(singleQuote, t, up))
  }

  /** How many nodes are not printed yet once the node at p is finished. */
  function Left(t: Tree, p: Path): nat
    requires Valid(t, p)
    decreases |p|
  {
    if p == [] then 0
    else
      var up := p[..|p| - 1];
      ValidPrefix(t, p, |p| - 1);
      NodesFrom(Sub(t, up), LastIndex(p) + 1) + Left(t, up)
  }

  function Nodes(t: Tree): nat
    decreases t, |t.children| + 1
  {
    1 + NodesFrom(t, 0)
  }

  function NodesFrom(t: Tree, i: nat): nat
    requires i <= |t.children|
    decreases t, |t.children| - i
  {
    if i == |t.children| then 0 else Nodes(t.children[i]) + NodesFrom(t, i + 1)
  }

  /** What is still to be printed when the node at p is next. */
  function Rest(singleQuote: bool, t: Tree, p: Path): string
    requires Valid(t, p)
  {
    Print(singleQuote, Sub(t, p)) + After(singleQuote, t, p)
  }

  function NodesRest(t: Tree, p: Path): nat
    requires Valid(t, p)
  {
    Nodes(Sub(t, p)) + Left(t, p)
  }

  lemma AfterChild(singleQuote: bool, t: Tree, up: Path, i: nat)
    requires Valid(t, up) && i < |Sub(t, up).children|
    ensures Valid(t, up + [i]) && Sub(t, up + [i]) == Sub(t, up).children[i]
    ensures After(singleQuote, t, up + [i]) == Onward(singleQuote, t, up, i + 1)
    ensures Left(t, up + [i]) == NodesFrom(Sub(t, up), i + 1) + Left(t, up)
  {
    ValidChild(t, up, i);
    assert (up + [i])[..|up|] == up && LastIndex(up + [i]) == i;
    AfterIs(singleQuote, t, up + [i]);
  }

  /** The children from number i on and what follows them. */
  lemma OneChild(singleQuote: bool, t: Tree, up: Path, i: nat)
    requires Valid(t, up) && i < |Sub(t, up).children|
    ensures Valid(t, up + [i]) && Onward(singleQuote, t, up, i) == Rest(singleQuote, t, up + [i])
    ensures NodesFrom(Sub(t, up), i) + Left(t, up) == NodesRest(t, up + [i])
  {
    AfterChild(singleQuote, t, up, i);
    var u := Sub(t, up);
    Regroup(Print(singleQuote, u.children[i]), PrintFrom(singleQuote, u, i + 1), Closing(u) + After(singleQuote, t, up));
  }

  /** Into the first child. */
  lemma GoDown(singleQuote: bool, t: Tree, p: Path)
    requires Valid(t, p) && Descends(Sub(t, p))
    ensures Valid(t, p + [0])
    ensures Rest(singleQuote, t, p) == Opening(singleQuote, Sub(t, p)) + Rest(singleQuote, t, p + [0])
    ensures NodesRest(t, p + [0]) < NodesRest(t, p)
  {
    OneChild(singleQuote, t, p, 0);
    var u := Sub(t, p);
    FourParts(Opening(singleQuote, u), PrintFrom(singleQuote, u, 0), Closing(u), After(singleQuote, t, p));
  }

  lemma FourParts(a: string, b: string, c: string, d: string)
    ensures (a + (b + c)) + d == a + (b + (c + d))
  {
  }

  /** A node that is printed in one piece. */
  lemma Whole(singleQuote: bool, t: Tree, p: Path)
    requires Valid(t, p) && !Descends(Sub(t, p))
    ensures Rest(singleQuote, t, p) == Opening(singleQuote, Sub(t, p)) + After(singleQuote, t, p)
    ensures Left(t, p) < NodesRest(t, p)
  {
    assert Opening(singleQuote, Sub(t, p)) + "" == Opening(singleQuote, Sub(t, p));
  }

  lemma AfterIs(singleQuote: bool, t: Tree, p: Path)
    requires Valid(t, p) && p != []
    ensures var up, i := p[..|p| - 1], LastIndex(p);
            && Valid(t, up) && i < |Sub(t, up).children|
            && After(singleQuote, t, p) == Onward(singleQuote, t, up, i + 1)
            && Left(t, p) == NodesFrom(Sub(t, up), i + 1) + Left(t, up)
  {
    ValidPrefix(t, p, |p| - 1);
  }

  /** On to the next sibling. */
  lemma GoOn(singleQuote: bool, t: Tree, p: Path)
    requires Valid(t, p) && NextSibling(t, p).Some?
    ensures var q := NextSibling(t, p).value;
            Valid(t, q) && After(singleQuote, t, p) == Rest(singleQuote, t, q) && NodesRest(t, q) == Left(t, p)
  {
    AfterIs(singleQuote, t, p);
    OneChild(singleQuote, t, p[..|p| - 1], LastIndex(p) + 1);
  }

  /** Behind the last sibling the parent is closed. */
  lemma GoUp(singleQuote: bool, t: Tree, p: Path)
    requires Valid(t, p) && p != [] && NextSibling(t, p).None?
    ensures var up := p[..|p| - 1];
            && Valid(t, up) && After(singleQuote, t, p) == Closing(Sub(t, up)) + After(singleQuote, t, up)
            && Left(t, p) == Left(t, up)
  {
    AfterIs(singleQuote, t, p);
  }

  // --------------------------------------------------------------------- the printer

  method OutputAttribute(singleQuote: bool, a: Attr) returns (output: string)
    ensures output == AttributeText(singleQuote, a)
  {
    var value := TextOutputEscaped(InAttribute, singleQuote, a.value);
    output := Quoted(NameText(a.name), Quote(singleQuote), value);
  }

  /** The first a attributes are written. */
  ghost predicate AttributesSoFar(singleQuote: bool, attrs: seq<Attr>, a: nat, output: string) {
    a <= |attrs| && output + AttributesText(singleQuote, attrs, a) == AttributesText(singleQuote, attrs, 0)
  }

  lemma NextAttribute(singleQuote: bool, attrs: seq<Attr>, a: nat, output: string)
    requires AttributesSoFar(singleQuote, attrs, a, output) && a < |attrs|
    ensures AttributesSoFar(singleQuote, attrs, a + 1, output + AttributeText(singleQuote, attrs[a]))
  {
    Regroup(output, AttributeText(singleQuote, attrs[a]), AttributesText(singleQuote, attrs, a + 1));
  }

  /** `node_output_attributes` */
  method OutputAttributes(singleQuote: bool, attrs: seq<Attr>) returns (output: string)
    ensures output == AttributesText(singleQuote, attrs, 0)
  {
    output := [];
    var a := 0;
    while a < |attrs|
      invariant AttributesSoFar(singleQuote, attrs, a, output)
    {
      var w := OutputAttribute(singleQuote, attrs[a]);
      NextAttribute(singleQuote, attrs, a, output);
      output := output + w;
      a := a + 1;
    }
    assert output + [] == output;
  }

  /** `node_output_start` */
  method OutputStart(singleQuote: bool, t: Tree) returns (output: string)
    ensures output == StartText(singleQuote, t)
  {
    var attributes := OutputAttributes(singleQuote, t.attrs);
    var tail;
    if t.value == "" {
      tail := if t.children == [] then "/>" else ">";
    } else {
      var value := TextOutputEscaped(InContent, singleQuote, t.value);
      tail := ">" + (value + (if t.children == [] then EndTag(t) else ""));
    }
    output := ['<'] + (NameText(t.name) + (attributes + tail));
  }

  /** `node_output_simple` */
  method OutputSimple(singleQuote: bool, t: Tree) returns (output: string)
    requires t.kind != Document && t.kind != Element
    ensures output == SimpleText(singleQuote, t)
  {
    match t.kind {
      case PcData =>
        output := TextOutputEscaped(InContent, singleQuote, t.value);
      case CData =>
        output := XmlSimple.OutputSections(t.value);
      case Comment =>
        var body := XmlSimple.OutputBody(XmlSimple.InComment, t.value);
        output := "<!--" + (body + "-->");
      case Pi =>
        var body := XmlSimple.OutputBody(XmlSimple.InPi, t.value);
        output := "<?" + (NameText(t.name) + ((if t.value == "" then "" else " " + body) + "?>"));
      case Declaration =>
        var attributes := OutputAttributes(singleQuote, t.attrs);
        output := "<?" + (NameText(t.name) + (attributes + "?>"));
      case Doctype =>
        output := "<!DOCTYPE" + ((if t.value == "" then "" else " " + t.value) + ">");
    }
  }

  /** Writes what stands before the children of a node. */
  method OutputOpening(singleQuote: bool, t: Tree) returns (output: string)
    ensures output == Opening(singleQuote, t)
  {
    match t.kind {
      case Document => output := "";
      case Element => output := OutputStart(singleQuote, t);
      case _ => output := OutputSimple(singleQuote, t);
    }
  }

  /** The inner loop of `node_output`: climbs, closing elements, until there is a sibling or the root is done. */
  method CloseUp(singleQuote: bool, t: Tree, from: Path, written: string) returns (output: string, next: Path)
    requires Valid(t, from) && written + After(singleQuote, t, from) == Print(singleQuote, t)
    ensures Valid(t, next)
    ensures next == [] ==> output == Print(singleQuote, t)
    ensures next != [] ==> output + Rest(singleQuote, t, next) == Print(singleQuote, t) && NodesRest(t, next) <= Left(t, from)
  {
    output, next := written, from;
    while next != []
      invariant Valid(t, next) && output + After(singleQuote, t, next) == Print(singleQuote, t) && Left(t, next) == Left(t, from)
      decreases |next|
    {
      var sibling := NextSibling(t, next);
      if sibling.Some? {
        GoOn(singleQuote, t, next);
        next := sibling.value;
        return;
      }
      GoUp(singleQuote, t, next);
      next := next[..|next| - 1];
      // the children are done: the end tag
      Regroup(output, Closing(Sub(t, next)), After(singleQuote, t, next));
      output := output + Closing(Sub(t, next));
    }
    assert output + [] == output;
  }

  /** `node_output` with `format_raw`: walks the tree along its pointers and writes every node. */
  method NodeOutput(singleQuote: bool, t: Tree) returns (output: string)
    ensures output == Print(singleQuote, t)
  {
    output := [];
    var node: Path := [];
    Starts(singleQuote, t);
    while true
      invariant Valid(t, node) && output + Rest(singleQuote, t, node) == Print(singleQuote, t)
      decreases NodesRest(t, node)
    {
      var opening := OutputOpening(singleQuote, Sub(t, node));
      if Descends(Sub(t, node)) {
        GoDown(singleQuote, t, node);
        Regroup(output, opening, Rest(singleQuote, t, node + [0]));
        output := output + opening;
        node := node + [0];
      } else {
        Whole(singleQuote, t, node);
        Regroup(output, opening, After(singleQuote, t, node));
        output, node := CloseUp(singleQuote, t, node, output + opening);
        if node == [] {
          return;
        }
      }
    }
  }

  lemma Starts(singleQuote: bool, t: Tree)
    ensures [] + Rest(singleQuote, t, []) == Print(singleQuote, t)
  {
    assert Print(singleQuote, t) + [] == Print(singleQuote, t);
  }
}
