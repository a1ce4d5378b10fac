/**
 What the node tests of location steps select (section 2.3 of XPath 1.0), told by the
 kinds and names of the nodes on the axis.
 */
module XPathTests {
  import opened XmlTree
  import opened XPathOrder
  import opened XPathAxes
  import opened XPathStep
  import opened XPathFill

  /** A step without predicates from x selects y. */
  ghost predicate Selects(t: Tree, axis: Axis, test: Test, arg: string, x: XNode, y: XNode) {
    y in StepNodes(t, axis, Filter(test, arg, false), x)
  }

  /** `node()` selects every tree node of the axis. */
  lemma NodeTest(t: Tree, axis: Axis, arg: string, x: XNode, q: Path)
    requires ValidNode(t, x)
    ensures Selects(t, axis, TestNode, arg, x, Node(q)) <==> Valid(t, q) && OnAxisOf(axis, x, Node(q))
  {
    StepNodesMeaning(t, axis, Filter(TestNode, arg, false), x);
  }

  lemma HitsPass(t: Tree, axis: Axis, test: Test, arg: string, s: seq<XNode>, q: Path)
    ensures Node(q) in HitsFrom(t, axis, Filter(test, arg, false), s, 0)
       <==> Node(q) in HitsFrom(t, axis, Filter(TestNode, "", false), s, 0) && Valid(t, q) && Passes(t, test, arg, q)
  {
    HitsMeaning(t, axis, Filter(test, arg, false), s, 0);
    HitsMeaning(t, axis, Filter(TestNode, "", false), s, 0);
    assert s[0..] == s;
  }

  /** A step with the test `node()` selects tree node q. */
  ghost predicate SelectsNode(t: Tree, axis: Axis, x: XNode, q: Path) {
    Selects(t, axis, TestNode, "", x, Node(q)) && Valid(t, q)
  }

  /** `*` selects the elements among them. */
  lemma StarTest(t: Tree, axis: Axis, arg: string, x: XNode, q: Path)
    ensures Selects(t, axis, TestAll, arg, x, Node(q)) <==> SelectsNode(t, axis, x, q) && Sub(t, q).kind == Element
  {
    HitsPass(t, axis, TestAll, arg, AxisOf(t, axis, x), q);
  }

  /** `text()` selects the character data and the CDATA sections. */
  lemma TextTest(t: Tree, axis: Axis, arg: string, x: XNode, q: Path)
    ensures Selects(t, axis, TestText, arg, x, Node(q)) <==> SelectsNode(t, axis, x, q) && (Sub(t, q).kind == PcData || Sub(t, q).kind == CData)
  {
    HitsPass(t, axis, TestText, arg, AxisOf(t, axis, x), q);
  }

  lemma CommentTest(t: Tree, axis: Axis, arg: string, x: XNode, q: Path)
    ensures Selects(t, axis, TestComment, arg, x, Node(q)) <==> SelectsNode(t, axis, x, q) && Sub(t, q).kind == Comment
  {
    HitsPass(t, axis, TestComment, arg, AxisOf(t, axis, x), q);
  }

  lemma InstructionTest(t: Tree, axis: Axis, arg: string, x: XNode, q: Path)
    ensures Selects(t, axis, TestPi, arg, x, Node(q)) <==> SelectsNode(t, axis, x, q) && Sub(t, q).kind == Pi
  {
    HitsPass(t, axis, TestPi, arg, AxisOf(t, axis, x), q);
  }

  /** A name selects the elements of that name; what has no name has none to match. */
  lemma NameTest(t: Tree, axis: Axis, arg: string, x: XNode, q: Path)
    ensures Selects(t, axis, TestName, arg, x, Node(q)) <==> SelectsNode(t, axis, x, q) && Sub(t, q).kind == Element && Sub(t, q).name == arg != ""
  {
    HitsPass(t, axis, TestName, arg, AxisOf(t, axis, x), q);
  }

  lemma TargetTest(t: Tree, axis: Axis, arg: string, x: XNode, q: Path)
    ensures Selects(t, axis, TestPiName, arg, x, Node(q)) <==> SelectsNode(t, axis, x, q) && Sub(t, q).kind == Pi && Sub(t, q).name == arg != ""
  {
    HitsPass(t, axis, TestPiName, arg, AxisOf(t, axis, x), q);
  }

  /** `prefix:*` selects the elements whose name begins with the prefix, which the query keeps with its colon. */
  lemma PrefixTest(t: Tree, axis: Axis, arg: string, x: XNode, q: Path)
    ensures Selects(t, axis, TestNamespace, arg, x, Node(q)) <==> SelectsNode(t, axis, x, q) && Sub(t, q).kind == Element && Sub(t, q).name != "" && arg <= Sub(t, q).name
  {
    HitsPass(t, axis, TestNamespace, arg, AxisOf(t, axis, x), q);
  }

  const KIND_TESTS: set<Test> := {TestAll, TestText, TestComment, TestPi}

  /**
   Every node on an axis other than the document, declarations and document types is
   selected by exactly one of `*`, `text()`, `comment()` and `processing-instruction()`,
   and those three by none.
   */
  lemma TestsPartition(t: Tree, axis: Axis, x: XNode, q: Path)
    requires SelectsNode(t, axis, x, q)
    ensures var own := Picking(a => Selects(t, axis, a, "", x, Node(q)));
            |own| == if Sub(t, q).kind in {Document, Declaration, Doctype} then 0 else 1
  {
    var own := Picking(a => Selects(t, axis, a, "", x, Node(q)));
    var k := KindTest(Sub(t, q).kind);
    forall a | a in KIND_TESTS ensures a in own <==> a == k {
      OneTest(t, axis, x, q, a);
    }
    OneOrNone(Sub(t, q).kind, own);
  }

  lemma OneOrNone(kind: NodeKind, own: set<Test>)
    requires own <= KIND_TESTS && forall a | a in KIND_TESTS :: a in own <==> a == KindTest(kind)
    ensures |own| == if kind in {Document, Declaration, Doctype} then 0 else 1
  {
    var k := KindTest(kind);
    assert own == if k in KIND_TESTS then {k} else {};
  }

  /** Those of the four tests for which picks holds. */
  ghost function Picking(picks: Test -> bool): set<Test> {
    set a | a in KIND_TESTS && picks(a)
  }

  lemma OneTest(t: Tree, axis: Axis, x: XNode, q: Path, test: Test)
    requires SelectsNode(t, axis, x, q) && test in KIND_TESTS
    ensures Selects(t, axis, test, "", x, Node(q)) <==> test == KindTest(Sub(t, q).kind)
  {
    HitsPass(t, axis, test, "", AxisOf(t, axis, x), q);
  }

  function KindTest(kind: NodeKind): Test {
    match kind
    case Element => TestAll
    case PcData => TestText
    case CData => TestText
    case Comment => TestComment
    case Pi => TestPi
    case _ => TestNode
  }

  /** A namespace declaration, which is no attribute for XPath. */
  predicate DeclaresNamespace(name: string) {
    name == "xmlns" || "xmlns:" <= name
  }

  lemma XPathAttributes(name: string)
    ensures IsXPathAttribute(name) <==> !DeclaresNamespace(name)
  {
    if "xmlns" <= name && |name| > 5 {
      assert "xmlns:"[..5] == "xmlns" && "xmlns:"[5] == ':';
      assert name[..6] == name[..5] + [name[5]];
    }
  }

  /**
   On the attribute axis `*` and `node()` select all attributes but namespace declarations,
   a name and a prefix those among them that have it, and other tests nothing.
   */
  lemma AttributeTests(t: Tree, arg: string, p: Path, i: nat)
    requires Valid(t, p) && i < |Sub(t, p).attrs|
    ensures var name, y := Sub(t, p).attrs[i].name, Attribute(p, i);
            && (forall test | test in {TestAll, TestNode} ::
                  Selects(t, AttributeAxis, test, arg, Node(p), y) <==> !DeclaresNamespace(name))
            && (Selects(t, AttributeAxis, TestName, arg, Node(p), y) <==> name == arg && !DeclaresNamespace(name))
            && (Selects(t, AttributeAxis, TestNamespace, arg, Node(p), y) <==> arg <= name && !DeclaresNamespace(name))
            && (forall test | test in {TestText, TestComment, TestPi, TestPiName} ::
                  !Selects(t, AttributeAxis, test, arg, Node(p), y))
  {
    XPathAttributes(Sub(t, p).attrs[i].name);
    forall test: Test
      ensures Selects(t, AttributeAxis, test, arg, Node(p), Attribute(p, i)) <==>
                PassesAttribute(test, arg, Sub(t, p).attrs[i].name)
    {
      StepNodesMeaning(t, AttributeAxis, Filter(test, arg, false), Node(p));
    }
  }

  /** On its own axes an attribute is selected by `node()` alone. */
  lemma OwnAttributeTests(t: Tree, axis: Axis, test: Test, arg: string, y: XNode)
    requires ValidNode(t, y) && y.Attribute? && axis in {Self, AncestorOrSelf, DescendantOrSelf}
    ensures Selects(t, axis, test, arg, y, y) <==>
              test == TestNode && !DeclaresNamespace(Sub(t, y.owner).attrs[y.index].name)
  {
    StepNodesMeaning(t, axis, Filter(test, arg, false), y);
    XPathAttributes(Sub(t, y.owner).attrs[y.index].name);
  }

  /** The namespace axis is empty, and so is every axis of no node. */
  lemma EmptyAxes(t: Tree, axis: Axis, test: Test, arg: string, x: XNode)
    requires ValidNode(t, x) && (axis == Namespace || x.Nothing?)
    ensures forall y :: !Selects(t, axis, test, arg, x, y)
  {
    StepNodesMeaning(t, axis, Filter(test, arg, false), x);
  }
}
