/** Concrete documents, worked through the model. */
module Scenarios {
  import opened Wrappers
  import opened Dom
  import opened Scan
  import opened PageOverflow

  /** A visible block element. */
  function Block(bottom: real, html: string, children: seq<Element>): Element {
    Element("block", "1", "visible", true, bottom, html, children)
  }

  /** A section holding a paragraph that runs past the body's bottom edge: the
      deepest-match policy reports only the paragraph, the first-match policy
      only the section, its outermost overflowing ancestor below the body. */
  lemma SectionWithOverflowingParagraph()
    ensures var p := Block(900.0, "<p>x</p>", []);
      var section := Block(900.0, "<section><p>x</p></section>", [p]);
      var body := Block(720.0, "<body></body>", [section]);
      var root := Block(900.0, "<html></html>", [body]);
      DeepestOverflow(Descendants(root), 720.0) == [p]
      && FirstOverflow(Descendants(root), 720.0) == [section]
  {
    var p := Block(900.0, "<p>x</p>", []);
    var section := Block(900.0, "<section><p>x</p></section>", [p]);
    var body := Block(720.0, "<body></body>", [section]);
    var root := Block(900.0, "<html></html>", [body]);
    assert Preorder(p) == [p];
    assert PreorderForest([p]) == Preorder(p) + PreorderForest([]);
    assert Preorder(section) == [section, p];
    assert PreorderForest([section]) == Preorder(section) + PreorderForest([]);
    assert Preorder(body) == [body, section, p];
    assert PreorderForest([body]) == Preorder(body) + PreorderForest([]);
    assert Descendants(root) == [body, section, p];
    assert HasOverflowingDescendant(section, 720.0) by { assert p in Descendants(section); }
    assert !HasOverflowingDescendant(p, 720.0);
    assert DeepestOverflow([p], 720.0) == [p];
    assert [section, p][1..] == [p];
    assert DeepestOverflow([section, p], 720.0) == [p];
    assert [body, section, p][1..] == [section, p];
  }

  /** The height test and the scan are independent: a document can be taller
      than the boundary while no element is reported, here because the only
      element below the body's bottom edge is fully transparent. */
  lemma OverflowWithNothingReported()
    ensures var hidden := Element("block", "0", "visible", true, 800.0, "<div></div>", []);
      var body := Block(720.0, "<body></body>", [hidden]);
      var doc := Rendered(Block(800.0, "<html></html>", [body]), Some(body), None, 800);
      ExpectedReport(doc, Boundary(1280.0, 720.0), false)
        == OverflowReport(true, Some(OverflowDetails(800, [])))
  {
    var hidden := Element("block", "0", "visible", true, 800.0, "<div></div>", []);
    var body := Block(720.0, "<body></body>", [hidden]);
    var root := Block(800.0, "<html></html>", [body]);
    assert Preorder(hidden) == [hidden];
    assert PreorderForest([hidden]) == Preorder(hidden) + PreorderForest([]);
    assert Preorder(body) == [body, hidden];
    assert PreorderForest([body]) == Preorder(body) + PreorderForest([]);
    assert Descendants(root) == [body, hidden];
    assert [body, hidden][1..] == [hidden];
    assert IsHidden(hidden);
    assert [hidden][1..] == [];
    assert FirstOverflow([hidden], 720.0) == [];
    assert FirstOverflow(Descendants(root), 720.0) == [];
  }
}
