/** The rendered document as the overflow scan sees it: a tree of element
    snapshots, each carrying the computed style properties the scan reads,
    whether the element has an offset parent, the bottom edge of its bounding
    rectangle, and its serialised markup. The browser's layout is opaque; these
    fields are what its queries answer. */
module Dom {

  datatype Element = Element(
    display: string,
    opacity: string,
    visibility: string,
    hasOffsetParent: bool,
    bottom: real,
    outerHtml: string,
    children: seq<Element>)

  /** Elements that take no visible part in the layout: fully transparent,
      hidden, or without an offset parent (display none, or detached). */
  predicate IsHidden(e: Element) {
    e.opacity == "0" || e.visibility == "hidden" || !e.hasOffsetParent
  }

  /** Elements whose display value starts with "inline" (inline, inline-block,
      inline-flex, ...). */
  predicate IsInline(e: Element) {
    "inline" <= e.display
  }

  /** The filter shared by the scan and the descendant check: a skipped element
      is never reported, but the walk still enters its children. */
  predicate IsSkipped(e: Element) {
    IsHidden(e) || IsInline(e)
  }

  /** An element overflows when it is not skipped and its bottom edge lies
      strictly below the reference bottom. */
  predicate Overflows(e: Element, refBottom: real) {
    !IsSkipped(e) && e.bottom > refBottom
  }

  /** Document order: the element, then the subtrees of its children in order. */
  function Preorder(e: Element): seq<Element>
    decreases e, 1
  {
    [e] + PreorderForest(e.children)
  }

  function PreorderForest(s: seq<Element>): seq<Element>
    decreases s, 0
  {
    if s == [] then [] else Preorder(s[0]) + PreorderForest(s[1..])
  }

  /** The strict descendants of `e` in document order: what a tree walker rooted
      at `e` yields, since its first step already moves past the root. */
  function Descendants(e: Element): seq<Element> {
    PreorderForest(e.children)
  }

  lemma {:induction false} ForestAppend(a: seq<Element>, b: seq<Element>)
    ensures PreorderForest(a + b) == PreorderForest(a) + PreorderForest(b)
    decreases |a|
  {
    if a == [] {
      assert a + b == b;
    } else {
      assert (a + b)[0] == a[0];
      assert (a + b)[1..] == a[1..] + b;
      ForestAppend(a[1..], b);
    }
  }

  /** One step of the walk: visiting the head of the work list replaces it by
      its children, in front of the rest. */
  lemma {:induction false} ForestStep(walked: seq<Element>, pending: seq<Element>)
    requires pending != []
    ensures walked + PreorderForest(pending)
         == (walked + [pending[0]]) + PreorderForest(pending[0].children + pending[1..])
  {
    var head, rest := pending[0], pending[1..];
    var below, after := PreorderForest(head.children), PreorderForest(rest);
    ForestAppend(head.children, rest);
    assert PreorderForest(pending) == Preorder(head) + after;
    assert Preorder(head) == [head] + below;
    assert walked + (([head] + below) + after) == (walked + [head]) + (below + after);
  }

  /** Every element of a subtree's pre-order brings its own whole subtree with
      it, and that subtree is no larger. */
  lemma {:induction false} PreorderNested(e: Element, x: Element)
    requires x in Preorder(e)
    ensures forall y :: y in Preorder(x) ==> y in Preorder(e)
    ensures |Preorder(x)| <= |Preorder(e)|
    decreases e, 1
  {
    if x != e {
      ForestNested(e.children, x);
    }
  }

  lemma {:induction false} ForestNested(s: seq<Element>, x: Element)
    requires x in PreorderForest(s)
    ensures forall y :: y in Preorder(x) ==> y in PreorderForest(s)
    ensures |Preorder(x)| <= |PreorderForest(s)|
    decreases s, 0
  {
    assert s != [];
    if x in Preorder(s[0]) {
      PreorderNested(s[0], x);
    } else {
      ForestNested(s[1..], x);
    }
  }

  /** The descendants of a descendant are descendants, and strictly fewer. */
  lemma DescendantsNested(r: Element, x: Element)
    requires x in Descendants(r)
    ensures forall y :: y in Descendants(x) ==> y in Descendants(r)
    ensures |Descendants(x)| < |Descendants(r)|
  {
    ForestNested(r.children, x);
  }

  /** The walk never examines its own root. */
  lemma RootNotDescendant(e: Element)
    ensures e !in Descendants(e)
  {
    if e in Descendants(e) {
      DescendantsNested(e, e);
    }
  }
}
