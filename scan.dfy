/** The overflow scan over a rendered element tree: the pure specification of
    both reporting policies and of the descendant check, their properties, and
    the two walks that compute them with an explicit work list. */
module Scan {
  import opened Wrappers
  import opened Dom
  import Markup

  /** Some element of `s` overflows the reference bottom. */
  predicate AnyOverflows(s: seq<Element>, refBottom: real) {
    exists x :: x in s && Overflows(x, refBottom)
  }

  /** Some strict descendant of `e` overflows; `e` itself does not count. */
  predicate HasOverflowingDescendant(e: Element, refBottom: real) {
    AnyOverflows(Descendants(e), refBottom)
  }

  /** First-match policy on a document-order list: the first overflowing
      element, if any. */
  function FirstOverflow(s: seq<Element>, refBottom: real): seq<Element> {
    if s == [] then []
    else if Overflows(s[0], refBottom) then [s[0]]
    else FirstOverflow(s[1..], refBottom)
  }

  /** Deepest-match policy on a document-order list: the overflowing elements
      none of whose descendants overflow, in the order of `s`. */
  function DeepestOverflow(s: seq<Element>, refBottom: real): seq<Element> {
    if s == [] then []
    else
      (if Overflows(s[0], refBottom) && !HasOverflowingDescendant(s[0], refBottom)
       then [s[0]] else [])
      + DeepestOverflow(s[1..], refBottom)
  }

  /** The elements a scan rooted at `container` reports, before formatting. */
  function Culprits(checkInside: bool, container: Element, refBottom: real): seq<Element> {
    if checkInside then DeepestOverflow(Descendants(container), refBottom)
    else FirstOverflow(Descendants(container), refBottom)
  }

  /** The bottom edge the scan compares against: the content root's if one is
      given, else the walk root's. */
  function ReferenceBottom(container: Element, contentRoot: Option<Element>): real {
    match contentRoot
    case Some(c) => c.bottom
    case None => container.bottom
  }

  /** What is reported for an element: its formatted markup. */
  function Report(e: Element): string {
    Markup.FormatHtml(e.outerHtml)
  }

  function Reports(s: seq<Element>): (r: seq<string>)
    ensures |r| == |s|
    ensures forall i :: 0 <= i < |s| ==> r[i] == Report(s[i])
  {
    seq(|s|, i requires 0 <= i < |s| => Report(s[i]))
  }

  // ---------------------------------------------------------------------------
  // Properties of the specification

  lemma {:induction false} FirstOverflowAppend(a: seq<Element>, b: seq<Element>, refBottom: real)
    ensures FirstOverflow(a + b, refBottom)
         == if FirstOverflow(a, refBottom) == [] then FirstOverflow(b, refBottom)
            else FirstOverflow(a, refBottom)
    decreases |a|
  {
    if a == [] {
      assert a + b == b;
    } else {
      assert (a + b)[0] == a[0];
      assert (a + b)[1..] == a[1..] + b;
      FirstOverflowAppend(a[1..], b, refBottom);
    }
  }

  lemma {:induction false} DeepestOverflowAppend(a: seq<Element>, b: seq<Element>, refBottom: real)
    ensures DeepestOverflow(a + b, refBottom)
         == DeepestOverflow(a, refBottom) + DeepestOverflow(b, refBottom)
    decreases |a|
  {
    if a == [] {
      assert a + b == b;
    } else {
      assert (a + b)[0] == a[0];
      assert (a + b)[1..] == a[1..] + b;
      DeepestOverflowAppend(a[1..], b, refBottom);
    }
  }

  /** The first-match policy reports at most one element: the one at the least
      position of `s` that overflows; it reports nothing exactly when no
      element of `s` overflows. */
  lemma {:induction false} FirstOverflowIsFirst(s: seq<Element>, refBottom: real)
    ensures |FirstOverflow(s, refBottom)| <= 1
    ensures FirstOverflow(s, refBottom) == [] <==> !AnyOverflows(s, refBottom)
    ensures FirstOverflow(s, refBottom) != [] ==>
      exists i :: 0 <= i < |s| && FirstOverflow(s, refBottom) == [s[i]]
        && Overflows(s[i], refBottom)
        && forall j :: 0 <= j < i ==> !Overflows(s[j], refBottom)
  {
    if s != [] {
      FirstOverflowIsFirst(s[1..], refBottom);
      if !Overflows(s[0], refBottom) {
        assert s == [s[0]] + s[1..];
        if FirstOverflow(s, refBottom) != [] {
          var i :| 0 <= i < |s[1..]| && FirstOverflow(s[1..], refBottom) == [s[1..][i]]
            && Overflows(s[1..][i], refBottom)
            && forall j :: 0 <= j < i ==> !Overflows(s[1..][j], refBottom);
          assert FirstOverflow(s, refBottom) == [s[i + 1]];
          assert forall j :: 0 <= j < i + 1 ==> !Overflows(s[j], refBottom) by {
            forall j | 0 <= j < i + 1 ensures !Overflows(s[j], refBottom) {
              if j > 0 { assert s[j] == s[1..][j - 1]; }
            }
          }
        }
      } else {
        assert FirstOverflow(s, refBottom) == [s[0]];
      }
    }
  }

  /** The deepest-match policy reports an element exactly when it occurs in
      `s`, overflows, and has no overflowing descendant. */
  lemma {:induction false} DeepestOverflowMembers(s: seq<Element>, refBottom: real, x: Element)
    ensures x in DeepestOverflow(s, refBottom)
        <==> x in s && Overflows(x, refBottom) && !HasOverflowingDescendant(x, refBottom)
  {
    if s != [] {
      DeepestOverflowMembers(s[1..], refBottom, x);
      assert s == [s[0]] + s[1..];
    }
  }

  /** The deepest-match policy never reports more elements than `s` has, and
      reports none exactly when no element qualifies. */
  lemma {:induction false} DeepestOverflowSize(s: seq<Element>, refBottom: real)
    ensures |DeepestOverflow(s, refBottom)| <= |s|
    ensures DeepestOverflow(s, refBottom) == [] <==>
      forall i :: 0 <= i < |s| ==>
        !(Overflows(s[i], refBottom) && !HasOverflowingDescendant(s[i], refBottom))
  {
    if s != [] {
      DeepestOverflowSize(s[1..], refBottom);
      assert forall i :: 1 <= i < |s| ==> s[i] == s[1..][i - 1];
    }
  }

  /** A skipped element is never reported, under either policy. */
  lemma {:induction false} SkippedNeverReported(s: seq<Element>, refBottom: real, x: Element)
    requires IsSkipped(x)
    ensures x !in FirstOverflow(s, refBottom)
    ensures x !in DeepestOverflow(s, refBottom)
  {
    DeepestOverflowMembers(s, refBottom, x);
    FirstOverflowIsFirst(s, refBottom);
  }

  /** If some element of the tree below `r` overflows, the deepest-match policy
      reports some element: follow overflowing descendants down until none is
      left. */
  lemma {:induction false} DeepestBelow(r: Element, refBottom: real, x: Element)
    requires x in Descendants(r) && Overflows(x, refBottom)
    ensures DeepestOverflow(Descendants(r), refBottom) != []
    decreases |Descendants(x)|
  {
    DescendantsNested(r, x);
    if HasOverflowingDescendant(x, refBottom) {
      var y :| y in Descendants(x) && Overflows(y, refBottom);
      DescendantsNested(x, y);
      DeepestBelow(r, refBottom, y);
    } else {
      DeepestOverflowMembers(Descendants(r), refBottom, x);
    }
  }

  /** On a whole tree the two policies agree on whether anything overflows:
      the first-match list is empty exactly when the deepest-match list is. */
  lemma PoliciesAgreeOnEmptiness(r: Element, refBottom: real)
    ensures FirstOverflow(Descendants(r), refBottom) == []
        <==> DeepestOverflow(Descendants(r), refBottom) == []
  {
    FirstOverflowIsFirst(Descendants(r), refBottom);
    if AnyOverflows(Descendants(r), refBottom) {
      var x :| x in Descendants(r) && Overflows(x, refBottom);
      DeepestBelow(r, refBottom, x);
    } else {
      if DeepestOverflow(Descendants(r), refBottom) != [] {
        var x := DeepestOverflow(Descendants(r), refBottom)[0];
        DeepestOverflowMembers(Descendants(r), refBottom, x);
      }
    }
  }

  /** Under the deepest-match policy no reported element has an overflowing
      strict descendant. */
  lemma DeepestAreMinimal(r: Element, refBottom: real)
    ensures forall x :: x in DeepestOverflow(Descendants(r), refBottom) ==>
      Overflows(x, refBottom) && !HasOverflowingDescendant(x, refBottom)
  {
    forall x | x in DeepestOverflow(Descendants(r), refBottom)
      ensures Overflows(x, refBottom) && !HasOverflowingDescendant(x, refBottom)
    {
      DeepestOverflowMembers(Descendants(r), refBottom, x);
    }
  }

  // ---------------------------------------------------------------------------
  // One step of a walk, as the loops below use it

  lemma StepPasses(walked: seq<Element>, e: Element, refBottom: real)
    requires !Overflows(e, refBottom)
    ensures FirstOverflow(walked + [e], refBottom) == FirstOverflow(walked, refBottom)
    ensures DeepestOverflow(walked + [e], refBottom) == DeepestOverflow(walked, refBottom)
  {
    FirstOverflowAppend(walked, [e], refBottom);
    DeepestOverflowAppend(walked, [e], refBottom);
  }

  lemma StepDeepest(walked: seq<Element>, e: Element, refBottom: real)
    requires Overflows(e, refBottom)
    ensures DeepestOverflow(walked + [e], refBottom)
         == DeepestOverflow(walked, refBottom)
            + if HasOverflowingDescendant(e, refBottom) then [] else [e]
  {
    DeepestOverflowAppend(walked, [e], refBottom);
  }

  lemma StepFirstHit(walked: seq<Element>, e: Element, rest: seq<Element>, refBottom: real)
    requires FirstOverflow(walked, refBottom) == [] && Overflows(e, refBottom)
    ensures FirstOverflow(walked + [e] + rest, refBottom) == [e]
  {
    FirstOverflowAppend(walked, [e], refBottom);
    FirstOverflowAppend(walked + [e], rest, refBottom);
  }

  // ---------------------------------------------------------------------------
  // The walks

  /** Walks the strict descendants of `element` in document order and answers
      whether one of them overflows, stopping at the first that does. */
  method HasOverflowingChild(element: Element, containerBottom: real) returns (found: bool)
    ensures found <==> HasOverflowingDescendant(element, containerBottom)
  {
    var pending := element.children;
    ghost var walked: seq<Element> := [];
    while pending != []
      invariant walked + PreorderForest(pending) == Descendants(element)
      invariant !AnyOverflows(walked, containerBottom)
      decreases |PreorderForest(pending)|
    {
      var child := pending[0];
      ForestStep(walked, pending);
      pending := child.children + pending[1..];
      walked := walked + [child];
      var isInline := IsInline(child);
      var isHidden := IsHidden(child);
      if isInline || isHidden {
        continue;
      }
      if child.bottom > containerBottom {
        assert child in Descendants(element);
        return true;
      }
    }
    return false;
  }

  /** Walks the strict descendants of `container` in document order and reports
      the formatted markup of the overflowing elements the policy selects: with
      `checkInside` false the first one, returning at once; otherwise every one
      without an overflowing descendant. */
  method FindOverflowElements(checkInside: bool, container: Element, contentRoot: Option<Element>)
    returns (overflowElements: seq<string>)
    ensures overflowElements
         == Reports(Culprits(checkInside, container, ReferenceBottom(container, contentRoot)))
  {
    var containerBottom := match contentRoot case Some(c) => c.bottom case None => container.bottom;
    overflowElements := [];
    var pending := container.children;
    ghost var walked: seq<Element> := [];
    ghost var culprits: seq<Element> := [];
    while pending != []
      invariant walked + PreorderForest(pending) == Descendants(container)
      invariant overflowElements == Reports(culprits)
      invariant checkInside ==> culprits == DeepestOverflow(walked, containerBottom)
      invariant !checkInside ==> culprits == [] && FirstOverflow(walked, containerBottom) == []
      decreases |PreorderForest(pending)|
    {
      var element := pending[0];
      ForestStep(walked, pending);
      pending := element.children + pending[1..];
      ghost var before := walked;
      walked := walked + [element];
      var isHidden := IsHidden(element);
      var isInline := IsInline(element);
      if isHidden || isInline {
        StepPasses(before, element, containerBottom);
        continue;
      }
      if element.bottom > containerBottom {
        if checkInside {
          StepDeepest(before, element, containerBottom);
          var hasChild := HasOverflowingChild(element, containerBottom);
          if !hasChild {
            overflowElements := overflowElements + [Report(element)];
            culprits := culprits + [element];
          }
        } else {
          StepFirstHit(before, element, PreorderForest(pending), containerBottom);
          overflowElements := overflowElements + [Report(element)];
          culprits := culprits + [element];
          return;
        }
      } else {
        StepPasses(before, element, containerBottom);
      }
    }
    assert walked == Descendants(container);
  }
}
