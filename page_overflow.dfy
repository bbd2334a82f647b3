/** checkPageOverflow: validates the boundary, renders the markup in a sandbox
    container attached to the host page's body, measures it, runs the overflow
    scan, and detaches the container again on every path out.

    Rendering is opaque. It is the `render` parameter: given the markup, the
    boundary the sandbox is sized to, and the selector of the slide element, it
    answers with the rendered document (its element tree as the scan sees it,
    the body, the slide element if the selector matched one, and the document's
    scroll height, all as measured after the slide was resized to the
    boundary), or with the failure to obtain the sandbox's window or
    document. */
module PageOverflow {
  import opened Wrappers
  import opened Dom
  import opened Scan

  /** A JavaScript value where a number is expected: a number, or anything
      whose `typeof` is not "number". */
  datatype JsValue = Number(n: real) | NotNumber

  datatype BoundaryArg = BoundaryArg(width: JsValue, height: JsValue)

  /** The options object as the caller passes it; an absent field is `None`. */
  datatype OptionsArg = OptionsArg(
    boundary: Option<BoundaryArg>,
    checkInside: Option<bool>,
    slideSelector: Option<string>)

  /** The options after defaulting. */
  datatype Settings = Settings(boundary: Option<BoundaryArg>, checkInside: bool, slideSelector: string)

  /** A validated boundary: both sides are positive numbers. */
  datatype Boundary = Boundary(width: real, height: real)

  datatype Error =
    | BoundaryNotNumeric   // boundary missing, or a side that is not a number
    | BoundaryNotPositive  // a side that is zero or negative
    | SandboxUnavailable   // the sandbox's window or document could not be obtained

  datatype Rendered = Rendered(
    documentElement: Element,
    body: Option<Element>,
    slide: Option<Element>,
    scrollHeight: int)

  datatype LoadOutcome = Loaded(doc: Rendered) | NoContext

  datatype OverflowDetails = OverflowDetails(currentHeight: int, overflowElements: seq<string>)

  datatype OverflowReport = OverflowReport(isOverflow: bool, overflowDetails: Option<OverflowDetails>)

  const DefaultBoundary := BoundaryArg(Number(1280.0), Number(720.0))
  const DefaultSelector := ".slide"

  /** The parameter default applies only when no options object is passed at
      all; inside a passed object only `checkInside` and `slideSelector` have
      defaults, so a passed object without a boundary keeps it absent. */
  function ResolveOptions(options: Option<OptionsArg>): (s: Settings)
    ensures options.None? ==> s == Settings(Some(DefaultBoundary), false, DefaultSelector)
    ensures options.Some? ==> s.boundary == options.value.boundary
    ensures options.Some? ==>
      (s.checkInside <==> options.value.checkInside == Some(true))
    ensures options.Some? && options.value.slideSelector.Some? ==>
      s.slideSelector == options.value.slideSelector.value
    ensures options.Some? && options.value.slideSelector.None? ==>
      s.slideSelector == DefaultSelector
  {
    match options
    case None => Settings(Some(DefaultBoundary), false, DefaultSelector)
    case Some(o) =>
      Settings(
        o.boundary,
        match o.checkInside case Some(b) => b case None => false,
        match o.slideSelector case Some(sel) => sel case None => DefaultSelector)
  }

  /** The two checks made before anything is allocated: first that the
      boundary is present with numeric sides, then that both sides are
      positive. */
  function ValidateBoundary(b: Option<BoundaryArg>): (r: Result<Boundary, Error>)
    ensures r.Success? <==>
      b.Some? && b.value.width.Number? && b.value.height.Number?
      && b.value.width.n > 0.0 && b.value.height.n > 0.0
    ensures r.Success? ==> r.value == Boundary(b.value.width.n, b.value.height.n)
    ensures r == Failure(BoundaryNotNumeric) <==>
      b.None? || !b.value.width.Number? || !b.value.height.Number?
    ensures r.Failure? ==> r.error != SandboxUnavailable
  {
    if b.None? || !b.value.width.Number? || !b.value.height.Number? then
      Failure(BoundaryNotNumeric)
    else if b.value.width.n <= 0.0 || b.value.height.n <= 0.0 then
      Failure(BoundaryNotPositive)
    else
      Success(Boundary(b.value.width.n, b.value.height.n))
  }

  /** The element the scan measures against: the slide element if the selector
      matched one, else the body. */
  function ContentRoot(doc: Rendered): Option<Element> {
    if doc.slide.Some? then doc.slide else doc.body
  }

  /** The report for a rendered document: it overflows exactly when the scroll
      height is strictly greater than the boundary height, and only then
      carries details, namely that height and what the scan reports. */
  function ExpectedReport(doc: Rendered, boundary: Boundary, checkInside: bool): (r: OverflowReport)
    ensures r.isOverflow <==> doc.scrollHeight as real > boundary.height
    ensures r.overflowDetails.Some? <==> r.isOverflow
    ensures r.isOverflow ==> r.overflowDetails.value.currentHeight == doc.scrollHeight
    ensures r.isOverflow ==>
      r.overflowDetails.value.overflowElements
      == Reports(Culprits(checkInside, doc.documentElement,
                          ReferenceBottom(doc.documentElement, ContentRoot(doc))))
  {
    var isOverflow := doc.scrollHeight as real > boundary.height;
    var culprits := Culprits(checkInside, doc.documentElement,
                             ReferenceBottom(doc.documentElement, ContentRoot(doc)));
    OverflowReport(isOverflow, if isOverflow then Some(OverflowDetails(doc.scrollHeight, Reports(culprits))) else None)
  }

  /** Under the first-match policy a report lists at most one element. */
  lemma FirstPolicyReportsAtMostOne(doc: Rendered, boundary: Boundary)
    ensures var r := ExpectedReport(doc, boundary, false);
      r.isOverflow ==> |r.overflowDetails.value.overflowElements| <= 1
  {
    FirstOverflowIsFirst(Descendants(doc.documentElement),
                         ReferenceBottom(doc.documentElement, ContentRoot(doc)));
  }

  /** Both policies report something, or both report nothing. */
  lemma PoliciesAgreeOnReporting(doc: Rendered, boundary: Boundary)
    ensures var first := ExpectedReport(doc, boundary, false);
      var deepest := ExpectedReport(doc, boundary, true);
      first.isOverflow ==>
        (first.overflowDetails.value.overflowElements == []
         <==> deepest.overflowDetails.value.overflowElements == [])
  {
    PoliciesAgreeOnEmptiness(doc.documentElement,
                             ReferenceBottom(doc.documentElement, ContentRoot(doc)));
  }

  // ---------------------------------------------------------------------------
  // The host page

  /** `s` without the object `x`: the other elements, in their order. */
  function Without(s: seq<object>, x: object): (r: seq<object>)
    ensures forall i :: 0 <= i < |r| ==> r[i] != x && r[i] in s
    ensures forall i :: 0 <= i < |s| && s[i] != x ==> s[i] in r
    ensures |r| <= |s|
    ensures x !in s ==> r == s
  {
    if s == [] then []
    else Without(s[..|s| - 1], x) + (if s[|s| - 1] == x then [] else [s[|s| - 1]])
  }

  lemma WithoutSnoc(s: seq<object>, y: object, x: object)
    ensures Without(s + [y], x) == Without(s, x) + if y == x then [] else [y]
  {
    assert (s + [y])[..|s|] == s;
  }

  /** Removing a child that occurs once gives back the children before it
      followed by the children after it. */
  lemma {:induction false} WithoutSplice(a: seq<object>, x: object, b: seq<object>)
    requires x !in a && x !in b
    ensures Without(a + [x] + b, x) == a + b
    decreases |b|
  {
    if b == [] {
      WithoutSnoc(a, x, x);
      assert a + [x] + b == a + [x];
    } else {
      var front, last := b[..|b| - 1], b[|b| - 1];
      assert b == front + [last];
      assert last in b && x !in front;
      WithoutSplice(a, x, front);
      WithoutSnoc(a + [x] + front, last, x);
      assert a + [x] + b == (a + [x] + front) + [last];
      assert (a + front) + [last] == a + b;
    }
  }

  /** The host page's `document.body`: its list of children, and, as ghost
      history, every node ever appended to it, in order. */
  class HostBody {
    var children: seq<object>
    ghost var attached: seq<object>

    constructor ()
      ensures children == [] && attached == []
    {
      children := [];
      attached := [];
    }

    /** Appends a detached container as the last child. */
    method AppendChild(c: Container)
      requires c.parentNode == null
      modifies this, c
      ensures children == old(children) + [c]
      ensures attached == old(attached) + [c]
      ensures c.parentNode == this
    {
      children := children + [c];
      attached := attached + [c];
      c.parentNode := this;
    }

    /** Detaches a child container. */
    method RemoveChild(c: Container)
      requires c.parentNode == this
      modifies this, c
      ensures children == Without(old(children), c)
      ensures attached == old(attached)
      ensures c.parentNode == null
    {
      children := Without(children, c);
      c.parentNode := null;
    }
  }

  /** The off-screen sandbox container holding the iframe; its parent is what
      the cleanup tests. */
  class Container {
    var parentNode: HostBody?

    constructor ()
      ensures parentNode == null
    {
      parentNode := null;
    }

    /** Loads the markup into the container's iframe and waits for it. An
        iframe only loads once it is connected to the host document, so the
        container must be attached; the outcome is the rendering oracle's. */
    method Load(html: string, boundary: Boundary, selector: string,
                render: (string, Boundary, string) -> LoadOutcome)
      returns (load: LoadOutcome)
      requires parentNode != null
      ensures load == render(html, boundary, selector)
    {
      load := render(html, boundary, selector);
    }
  }

  /** The entry operation. A boundary error is returned before a container is
      created, and nothing is appended to `body`. Otherwise exactly one fresh
      container is appended to `body`, the markup is loaded into it while it
      is attached, and it is detached before returning, whether the sandbox
      failed or the report was built, so `body` ends with the children it
      started with. */
  method CheckPageOverflow(
    body: HostBody,
    html: string,
    options: Option<OptionsArg>,
    render: (string, Boundary, string) -> LoadOutcome)
    returns (outcome: Result<OverflowReport, Error>, ghost sandbox: Container?)
    modifies body
    ensures body.children == old(body.children)
    ensures sandbox != null ==> fresh(sandbox) && sandbox.parentNode == null
    ensures sandbox != null ==> sandbox !in body.children
    ensures var settings := ResolveOptions(options);
      match ValidateBoundary(settings.boundary)
      case Failure(e) =>
        outcome == Failure(e) && sandbox == null && body.attached == old(body.attached)
      case Success(boundary) =>
        sandbox != null
        && body.attached == old(body.attached) + [sandbox]
        && outcome == match render(html, boundary, settings.slideSelector)
                      case NoContext => Failure(SandboxUnavailable)
                      case Loaded(doc) => Success(ExpectedReport(doc, boundary, settings.checkInside))
  {
    var settings := ResolveOptions(options);
    var validated := ValidateBoundary(settings.boundary);
    if validated.Failure? {
      return Failure(validated.error), null;
    }
    var boundary := validated.value;

    var container := new Container();
    body.AppendChild(container);
    sandbox := container;

    // try
    var load := container.Load(html, boundary, settings.slideSelector, render);
    match load {
      case NoContext =>
        outcome := Failure(SandboxUnavailable);
      case Loaded(doc) =>
        var currentHeight := doc.scrollHeight;
        var isOverflow := currentHeight as real > boundary.height;
        var overflowElements := FindOverflowElements(settings.checkInside, doc.documentElement, ContentRoot(doc));
        outcome := Success(OverflowReport(
          isOverflow,
          if isOverflow then Some(OverflowDetails(currentHeight, overflowElements)) else None));
    }

    // finally
    if container.parentNode != null {
      body.RemoveChild(container);
    }
  }
}
