# Page overflow checker, modelled in Dafny

`checkPageOverflow` takes an HTML fragment and a boundary (a width and a
height). It renders the fragment in an off-screen iframe sized to the boundary
and decides whether the content is taller than the boundary. It also reports
which elements reach below the bottom edge of the content root. The content
root is the slide element if the selector matches one, else the body. There
are two reporting policies:

- first match (`checkInside` false): the first overflowing element in document order;
- deepest match (`checkInside` true): every overflowing element that has no overflowing descendant.

Each reported element is given as its markup, passed through `formatHTML`.

The model has five modules:

- `Wrappers` (`wrappers.dfy`): `Option` and `Result`.
- `Dom` (`dom.dfy`): the rendered element tree. Each element carries the
  computed `display`, `opacity` and `visibility`, whether it has an offset
  parent, the bottom edge of its bounding rectangle, and its markup. The file
  also holds the filter shared by both walks, the document-order flattening
  (`Preorder`), and the strict descendants a tree walker yields (`Descendants`).
- `Scan` (`scan.dfy`): the two walks, `FindOverflowElements` and
  `HasOverflowingChild`. Each is a `while` loop over an explicit work list
  that stands for the tree walker. Each is proved equal to a pure recursive
  specification: `FirstOverflow`, `DeepestOverflow` or
  `HasOverflowingDescendant`. The lemmas beside them characterise both policies.
- `Markup` (`markup.dfy`): `formatHTML` as three functions, one per regular
  expression. They follow JavaScript's rules: the leftmost match wins, the
  search resumes after a match, quantifiers are greedy, `[^/]` also matches
  `>` and newlines, and `\s` is the full ECMAScript whitespace and line
  terminator set.
- `PageOverflow` (`page_overflow.dfy`): the entry operation.
  - Options are defaulted, and the boundary is validated before anything is allocated.
  - The host page's body and the sandbox container are classes. The
    container's `parentNode` is what the cleanup tests.
  - The body also keeps a ghost history of every node appended to it.
  - `CheckPageOverflow` attaches a fresh container and loads the markup into
    it through `Container.Load`, which requires the container to be attached.
    It then builds the report and detaches the container on every path.

`Scenarios` (`scenarios.dfy`) works two concrete documents through the model.

Rendering is a parameter, `render`. It takes the markup, the boundary and the
slide selector. It returns either the rendered document or the failure to
obtain the iframe's window or document. The document holds the element tree,
the body, the slide element if one matched, and the scroll height, all
measured after the slide was resized. Lengths along the page are `real`. The
scroll height is an `int`, as in the DOM.

Behaviours of the code a reader might not expect:

- The default boundary of 1280 × 720 applies only when no options object is
  passed at all. If an options object without `boundary` is passed, the call
  fails validation (`ResolveOptions`, `ValidateBoundary`).
- `isOverflow` being true does not guarantee a non-empty element list. The
  height test and the scan are independent (`Scenarios.OverflowWithNothingReported`).
- Under the first-match policy the list has at most one element, not exactly
  one (`FirstPolicyReportsAtMostOne`).
- When neither a slide element nor a body is available, the reference edge
  is the walk root's, that is the `documentElement`'s (`ReferenceBottom`).

## Model

| member | source | states |
|---|---|---|
| `PageOverflow.ResolveOptions` | checkPageOverflow.ts:7-12 | with no options object, the default boundary 1280 × 720, `checkInside` false and selector `.slide`; with an object, its boundary as given (possibly absent), `checkInside` true only when passed true, and the selector `.slide` when none is passed |
| `PageOverflow.ValidateBoundary` | checkPageOverflow.ts:14-21 | success exactly when the boundary is present with two numeric sides that are both positive, and then it carries those sides; the "not numeric" error exactly when the boundary is missing or a side is not a number; never the sandbox error |
| `PageOverflow.ExpectedReport` | checkPageOverflow.ts:69-88 | `isOverflow` exactly when the scroll height is strictly greater than the boundary height; details present exactly when `isOverflow`, and then they carry that height and the formatted scan result measured against the slide element, else the body |
| `PageOverflow.FirstPolicyReportsAtMostOne` | checkPageOverflow.ts:134-138 | with `checkInside` false, an overflowing report lists at most one element |
| `PageOverflow.PoliciesAgreeOnReporting` | checkPageOverflow.ts:75-80 | for the same document, the first-match list is empty exactly when the deepest-match list is |
| `PageOverflow.Without` | checkPageOverflow.ts:91 | the result holds exactly the elements other than the removed one, is no longer than the list, and equals the list when the removed one is absent |
| `PageOverflow.WithoutSplice` | checkPageOverflow.ts:91 | removing a child that occurs once leaves the children before it followed by the children after it, in order |
| `PageOverflow.HostBody.AppendChild` | checkPageOverflow.ts:45 | the container becomes the body's last child and the last entry of its append history, and its parent is the body |
| `PageOverflow.HostBody.RemoveChild` | checkPageOverflow.ts:90-92 | the container leaves the body's children, the others stay in order, the append history is unchanged, and the container has no parent |
| `PageOverflow.Container.Load` | checkPageOverflow.ts:47-60 | the markup is loaded only into an attached container, and the outcome is the rendering oracle's answer for the markup, boundary and selector |
| `PageOverflow.Container.constructor` | checkPageOverflow.ts:24 | a new container is detached |
| `PageOverflow.CheckPageOverflow` | checkPageOverflow.ts:1-94 | a boundary error is returned with no container created and nothing appended to the body. Otherwise exactly one fresh container is appended and the markup is loaded while it is attached. The result is then the sandbox failure when the oracle has no window or document, else the report above. On every path the container ends detached and outside the body's children, and the body ends with exactly the children it started with |
| `Scan.HasOverflowingChild` | checkPageOverflow.ts:147-179 | true exactly when some strict descendant of the element, in the walker's pre-order, is not skipped by the filter and has its bottom strictly below the reference bottom |
| `Scan.FindOverflowElements` | checkPageOverflow.ts:96-144 | the result is the formatted markup of the first-match list (`checkInside` false) or the deepest-match list (`checkInside` true) of the strict descendants of the walk root, measured against the content root's bottom, or the walk root's when there is no content root |
| `Scan.FirstOverflowIsFirst` | checkPageOverflow.ts:121-138 | the first-match list has at most one element; it is empty exactly when nothing in the walk overflows; otherwise it is the element at the least overflowing position, and nothing before it overflows |
| `Scan.FirstOverflowAppend` | checkPageOverflow.ts:134-138 | the first-match result of a concatenation is the first part's result, or the second part's when the first part has no hit |
| `Scan.DeepestOverflowMembers` | checkPageOverflow.ts:127-133 | an element is in the deepest-match list exactly when it occurs in the walk, is not skipped, overflows, and has no overflowing strict descendant |
| `Scan.DeepestOverflowAppend` | checkPageOverflow.ts:128-133 | the deepest-match list of a concatenation is the concatenation of the lists, so document order is kept |
| `Scan.DeepestOverflowSize` | checkPageOverflow.ts:128-133 | the deepest-match list is no longer than the walk, and it is empty exactly when no element of the walk both overflows and lacks an overflowing descendant |
| `Scan.DeepestAreMinimal` | checkPageOverflow.ts:127-133 | every element the deepest-match policy reports overflows and has no overflowing strict descendant |
| `Scan.SkippedNeverReported` | checkPageOverflow.ts:114-119 | an element that is transparent, hidden, without an offset parent or displayed inline is never in either policy's list |
| `Scan.DeepestBelow` | checkPageOverflow.ts:128-133 | if any element of the tree overflows, the deepest-match list is non-empty |
| `Scan.PoliciesAgreeOnEmptiness` | checkPageOverflow.ts:127-139 | on a whole tree, the first-match list is empty exactly when the deepest-match list is |
| `Dom.RootNotDescendant` | checkPageOverflow.ts:104-111 | the walk root is never among the elements the walker yields |
| `Dom.DescendantsNested` | checkPageOverflow.ts:111-119 | every strict descendant of a walked element, skipped or not, is itself walked, and its subtree is strictly smaller |
| `PageOverflow.ContentRoot` | checkPageOverflow.ts:79 | no contract of its own: the slide element if the selector matched one, else the body (possibly absent) |
| `Scan.ReferenceBottom` | checkPageOverflow.ts:123 | no contract of its own: the content root's bottom edge, or the walk root's when there is no content root |
| `Dom.IsHidden` | checkPageOverflow.ts:116 | no contract of its own: opacity exactly "0", visibility exactly "hidden", or no offset parent |
| `Dom.IsInline` | checkPageOverflow.ts:117 | no contract of its own: the display value starts with "inline" |
| `Dom.IsSkipped` | checkPageOverflow.ts:119 | no contract of its own: hidden or inline, the filter shared by both walks |
| `Dom.Descendants` | checkPageOverflow.ts:104-111 | no contract of its own: the strict descendants in pre-order, which is what a tree walker rooted at the element yields (`Dom.RootNotDescendant`, `Dom.DescendantsNested`) |
| `Markup.CollapseGaps` | checkPageOverflow.ts:184 | no contract of its own: the leftmost, non-overlapping replacement of `>`, a maximal whitespace run ending at `<`, by `>`, newline, two spaces, `<` (`Markup.CollapseGapsKeepsText`) |
| `Markup.BreakAfterOpenTags` | checkPageOverflow.ts:185 | the output is never shorter than the input; the body is the leftmost, non-overlapping match of `<`, a character other than `/`, and everything up to the next `>`, with a newline inserted after each match |
| `Markup.BreakBeforeCloseTags` | checkPageOverflow.ts:186 | the output is never shorter than the input; the body is the leftmost, non-overlapping match of `</`, at least one character other than `>`, and `>`, with a newline inserted before each match |
| `Markup.FormatHtml` | checkPageOverflow.ts:182-189 | no contract of its own: the three passes in the source's order (`Markup.FormatHtmlKeepsText`, `Markup.FormatHtmlWithoutTags`) |
| `Markup.SpaceRun` | checkPageOverflow.ts:184 | the greedy `\s+` run is all whitespace and stops at a non-whitespace character or at the end |
| `Markup.FindClose` | checkPageOverflow.ts:185-186 | the position of the first `>` at or after the start, or none when there is none |
| `Markup.CollapseGapsKeepsText` | checkPageOverflow.ts:184 | the first replacement changes only whitespace: the output with whitespace deleted equals the input with whitespace deleted |
| `Markup.BreakAfterOpenTagsKeepsText` | checkPageOverflow.ts:185 | the second replacement only inserts whitespace |
| `Markup.BreakBeforeCloseTagsKeepsText` | checkPageOverflow.ts:186 | the third replacement only inserts whitespace |
| `Markup.FormatHtmlKeepsText` | checkPageOverflow.ts:182-189 | `formatHTML` only inserts or replaces whitespace: deleting all whitespace from its output gives the input with all whitespace deleted |
| `Markup.FormatHtmlWithoutTags` | checkPageOverflow.ts:182-189 | markup without `<` is returned unchanged |
| `Scenarios.SectionWithOverflowingParagraph` | checkPageOverflow.ts:127-139 | a section containing an overflowing paragraph: the deepest-match policy reports only the paragraph, the first-match policy only the section |
| `Scenarios.OverflowWithNothingReported` | checkPageOverflow.ts:72-88 | a document taller than the boundary whose only low element is transparent gives `isOverflow` true with an empty element list |

## Left out

- Creating the iframe and its container styles, loading `srcdoc` and waiting for `onload` (checkPageOverflow.ts:23-52). These are DOM input/output and an asynchronous wait; the `render` parameter stands for their result.
- CheckPageOverflow: assumes the iframe's load event fires. If it never fires, the source's promise never settles and the container stays attached; the model has no non-terminating path.
- CheckPageOverflow: the model does not interleave other code at the wait for the iframe's load event (checkPageOverflow.ts:49-52). In the source, other code can change `document.body` during that wait, including a second concurrent call that appends its own container. So the source promises only that its own container ends detached. The ensures `body.children == old(body.children)` holds in the model because nothing else runs; the ensures that the container is detached and outside the body's children does not depend on that.
- Layout itself, `getComputedStyle`, `getBoundingClientRect`, `scrollHeight` and `querySelector`. These are browser calls; their answers are fields of `Dom.Element` and `PageOverflow.Rendered`.
- Exceptions thrown by the browser queries during the measurement or the scan. In the model the only failure after the container is attached is the missing iframe window or document. The cleanup argument does not depend on which failure occurs, since every path passes through the same detach step.
- Resizing the slide element to the boundary (checkPageOverflow.ts:62-67). It only affects layout, so the oracle's measurements are taken to be post-resize.
- NaN and Infinity. A numeric side is a `real`. In JavaScript `NaN` passes both validation checks, and Infinity passes them too; the model has neither.
- The content root's rectangle is re-read for every element (checkPageOverflow.ts:123). The scan changes nothing, so the model reads one fixed bottom edge before the walk.
- The `child === element` guard (checkPageOverflow.ts:162) is not in the loop. A tree walker never yields its own root, so the guard never fires; `Dom.RootNotDescendant` proves the walk root is not among the yielded elements.
- Element identity. Elements are values compared structurally, and an element's markup is a field supplied with the tree rather than a serialisation of it.
- `HostBody.RemoveChild` removes every occurrence of the container. A DOM node is a child at most once, so this agrees with the source.
- Strings are sequences of Unicode code points, not UTF-16 code units. Every character the three patterns name is in the Basic Multilingual Plane, so the replacements come out the same.
- canvas/fabric-demo/src/components/FabricJSCanvas.jsx and canvas/fabric-demo/src/App.jsx are not part of this model. They are a drawing demo and its UI shell, with no overflow logic.
