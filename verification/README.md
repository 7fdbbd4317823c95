# Table of contents of the post layout, in Dafny

This project models the table-of-contents logic of the blog's post layout
(`TocComponent` and `useIntersectionObserver` in
`motionclaw-main/layouts/PostLayout.js`), lifted out of React and the DOM into
pure functions, and proves properties of that model. It has three parts.

- **Outline builder** (modules `Outline`, `OutlineShape`, `OutlineLinking`,
  `OutlineExamples`). The input is a flat, document-ordered list of headings
  (`depth`, `url`, `value`). Depth-1 headings become the roots. Every other
  heading is attached under the nearest preceding heading whose depth is
  exactly one less. A heading with no such predecessor is never attached, and
  it and everything beneath it are unreachable. `ParentOf` states the
  attachment rule. `Build` assembles the forest from it, recursing on the input
  index. `LinkChildren` is the source's two loops written over a sequence of
  child lists, and it is proved to produce exactly the children `Build` uses.
  The source mutates shared heading objects. The model stands for each object's
  identity by its input position, `Node.index`.
- **Highlighting** (module `Highlight`). A node is active when its url equals
  `'#' + activeId`, or when one of its children is active. The renderer shows a
  node's children only beneath an active node that has children.
- **Active-section tracker** (module `Tracker`). One intersection callback is a
  pure transition `(records, batch, activeId) -> (records', activeId')`:
  - the batch's reports are folded into the persistent id → latest-flag mapping;
  - the ids whose latest report is intersecting are collected;
  - the active id is picked by how many there are.

  When several ids are visible, the source sorts them with a comparator that
  returns a boolean. That comparator is not consistent, so the order the sort
  produces is implementation-defined. The model therefore takes the engine's
  choice as a parameter `pick`, which only has to return a member of any
  non-empty set it is given (`PickSound`).

The outline is a pure function of its input, so building it twice from the same
input gives the same forest.

## Model

| member | source | states |
|---|---|---|
| `Outline.Scan` | motionclaw-main/layouts/PostLayout.js:214-219 | The backward search from `j` returns the first heading, going down, whose depth is exactly one less than heading `i`'s. None of the headings it passes fits. `None` means no heading at or below `j` fits. |
| `Outline.ParentOf` | motionclaw-main/layouts/PostLayout.js:212-219 | A depth-1 heading has no parent. Any other heading's parent is the greatest earlier index exactly one level shallower. If no earlier heading fits, there is no parent. |
| `Outline.ChildIndices` | motionclaw-main/layouts/PostLayout.js:212-219 | A heading lies in `p`'s child list exactly when `p` is its parent, so it is attached under at most one heading. Each child is later in the input and exactly one level deeper. The list is strictly increasing, which is the order the descending loop and `unshift` produce. |
| `Outline.RootIndices` | motionclaw-main/layouts/PostLayout.js:221 | The roots are exactly the depth-1 positions, in input order. |
| `Outline.Build` | motionclaw-main/layouts/PostLayout.js:210-222 | Empty input gives an empty forest. Every root copies its heading unchanged and has depth 1. Every depth-1 heading is a root. Roots appear in input order. |
| `OutlineLinking.LinkChildren` | motionclaw-main/layouts/PostLayout.js:211-221 | The loops as written: a descending pass, then a backward search that stops at the first fit and prepends. After the pass, every child list equals `ChildIndices`. The final filter gives `RootIndices`. |
| `OutlineShape.SubtreeWellLinked` | motionclaw-main/layouts/PostLayout.js:211-219 | In every tree, each node copies its heading unchanged. Each child's parent is the node, and the child is one level deeper and later in the input. Children appear in input order. Every heading whose parent is the node is among its children. |
| `OutlineShape.ForestWellLinked` | motionclaw-main/layouts/PostLayout.js:211-221 | Every tree of the outline has the shape described in the row above. |
| `OutlineShape.AncestorDepth` | motionclaw-main/layouts/PostLayout.js:214-216 | Up a parent chain, both indices and depths strictly decrease, so the structure has no cycles. |
| `OutlineShape.SubtreeIndices` | motionclaw-main/layouts/PostLayout.js:212-219 | The tree under a heading holds exactly the headings that have it on their parent chain. |
| `OutlineShape.ForestIndices` | motionclaw-main/layouts/PostLayout.js:212-221 | A heading appears in the outline exactly when its parent chain reaches a depth-1 heading. |
| `OutlineShape.ForestNoDup` | motionclaw-main/layouts/PostLayout.js:212-221 | No heading appears twice anywhere in the outline. |
| `OutlineShape.ForestSize` | motionclaw-main/layouts/PostLayout.js:212-221 | The outline has exactly as many nodes as there are headings whose parent chain reaches a depth-1 heading. |
| `OutlineShape.OrphanDropped` | motionclaw-main/layouts/PostLayout.js:213-221 | Take a heading that is not depth 1 and has no fitting predecessor. It is not in the outline, and neither is any heading beneath it. |
| `OutlineExamples.NestedExample` | motionclaw-main/layouts/PostLayout.js:210-222 | Depths 1, 2, 2, 1 give two roots. The first root has the two depth-2 headings as children, in order. |
| `OutlineExamples.OrphanExample` | motionclaw-main/layouts/PostLayout.js:213-221 | For depths 1, 3, the depth-3 heading is dropped. |
| `OutlineExamples.CrossingForest` | motionclaw-main/layouts/PostLayout.js:212-219 | For depths 1, 2, 1, 3, the depth-3 heading hangs under the depth-2 heading, which sits under the first root. |
| `OutlineExamples.PreorderNotDocumentOrder` | motionclaw-main/layouts/PostLayout.js:212-221 | For that same input, a pre-order walk lists positions 0, 1, 3, 2, which is not input order. |
| `Highlight.ActiveIffTargetInside` | motionclaw-main/layouts/PostLayout.js:225-229 | A node is active exactly when the target url `'#' + activeId` occurs somewhere in its tree. The target is `"#undefined"` while the id is undefined. |
| `Highlight.AncestorsOfActiveAreActive` | motionclaw-main/layouts/PostLayout.js:225-229 | Every node above an active node is active. |
| `Highlight.Render` | motionclaw-main/layouts/PostLayout.js:230-247 | There is one line per node, with the node's link and text. A line is highlighted exactly when its node is active. It shows nested lines exactly when the node is active and has children. |
| `Highlight.RenderShowsTarget` | motionclaw-main/layouts/PostLayout.js:224-252 | If the target url is in the outline, the rendered outline shows it highlighted, at whatever depth. If it is not, nothing is highlighted. |
| `Tracker.Merge` | motionclaw-main/layouts/PostLayout.js:261-264 | The mapping's keys become the old keys plus the batch's ids. Each reported id maps to its last report in the batch. Every other id keeps its entry. |
| `Tracker.MergeIdempotent` | motionclaw-main/layouts/PostLayout.js:261-264 | Folding in the same batch twice gives the same mapping as folding it in once. |
| `Tracker.MergeConcat` | motionclaw-main/layouts/PostLayout.js:258-264 | The mapping persists between callbacks: folding in two batches one after the other equals folding in their concatenation. |
| `Tracker.NextActive` | motionclaw-main/layouts/PostLayout.js:266-281 | With no visible id, the active id is unchanged. With exactly one, that id becomes active. With several, some visible id becomes active. |
| `Tracker.Step` | motionclaw-main/layouts/PostLayout.js:260-281 | One callback: the mapping gains the batch's ids. The active id is unchanged when nothing is visible, and is otherwise a visible id. |
| `Tracker.ActiveIdWasReportedVisible` | motionclaw-main/layouts/PostLayout.js:260-281 | Starting with no records and an undefined id, the active id after any run of callbacks is undefined, or is an id some batch reported as intersecting. |
| `Tracker.IndexOf` | motionclaw-main/layouts/PostLayout.js:272 | The lookup returns the first document position of the id, or -1 exactly when the id is not a document heading. |
| `Tracker.BooleanComparatorInconsistent` | motionclaw-main/layouts/PostLayout.js:277-279 | Take an earlier heading `a` and a later heading `b`. The comparator answers 0 ("equal") for `(a, b)` and 1 ("after") for `(b, a)`, which no consistent comparator does. It never answers negative, so it never asks for `a` before `b`. |
| `Tracker.TieBreakMayMissEarliest` | motionclaw-main/layouts/PostLayout.js:276-280 | With document headings `intro` then `2024` both visible, a sound engine pick makes `2024` active, although `intro` comes earlier in the document. |
| `Tracker.NextActiveEarliest` | motionclaw-main/layouts/PostLayout.js:274-281 | The corrected rule works as follows. With nothing visible, the id is unchanged. Otherwise a visible id becomes active: the one with the least document index among visible document headings. |
| `Tracker.EarliestAllowedByCode` | motionclaw-main/layouts/PostLayout.js:274-281 | The corrected rule is one of the code's behaviours: it equals `NextActive` under a particular sound engine pick. |
| `Tracker.StepEarliest` | motionclaw-main/layouts/PostLayout.js:260-281 | The callback under the corrected rule is `Step` under that engine pick. |

## Left out

- The JSX layout, styling, SVG markup and the author, tag and prev/next rendering (lines 18-204) are left out: they are presentation only.
- `twitterShare` (lines 11-14) and the handle rewrite at line 112 are left out: they are thin wrappers over `encodeURIComponent` and `String.replace`.
- Date formatting with `toLocaleDateString` (line 37) is left out: it is a locale library call.
- Constructing the `IntersectionObserver` with its `-40%` bottom root margin is left out, as are `document.querySelectorAll('h1, h2, h3')` and `observe`/`disconnect` (lines 284-292). These are browser I/O. Report batches and the document's heading ids (`doc`) are parameters instead.
- React `useState`/`useEffect`/`useRef` scheduling, re-render timing and the `key={i}` props are left out: they are framework plumbing. The `records` field of `Tracker.State` stands for the ref, and `activeId` stands for the state that `setActiveId` writes.
- The mapping keeps only the `isIntersecting` flag of each report. The callback reads nothing else from a report besides `target.id`.
- The order that `Array.prototype.sort` produces with the boolean comparator (lines 277-279) is implementation-defined, because the comparator is not consistent. It is the `pick` parameter, constrained only to return a visible id. The `Object.keys` enumeration that feeds the sort (line 267) is not modelled: it lists integer-like keys in ascending order first, then the other keys in first-insertion order, and the model abstracts it together with the sort.
- Depths are integers. The source's loose `==` on non-numeric depths is not modelled.
- Tracker.NextActive: among several visible ids it only promises some visible id, not the earliest one. The code's sort gives no stronger guarantee; see Findings.
- A natural reading of the outline is that a pre-order walk lists headings in document order. The code does not guarantee this when depths jump back and forth. `OutlineExamples.PreorderNotDocumentOrder` models the code.

## Findings

| source | as written | input that shows it | evidently intended | confidence | as-written member | corrected member |
|---|---|---|---|---|---|---|
| motionclaw-main/layouts/PostLayout.js:277-280 | The visible headings are sorted with `(a, b) => index(a) > index(b)`. That comparator returns a boolean, never a negative number, so the sort order is implementation-defined. | Document headings with ids `intro` then `2024`, both intersecting. `Object.keys` lists the integer-like `"2024"` first. The comparator never answers negative, so a sort that moves elements only on a negative answer, as V8's TimSort does, keeps `"2024"` first. The code makes `2024` active. | The visible heading earliest in the document (`intro`) becomes active. | medium; not executed | `Tracker.TieBreakMayMissEarliest` | `Tracker.NextActiveEarliest` |
