# Shiba preview core in Dafny

This project models the three algorithmic pieces of the web front end of
Shiba, a live Markdown previewer (`v2/web`), and proves what they promise.

- **The search highlighter** is in `preview.ts`. `highlight` walks a HAST tree (the HTML syntax tree of
  the rendered document). It rewrites every text node whose value contains the query, in place, into a
  `span` element. The new children are the non-empty pieces of the old value, with one highlight span per
  non-overlapping match. One counter numbers the matches in document order, and the match numbered
  `index` gets the `search-text-current` class. `cloneJson` deep-copies a tree. `searchHast` highlights
  only such a copy. The plugin in `parseMarkdown` caches a copy before highlighting the tree it renders.
- **The filterable list** is in `Palette.tsx`. It filters items by a case-insensitive substring test,
  clamps a stored selection index against the filtered length, and wraps next/previous around. It also
  jumps to the first or last row, confirms with Enter, and aligns the focused row with `center` or
  `nearest`.
- **The outline tracker** is in `Article.tsx`. `appearInViewport` is a rectangle test. `collectHeadings`
  lists the headings with their levels and marks the current one for the scroll position.
  `dispatchHeadings` keeps at most one heading recomputation pending. A guard scrolls to the last
  modified element only when it is out of view.

Files:

| file | contents |
|---|---|
| `Wrappers.dfy` | `Option` |
| `Strings.dfy` | `indexOf`, `includes`, `split` with a non-empty separator, ASCII `toLowerCase`, with the split/join round trip |
| `Preview.dfy` | HAST values and the value-level specification of `highlight`; then HAST as mutable objects (`HNode`), with `CloneJson`, the visiting walk, `Highlight`, `SearchHast` and the `parseMarkdown` plugin proved against that specification |
| `Palette.dfy` | filter, clamp, wrap-around, scroll alignment, and the `Palette` class with its input and key handlers |
| `Article.dfy` | viewport test, last-modified guard, heading collection with its scan, and the single-slot `HeadingTracker` |

`highlight` changes objects in place, so the model uses a class `HNode` that carries every HAST field.
Its ghost `Model()` is the tree's value. Each method on `HNode` trees is proved to turn `Model()` into
what the pure function `HighlightNode` computes. The lemmas about the specification then carry over to
the objects: the text is preserved, the counter counts matches, and exactly one span is current. The
palette handlers and `collectHeadings` are methods with loops or state updates, proved against the pure
functions beside them.

## Model

| member | source | states |
|---|---|---|
| Strings.Find | v2/web/preview.ts:81 | the leftmost occurrence of the separator: it occurs there, not before, and "none" exactly when it occurs nowhere |
| Strings.Split | v2/web/preview.ts:81 | `split` always yields at least one piece |
| Strings.JoinSplit | v2/web/preview.ts:81 | joining the pieces of a split with the separator gives back the original string |
| Strings.SplitOneIffAbsent | v2/web/preview.ts:81-84 | a split yields a single piece exactly when the value does not contain the query |
| Strings.SplitPiecesAvoidSeparator | v2/web/preview.ts:81 | no piece of a split contains the separator |
| Strings.Lower | v2/web/components/Palette.tsx:46 | the lower-cased label has the same length and no upper-case letter; every upper-case letter becomes its lower-case partner and every other character is kept |
| Strings.LowerIdempotent | v2/web/components/Palette.tsx:62 | a stored (lower-cased) query is unchanged by lower-casing again |
| Strings.LowerKeepsContains | v2/web/components/Palette.tsx:46 | a string that occurs in a label still occurs in it once both are lower-cased |
| Preview.HighlightNode | v2/web/preview.ts:75-104 | the walk never moves the counter backwards |
| Preview.HighlightSeq | v2/web/preview.ts:76-104 | walking siblings keeps their number and never moves the counter backwards |
| Preview.HighlightNodeCount | v2/web/preview.ts:75-94 | the walk advances the counter by exactly the number of matches in the tree |
| Preview.HighlightSeqCount | v2/web/preview.ts:75-94 | the same over a sequence of siblings |
| Preview.TextOfPieces | v2/web/preview.ts:92-98 | the spans and pieces pushed by the loop spell out the later pieces joined by the query |
| Preview.TextOfTextChildren | v2/web/preview.ts:81-98 | the children of a rewritten text node, read in order, spell out its original value |
| Preview.HighlightPreservesText | v2/web/preview.ts:76-104 | highlighting never changes the text of a tree |
| Preview.HighlightSeqPreservesText | v2/web/preview.ts:76-104 | the same over a sequence of siblings |
| Preview.TextUntouchedIffNoMatch | v2/web/preview.ts:81-84 | a text node is left as it is (and the counter too) exactly when its value does not contain the query |
| Preview.NoMatchUnchanged | v2/web/preview.ts:76-104 | a tree with no match comes back unchanged, counter included |
| Preview.NoMatchSeqUnchanged | v2/web/preview.ts:76-104 | the same over a sequence of siblings |
| Preview.FlagsOfPieces | v2/web/preview.ts:92-94 | the spans pushed by the loop are numbered consecutively from the counter, current exactly at `index` |
| Preview.FlagsOfTextChildren | v2/web/preview.ts:87-98 | a rewritten text node has one span per match, numbered from the counter |
| Preview.HighlightFlags | v2/web/preview.ts:75-104 | on a tree without highlight spans, the spans come out one per match in document order, span number `count + j` current exactly when `index` is `count + j` |
| Preview.HighlightSeqFlags | v2/web/preview.ts:75-104 | the same over a sequence of siblings |
| Preview.ExactlyOneCurrent | v2/web/preview.ts:93 | after highlighting, there are as many spans as matches; one is current when `index` names a match, none otherwise (and none for a null `index`) |
| Preview.PiecesShape | v2/web/preview.ts:92-98 | every child the loop pushes is a highlight span around the query or a non-empty piece of the split |
| Preview.TextChildrenShape | v2/web/preview.ts:56-98 | every new child is a span whose only child is the query text, or a non-empty text piece without the query; all keep the node's position |
| Preview.HNode.TextNode | v2/web/preview.ts:48-54 | `text(value, position)` is a fresh text node of that value |
| Preview.HNode.SpanNode | v2/web/preview.ts:56-66 | `span(s, current, position)` is a fresh `span` with the (current) search class around one text child |
| Preview.HNode.TextToElem | v2/web/preview.ts:68-73 | the node becomes, in place, a `span` element with empty properties over the given children |
| Preview.CloneJson | v2/web/preview.ts:16-29 | the copy is made of fresh objects and stands for the same tree; the original is not modified |
| Preview.CloneChildren | v2/web/preview.ts:19-20 | the copied children are disjoint fresh trees standing for the original children in order |
| Preview.PushClone | v2/web/preview.ts:20 | one copied child is appended |
| Preview.PushLeftover | v2/web/preview.ts:88-97 | a text node is appended for a non-empty piece, nothing for an empty one |
| Preview.PushSpan | v2/web/preview.ts:93 | a highlight span is appended |
| Preview.PushPiece | v2/web/preview.ts:92-98 | one loop step appends a span and then the piece after it |
| Preview.BuildChildren | v2/web/preview.ts:87-98 | the loop builds exactly the specified children and advances the counter by one per match |
| Preview.VisitText | v2/web/preview.ts:76-104 | the visitor turns a text node into what the specification says, with the counter after it |
| Preview.Visit | v2/web/preview.ts:76-104 | walking a node rewrites it into `HighlightNode` of its old value, counter included |
| Preview.VisitChild | v2/web/preview.ts:76-104 | walking child `i` rewrites that child only; the parent keeps its fields and child list |
| Preview.VisitChildren | v2/web/preview.ts:76-104 | walking the children in order rewrites them into `HighlightSeq` of their old values |
| Preview.HighlightSeqSteps | v2/web/preview.ts:76-104 | walking siblings one at a time, threading the counter, is walking the whole sequence |
| Preview.Highlight | v2/web/preview.ts:43-105 | the tree becomes its highlighted value in place; an empty query leaves it as it was |
| Preview.SearchHast | v2/web/preview.ts:146-157 | the result is the highlighted tree; with a query it is a fresh copy and the cached tree is not modified; without one it is the cached tree itself |
| Preview.CacheThenHighlight | v2/web/preview.ts:119-126 | the cache holds the tree as parsed, while the rendered tree is highlighted with no current match |
| Palette.FilterItems | v2/web/components/Palette.tsx:46 | the filter keeps only items of the list that match, and never more items than given |
| Palette.Visible | v2/web/components/Palette.tsx:46 | what is on display is always the filtered list: the empty-query short cut shows exactly what the filter keeps |
| Palette.FilterMembership | v2/web/components/Palette.tsx:46 | an item is shown exactly when it is in the list and its lower-cased label includes the query |
| Palette.FilterKeepsMatches | v2/web/components/Palette.tsx:46 | no matching item is dropped |
| Palette.FilterIsSubsequence | v2/web/components/Palette.tsx:46 | the shown items keep their original order |
| Palette.FilterAppend | v2/web/components/Palette.tsx:46 | filtering a concatenation filters each part |
| Palette.FilterIdempotent | v2/web/components/Palette.tsx:46 | filtering twice by the same query is filtering once |
| Palette.FilterEmptyQuery | v2/web/components/Palette.tsx:46 | the empty query already matches every item |
| Palette.LastIndex | v2/web/components/Palette.tsx:84-88 | `max(length - 1, 0)` is a position of a non-empty list and no position is greater; 0 for an empty list |
| Palette.ClampIndex | v2/web/components/Palette.tsx:47 | the clamped index is the stored one when it is below the length, else length - 1, else 0; it is a valid position of a non-empty list and never above the stored index |
| Palette.ClampIdempotent | v2/web/components/Palette.tsx:47 | clamping a clamped index changes nothing |
| Palette.NextIndex | v2/web/components/Palette.tsx:72-76 | next lands on a valid position (0 on an empty list) |
| Palette.PrevIndex | v2/web/components/Palette.tsx:82-86 | previous lands on a valid position (0 on an empty list) |
| Palette.NextIsSuccessorModulo | v2/web/components/Palette.tsx:72-76 | next is `(index + 1) mod length` |
| Palette.PrevIsPredecessorModulo | v2/web/components/Palette.tsx:82-86 | previous is `(index - 1) mod length` |
| Palette.NextThenPrev | v2/web/components/Palette.tsx:72-86 | on a non-empty list, next then previous comes back to the clamped index |
| Palette.PrevThenNext | v2/web/components/Palette.tsx:72-86 | on a non-empty list, previous then next comes back to the clamped index |
| Palette.NextTimes | v2/web/components/Palette.tsx:72-76 | any number of next presses stays on a valid position |
| Palette.PrevTimes | v2/web/components/Palette.tsx:82-86 | any number of previous presses stays on a valid position |
| Palette.NextTimesThenPrevTimes | v2/web/components/Palette.tsx:72-86 | `k` presses of next followed by `k` presses of previous come back to the start |
| Palette.ScrollBlockSymmetric | v2/web/components/Palette.tsx:52 | the alignment is the same seen from either end of the list |
| Palette.ShortListsCenter | v2/web/components/Palette.tsx:52 | with one or two rows every row is centred |
| Palette.CommandOf | v2/web/components/Palette.tsx:66-104 | which key combinations mean next, previous, jump to end, jump to start and confirm; earlier tests win |
| Palette.EscapePasses | v2/web/components/Palette.tsx:95-103 | Escape is never taken as a navigation key |
| Palette.Palette.constructor | v2/web/components/Palette.tsx:43-44 | a new picker starts with an empty query and index 0 |
| Palette.Palette.Index | v2/web/components/Palette.tsx:47 | the index in use is a valid position of a non-empty shown list |
| Palette.Palette.HandleInput | v2/web/components/Palette.tsx:61-64 | typing stores the lower-cased input as the query, which is then free of upper-case letters, and leaves the stored index alone |
| Palette.Palette.HandleKeydown | v2/web/components/Palette.tsx:66-106 | each command stores the index the source computes from the clamped one; Enter reports the row under the selection exactly when the list is non-empty; only passed-through keys keep the default action; only Escape blurs |
| Palette.SelectedIsVisibleMatch | v2/web/components/Palette.tsx:46-94 | the row Enter reports is one of the given items and matches the query |
| Palette.TypedTextFindsItem | v2/web/components/Palette.tsx:46-64 | after typing a value, every item whose label contains it, in whatever letter case, is on display |
| Article.MeetIff | v2/web/components/Article.tsx:11 | two intervals share a point exactly when each starts before the other ends |
| Article.AppearIffSharesAPoint | v2/web/components/Article.tsx:7-13 | a well-formed rectangle appears exactly when it shares a point with the window |
| Article.VisibleIsNotScrolled | v2/web/components/Article.tsx:75-77 | an element with a point inside the window is never scrolled to |
| Article.ScrollIffOutOfView | v2/web/components/Article.tsx:75-77 | the page scrolls exactly when the last modified element exists and shares no point with the window |
| Article.TagOf | v2/web/components/Article.tsx:17 | the tag of each level is a heading tag |
| Article.LevelOf | v2/web/components/Article.tsx:18 | the level read off a heading tag is between 1 and 6 |
| Article.LevelOfTag | v2/web/components/Article.tsx:18 | the level read off the tag of a level is that level |
| Article.TagOfLevel | v2/web/components/Article.tsx:18 | a heading tag is the tag of the level read off it |
| Article.FirstAtOrBelow | v2/web/components/Article.tsx:25-31 | the first heading whose top is at or below `scrollTop`; none exactly when every top is above it |
| Article.FirstAtOrBelowIs | v2/web/components/Article.tsx:25-31 | a heading at or below `scrollTop` with every earlier top above it is that first heading |
| Article.CurrentIndex | v2/web/components/Article.tsx:23-31 | the current heading is a valid position; there is none exactly when every top is above `scrollTop` |
| Article.CurrentStartsVisibleSection | v2/web/components/Article.tsx:24-28 | the current heading lies above the bottom of the viewport, unless it is the first heading |
| Article.SteppedBackIsAbove | v2/web/components/Article.tsx:28 | when the scan steps back, the chosen heading is the previous one, above the viewport, and the found one is below it |
| Article.WorkedExample | v2/web/components/Article.tsx:23-31 | headings at 0, 100 and 300 with the viewport at 150 to 250: the one at 100 is current |
| Article.NoneCurrentBelowAll | v2/web/components/Article.tsx:25-31 | scrolled past every heading, none is current |
| Article.CollectHeadings | v2/web/components/Article.tsx:15-35 | one heading per element in document order, with the level read off the tag and the text content or ""; a heading is current exactly at `CurrentIndex` |
| Article.MarkCurrent | v2/web/components/Article.tsx:23-32 | the scan marks exactly the heading at `CurrentIndex` and changes nothing else |
| Article.AtMostOneCurrent | v2/web/components/Article.tsx:25-31 | two current headings are the same heading |
| Article.HeadingTracker.constructor | v2/web/components/Article.tsx:37 | the slot starts empty, with nothing pending |
| Article.HeadingTracker.Dispatch | v2/web/components/Article.tsx:38-63 | the pending recomputation, if any, is cancelled before a new one is scheduled into the slot; afterwards exactly that one is pending |
| Article.HeadingTracker.Fire | v2/web/components/Article.tsx:52-55 | a running callback is the one in the slot; it collects the headings and leaves the slot empty with nothing pending |
| Article.PendingAtMostOne | v2/web/components/Article.tsx:37-63 | under the tracker's invariant at most one recomputation is pending |

## Left out

- The unified/remark/rehype pipeline (Markdown parsing, GFM, front matter, highlight.js, sanitising, the
  conversion to React elements) consists of foreign library calls. `parseMarkdown` and `searchHast` are
  modelled only as far as the copy-then-highlight order goes. Their `async`/`Promise` plumbing and
  `stringify` are not modelled.
- The "FATAL: HAST cache was not created" error of `parseMarkdown` is not modelled. It can only fire when
  the pipeline never runs the plugin, and the pipeline is not part of this model.
- Preview.CloneJson: copies HAST trees only, field by field (`type`, `value`, `tagName`, `properties`,
  `children`, `position`). It does not model `cloneJson` on arbitrary JSON: other keys such as `data`,
  and non-object values.
- `properties` is modelled as a map from strings to strings. The class name of a highlight span is a plain
  string, as in the source. highlight.js's array-valued class names are not represented.
- A rewritten text node keeps its old `value` field, as in the source. The value model of an element
  ignores it.
- Only root, element and text nodes are modelled. The sanitize schema the pipeline uses drops comments,
  doctypes and raw HTML.
- `index` is `number | null`. It is modelled as an optional integer, so fractional indices are not modelled.
- Strings.Lower: ASCII only. The locale-aware Unicode `toLowerCase` of the source is not modelled.
- React and MUI rendering, `useState`/`useEffect`/`useRef`, and the `onClick` selection of a row are not
  modelled. React applies state setters at the next render. Within one event the handler reads the
  `index` of the current render, which is what `HandleKeydown` models.
- Palette.Palette.HandleKeydown: `onSelect`, `preventDefault` and `blur` are not called. They are reported
  in the outcome the method returns.
- `scrollIntoView` and its `behavior` options are not modelled. Only the `block` choice is.
- Browser geometry (`getBoundingClientRect`, `offsetTop`, `scrollTop`, `clientHeight`, the window size) is
  taken as given integers. Fractional pixel values are not modelled.
- `querySelectorAll` is not modelled. `CollectHeadings` receives the heading elements in document order.
  The selector `article > h1,h2,h3,h4,h5,h6` matches `h1` only as a child of the article, but `h2`–`h6`
  at any depth. The model takes whatever list the query returns.
- Article.CollectHeadings: requires each tag to be `H1`…`H6`. The selector guarantees this, so
  `parseInt` on any other tag is not modelled.
- The scheduler behind `dispatchHeadings` is modelled as one source of fresh handles with a set of live
  ones. `requestIdleCallback`/`cancelIdleCallback` and the `setTimeout`/`clearTimeout` fallback
  (100 ms) behave alike here. Timing is not modelled.
- The effects in `Article` that register the scroll listener and dispatch on a new root (lines 87-104) are
  not modelled. Each one just calls `dispatchHeadings`, which is modelled by `Dispatch`.
- Next and previous on an empty list store index 0 (v2/web/components/Palette.tsx:72-76, 82-86). The
  clamped index is 0 either way, but a stored index above 0 is reset.
