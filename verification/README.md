# htmlToMd — a verified model of the HTML-to-Markdown scraper

The repository's only behaviour is the `Convert` class in
`scripts/htmlToMd.js`. It holds a root element (`mainEl`). `getMarkdown`
walks that element's direct element children in document order and appends
what `parse` returns for each one:

- an `H1` gives `"# "`, the heading text, and a newline. The heading text
  (`getHtext`) is the element's flattened text with the first occurrence of
  the two-character anchor artifact `Â¶` removed;
- a `P` gives its flattened text between two newlines;
- a `SPAN`, and any other tag, gives the empty string.

The model has four modules:

- `Wrappers` (`wrappers.dfy`): an `Option` type.
- `JsString` (`js_string.dfy`): the `indexOf` search and the
  first-occurrence `String.prototype.replace(pattern, '')` that `getHtext`
  relies on.
- `Dom` (`dom.dfy`): the DOM slice that jQuery reads. A `Node` is a text
  node, a comment or an element with child nodes. The module defines
  `nodeName`, `.text()` (all descendant character data in order) and
  `.children()` (element children only, in order).
- `HtmlToMd` (`html_to_md.dfy`):
  - `getHtext` as `HeadingText` and `parse` as `Parse`, both functions;
  - `Markdown`, the specification of `getMarkdown`: the contributions of a
    list of children, concatenated in order;
  - the class `Convert`. Its `mainEl` field is a constant set by the
    constructor (the source never reassigns it), and its `GetMarkdown`
    method is the source's accumulating loop, proved against `Markdown`.

Two consequences of the code as written:

- Only the two characters `Â¶` (U+00C2 U+00B6) are stripped from headings,
  and only their first occurrence. A correctly decoded `¶` on its own is
  kept, so a heading text `"Overview¶"` gives `"# Overview¶\n"`
  (`LonePilcrowKept`, `HeadingLeafWithoutArtifact`).
- The model takes a resolved root. A selector that matches nothing gives an
  empty jQuery set with no children, so `getMarkdown` returns the empty
  string; the model gets the same output for a root without element
  children. Construction itself can throw, on a malformed selector or when
  `options` is undefined (scripts/htmlToMd.js:5); see "Left out".

## Model

| member | source | states |
|---|---|---|
| `Dom.NodeName` | scripts/htmlToMd.js:23 | an element's node name is its tag name; text and comment nodes have names starting with `#`, so they never equal `H1`, `P` or `SPAN` |
| `Dom.TextContent` | scripts/htmlToMd.js:44 | `.text()`: a text node's data, nothing for a comment, and an element's children's texts in document order; see `TextOfLeaf`, `TextOfAllAround` |
| `Dom.TextOfAll` | scripts/htmlToMd.js:34 | the flattened text of a sibling list, which `.text()` returns for an element; its contract is `TextOfAllAppend` (document order) |
| `Dom.TextOfAllAppend` | scripts/htmlToMd.js:34 | the flattened text of a sibling list `a + b` is the text of `a` followed by the text of `b` (document order) |
| `Dom.TextOfAllAround` | scripts/htmlToMd.js:44 | a node's text sits between the texts of its left and right siblings in the parent's flattened text |
| `Dom.TextOfLeaf` | scripts/htmlToMd.js:44 | an element holding a single text node has exactly that node's text |
| `Dom.ElementsOf` | scripts/htmlToMd.js:14 | keeping only the element nodes of a list never lengthens it |
| `Dom.ElementsOfMembers` | scripts/htmlToMd.js:14 | a node is in the element list iff it is in the original list and is an element |
| `Dom.ElementsOfAppend` | scripts/htmlToMd.js:14 | keeping only elements commutes with concatenation, so children keep their document order |
| `Dom.ElementsOfSkips` | scripts/htmlToMd.js:14 | a text or comment node between siblings is not among the element children |
| `Dom.ElementsOfAllElements` | scripts/htmlToMd.js:14 | a list made only of elements is its own element list |
| `Dom.Children` | scripts/htmlToMd.js:14 | `.children()`: the element nodes directly under an element, in document order; its contracts are `ChildrenMembers` (exactly those nodes) and `ElementsOfAppend` (order kept) |
| `Dom.ChildrenMembers` | scripts/htmlToMd.js:8-10 | `children()` yields exactly the element nodes directly under an element, and nothing for a non-element |
| `JsString.IndexOf` | scripts/htmlToMd.js:45 | the search finds the leftmost occurrence of the pattern, or reports none when there is no occurrence at any index |
| `JsString.RemoveFirst` | scripts/htmlToMd.js:45 | with no occurrence the string comes back unchanged; otherwise the result is the part before the leftmost occurrence followed by the part after it |
| `JsString.RemoveFirstLength` | scripts/htmlToMd.js:45 | removing the leftmost occurrence shortens the string by the pattern's length |
| `JsString.RemoveFirstUndo` | scripts/htmlToMd.js:45 | putting the pattern back at the cut restores the original string (round trip) |
| `JsString.RemoveFirstPrefixClean` | scripts/htmlToMd.js:45 | the part of the result before the cut contains no occurrence of the pattern |
| `JsString.LaterOccurrencesSurvive` | scripts/htmlToMd.js:45 | every occurrence starting after the end of the first is still in the result, shifted left by the pattern's length |
| `HtmlToMd.HeadingText` | scripts/htmlToMd.js:43-46 | heading text without `Â¶` is unchanged; otherwise exactly the first `Â¶` is cut out and the text is 2 characters shorter |
| `HtmlToMd.LaterArtifactsSurvive` | scripts/htmlToMd.js:43-46 | only the first `Â¶` of a heading is removed: every later `Â¶` (none can overlap the first) is still in the heading text, two characters further left |
| `HtmlToMd.HeadingWithoutArtifact` | scripts/htmlToMd.js:44-45 | heading text containing no `Â` is returned unchanged |
| `HtmlToMd.TrailingArtifactStripped` | scripts/htmlToMd.js:44-45 | heading text whose only `Â` starts a trailing `Â¶` loses exactly that artifact |
| `HtmlToMd.LonePilcrowKept` | scripts/htmlToMd.js:45 | a lone `¶` (without `Â`) is not stripped: the heading text `Overview¶` comes back unchanged |
| `HtmlToMd.Parse` | scripts/htmlToMd.js:22-41 | one child's contribution chosen by its node name; its contracts are `ParseHeading` (`H1`), `ParseParagraph` (`P`) and `ParseEmptyIff` (`SPAN` and every other name give nothing) |
| `HtmlToMd.ParseHeading` | scripts/htmlToMd.js:30-32 | an `H1` contribution reads back as `"# "`, the cleaned heading text, and a final newline |
| `HtmlToMd.ParseParagraph` | scripts/htmlToMd.js:33-35 | a `P` contribution reads back as a newline, the paragraph's full flattened text, and a newline |
| `HtmlToMd.ParseEmptyIff` | scripts/htmlToMd.js:26-39 | a child contributes the empty string iff its tag is neither `H1` nor `P` (so `SPAN` and unknown tags give nothing whatever their content, and `H1`/`P` always give something) |
| `HtmlToMd.HeadingLeafWithoutArtifact` | scripts/htmlToMd.js:30-32 | an `H1` whose single text node has no `Â` renders as `"# " + text + "\n"` |
| `HtmlToMd.HeadingWithTrailingArtifact` | scripts/htmlToMd.js:30-32 | an `H1` whose single text node is `text + "Â¶"` renders as `"# " + text + "\n"` |
| `HtmlToMd.ConcatMapAppend` | scripts/htmlToMd.js:16-18 | accumulating renderings over `a + b` gives the result for `a` followed by the result for `b` |
| `HtmlToMd.Markdown` | scripts/htmlToMd.js:12-20 | what `getMarkdown` returns for a list of children: their contributions concatenated in order; its contracts are `MarkdownAppend`, `MarkdownCons`, `MarkdownEmptyIff` and `MarkdownSeesNameAndText`, and `Convert.GetMarkdown` is proved equal to it |
| `HtmlToMd.MarkdownAppend` | scripts/htmlToMd.js:14-19 | output order follows child order: converting `a + b` is converting `a`, then `b` |
| `HtmlToMd.MarkdownCons` | scripts/htmlToMd.js:16-18 | the first child's contribution comes first, followed by the rest |
| `HtmlToMd.MarkdownEmptyIff` | scripts/htmlToMd.js:12-41 | the output is empty iff no direct child is an `H1` or a `P` |
| `HtmlToMd.MarkdownSeesNameAndText` | scripts/htmlToMd.js:12-41 | shallow traversal: two child lists whose members agree pointwise on node name and flattened text convert to the same string, whatever their inner structure |
| `HtmlToMd.NestedHeadingInParagraph` | scripts/htmlToMd.js:33-35 | an `H1` nested in a `P` shows up only as plain text inside the paragraph, with no `# ` and no artifact stripping |
| `HtmlToMd.RootSplit` | scripts/htmlToMd.js:14-18 | splitting the root's child list into `a + b` splits the output into the output for `a` followed by the output for `b` |
| `HtmlToMd.EndToEnd` | scripts/htmlToMd.js:12-41 | a root holding a heading with an artifact, a text node, a paragraph, a span and a second heading with an artifact converts to the two cleaned heading lines around the paragraph block |
| `HtmlToMd.Convert.constructor` | scripts/htmlToMd.js:4-6 | the converter holds the given, already resolved root element; `mainEl` is a constant field, never written after construction |
| `HtmlToMd.Convert.GetMarkdown` | scripts/htmlToMd.js:12-20 | the loop returns exactly the in-order concatenation of the contributions of the root's direct element children; it has no `modifies` clause, so it writes no field |
| `HtmlToMd.ConvertTwice` | scripts/htmlToMd.js:12-20 | two conversions of the same converter return the same string, since its root cannot change |

## Left out

- Selector resolution `$(options.el)` (scripts/htmlToMd.js:5) is a jQuery call. The constructor takes the root as an already resolved node. An unmatched selector gives an empty jQuery set, whose `children()` is empty. The model gets the same empty output for a root without element children. A selector that matches several elements (jQuery would collect the children of all of them) is not modelled. Neither is the exception that construction raises when `options` is undefined or `options.el` is a malformed selector.
- The `console.log` tracing in `parse` (scripts/htmlToMd.js:25) and of the result (scripts/htmlToMd.js:53) is diagnostic output.
- The top-level instantiation on a fixed page selector (scripts/htmlToMd.js:49-53) is script plumbing.
- `getChilden` (scripts/htmlToMd.js:8-10) is never called. It is `.children()`, which the model has once, as `Dom.Children`.
- DOM mutation by another actor during a conversion is not modelled: the tree is an immutable value.
- CDATA sections and processing instructions are not modelled, because HTML documents do not contain them. Elements such as `SCRIPT` and `STYLE` are ordinary elements here, and their text counts in `.text()` as it does in the browser.
- Tag names are compared exactly as given. Upper case comes from the HTML parser, which is not part of this model.
- JavaScript strings count UTF-16 code units; Dafny's `char` is a Unicode scalar value. This changes only lengths for characters outside the Basic Multilingual Plane, and never which text is kept: the artifact and the markup characters are all in the BMP.
- `JsString.RemoveFirst` models `replace` only with the empty replacement, the one the source uses. The `$`-patterns that a non-empty replacement string may hold are not modelled.
- The configuration files are not modelled: sidebars, navbars, locales, themes and the site configs under docs/.vuepress and teadocs.config.js. They are data literals for the site generator, with no operations.
- The MathJax polling script in docs/.vuepress/config.js is not modelled. It is a browser timer driving a foreign library.
