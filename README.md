# Blog content pipeline: a Dafny model

This project models the small core of an Astro blog. Its markdown goes
through two remark plugins, its content collections are filtered into
listings, and its feature images are cropped by a build script. The model
covers:

- **`advanceHeadings`**: the remark plugin that moves every heading one
  level deeper, capped at `<h6>`.
- **`remarkCodeBlocks`**: the remark plugin that turns every fenced `code`
  node, in place, into the MDX element `<CodeBlock code lang meta />`.
- **Entry selection**: `isPublished`, `isPinned`, `getFilteredEntries` and
  `getPublishedEntries`. `joinTags` joins an entry's tags with `" · "`.
- **Feature-image cropping** (`crop_feature.py`):
  - the sliding-window search for the 3:1 window of greatest entropy;
  - the table of save options by format and file size;
  - the `_crop` output name;
  - the scan rule that skips anything containing `"crop"`.

## Structure

- `Wrappers.dfy`: `Option` and `Result`.
- `Mdast.dfy`: the syntax tree, in two forms.
  - `Node` is a value.
  - `MdNode` is an object tree whose fields the plugins assign in place. `Abs()` gives the value it stands for.
  - `Visit` is the effect of unist-util-visit's `visit(tree, type, callback)`. It walks pre-order, calls the callback on each node of that type, then descends into that node's children as they are after the call.
- `AdvanceHeadings.dfy`: the heading plugin.
  - It is specified on values: `AdvanceHeadings`, with lemmas about every path of the tree.
  - It is implemented on `MdNode` (`AdvanceHeadingsInPlace`), which is proved to compute exactly `AdvanceHeadings` of the old tree.
- `RemarkPlugins.dfy`: the code-block plugin, built the same way. `ToCodeBlock` is the callback. `RemarkCodeBlocksInPlace` is the in-place walk.
- `Utils.dfy`: entries, the two predicates and the conjunctive filter.
- `CardUtils.dfy`: `joinTags`. A reference `Split` makes its round-trip statable.
- `CropFeature.dfy`: the cropping script. The loops of `entropy_crop_to_aspect` are methods proved against the functions `CropWindows`, `Scored`, `FirstMax` and `BestBox`.

## Model

| member | source | states |
|---|---|---|
| Mdast.Visit | src/utils/remarkPlugins.js:15-38 | the walk gives each visited node the callback's fields (others keep theirs), never adds children, and descends into the children left after the callback |
| Mdast.VisitAt | src/utils/remarkPlugins.js:15-38 | the result has a node exactly at the paths the walk reaches (no ancestor's children were cleared), and that node is the walk of the original node there |
| Mdast.ReachedAll | src/utils/advanceHeadings.js:6-8 | a callback that keeps children lets the walk reach every node of the tree |
| Mdast.VisitUnchanged | src/utils/advanceHeadings.js:6-8 | a walk whose callback leaves every matching node as it is returns the tree unchanged |
| Mdast.VisitFromParts | src/utils/remarkPlugins.js:15-38 | the walk's result is the callback's fields at the root plus the walk of each remaining child |
| Headings.NextDepth | src/utils/advanceHeadings.js:7 | a depth below 6 goes up by one, a depth of 6 or more becomes 6, and a missing depth stays missing |
| Headings.AdvanceHeading | src/utils/advanceHeadings.js:6-8 | the callback changes a heading's depth and no other field; a present depth becomes `min(depth + 1, 6)` and a missing one stays missing |
| Headings.AdvanceHeadings | src/utils/advanceHeadings.js:4-8 | at the root, the pass keeps the number of children and every field, except that a heading's depth advances |
| Headings.AdvanceHeadingsAt | src/utils/advanceHeadings.js:6-8 | the tree keeps its shape, every node keeps its fields, and only a heading's depth changes, to `min(depth + 1, 6)` |
| Headings.AdvancedHeadingsAtMostSix | src/utils/advanceHeadings.js:7 | after the pass no heading in the tree is deeper than 6 |
| Headings.AdvanceHeadingsKeepsOrder | src/utils/advanceHeadings.js:7 | a heading no deeper than another before the pass is no deeper after it |
| Headings.AdvanceHeadingsTwice | src/utils/advanceHeadings.js:7 | two passes move a heading to `min(depth + 2, 6)` |
| Headings.AdvanceHeadingsSaturated | src/utils/advanceHeadings.js:6-8 | a tree whose headings are all at depth 6 is unchanged by the pass |
| Headings.AdvanceHeadingsInPlace | src/utils/advanceHeadings.js:5-8 | assigning depths in place leaves the object tree valid, with the same footprint, standing for `AdvanceHeadings` of the old tree |
| Headings.AdvanceChildrenInPlace | src/utils/advanceHeadings.js:6 | after the walk into each child in turn, every child stands for its advanced old value |
| Headings.AdvanceChildInPlace | src/utils/advanceHeadings.js:6 | the walk into one child advances it and leaves its siblings unchanged |
| RemarkPlugins.Truthy | src/utils/remarkPlugins.js:20-21 | an optional string is truthy exactly when it is present and not empty |
| RemarkPlugins.Or | src/utils/remarkPlugins.js:20-21 | `s || fallback` gives the fallback when `s` is missing or empty and `s` itself otherwise |
| RemarkPlugins.AttributeValue | src/utils/remarkPlugins.js:30-34 | the lookup finds nothing exactly when no attribute has that name; a value it finds is the value of the first attribute with that name |
| RemarkPlugins.ToCodeBlock | src/utils/remarkPlugins.js:20-37 | the node becomes a childless `CodeBlock` flow element whose three `mdxJsxAttribute`s, in the order code, lang, meta, hold the raw code, the language (`"text"` when missing or empty) and the metadata (`""` when missing or empty), positionally; the node's depth, lang, meta and value stay |
| RemarkPlugins.CodeBlockLookups | src/utils/remarkPlugins.js:20-34 | looking the element's attributes up by name gives the raw code, the language when truthy (else `"text"`) and the metadata when truthy (else `""`) |
| RemarkPlugins.RemarkCodeBlocks | src/utils/remarkPlugins.js:13-40 | a `code` root becomes its `CodeBlock` element; any other root keeps its fields and its number of children |
| RemarkPlugins.ReachedOutsideCode | src/utils/remarkPlugins.js:15-37 | the walk reaches exactly the nodes with no code node above them, because a rewritten node's children are cleared |
| RemarkPlugins.RemarkCodeBlocksAt | src/utils/remarkPlugins.js:15-38 | nodes survive exactly at paths with no code node above them; a code node there is its `CodeBlock` element, and any other node keeps its fields and child count |
| RemarkPlugins.NoCodeRemains | src/utils/remarkPlugins.js:15-38 | after the pass no `code` node is left in the tree |
| RemarkPlugins.NoCodeAtAnyPath | src/utils/remarkPlugins.js:15-38 | whatever node the pass leaves at any path is not a `code` node |
| RemarkPlugins.RemarkCodeBlocksIdempotent | src/utils/remarkPlugins.js:13-40 | a second pass changes nothing |
| RemarkPlugins.RemarkCodeBlocksInPlace | src/utils/remarkPlugins.js:14-38 | overwriting the code nodes' fields in place leaves the object tree valid, with the same footprint, standing for `RemarkCodeBlocks` of the old tree |
| RemarkPlugins.RewriteChildrenInPlace | src/utils/remarkPlugins.js:15 | after the walk into each child in turn, every child stands for its rewritten old value |
| RemarkPlugins.RewriteChildInPlace | src/utils/remarkPlugins.js:15 | the walk into one child rewrites it and leaves its siblings unchanged |
| Utils.IsPublished | src/utils.js:3 | an entry is published exactly when `draft` is missing or false |
| Utils.IsPinned | src/utils.js:4 | an entry is pinned exactly when `pinned` is present and true |
| Utils.PassesAll | src/utils.js:9 | an entry passes exactly when every filter in the list accepts it, so the empty list accepts everything |
| Utils.FilteredEntries | src/utils.js:7-10 | an entry is kept exactly when it passes every filter, as many times as it occurs, in its original order |
| Utils.NoFiltersKeepAll | src/utils.js:7-9 | with the default empty filter list the whole collection is returned |
| Utils.FilterIdempotent | src/utils.js:9 | filtering a filtered list again with the same filters changes nothing |
| Utils.MoreFiltersFewerEntries | src/utils.js:9 | adding filters gives a subsequence of the result before |
| Utils.PublishedEntries | src/utils.js:13-17 | the listing is a subsequence of the collection, holding only published entries, and only pinned ones when `pinned` is set |
| Utils.PublishedEntriesMembers | src/utils.js:13-17 | `getPublishedEntries` keeps exactly the published entries, and only the pinned ones when `pinned` is set |
| Utils.PinnedWithinPublished | src/utils.js:13-17 | the pinned listing is a subsequence of the published listing |
| CardUtils.Join | src/utils/cardUtils.js:12-15 | the joined string is as long as the tags plus three characters per separator |
| CardUtils.JoinTags | src/utils/cardUtils.js:12-15 | no tags give `""`, one tag gives that tag, and otherwise the result is the tags' length plus three characters per separator |
| CardUtils.JoinLayout | src/utils/cardUtils.js:14 | tag `k` sits in the joined string after the earlier tags and one separator each, followed by `" · "` unless it is the last tag |
| CardUtils.FindSeparator | src/utils/cardUtils.js:14 | the index found holds the separator and no earlier index does; none is found only when the string holds no separator |
| CardUtils.SplitJoin | src/utils/cardUtils.js:14 | splitting the join of a non-empty tag list at `" · "` gives the list back when no tag holds a middle dot |
| CardUtils.JoinTagsRoundTrip | src/utils/cardUtils.js:12-15 | an entry's joined tags split back into its tags, under the same condition |
| CardUtils.SplitJoinNeedsNoDot | src/utils/cardUtils.js:14 | the tags `["x ·", "y"]` hold no separator, yet their join splits back as `["x", "· y"]` |
| CropFeature.Stride | build_utils/crop_feature.py:85 | the stride equals the truncated step whenever that is at least 1 and is exactly 1 otherwise |
| CropFeature.RangeEnds | build_utils/crop_feature.py:85 | the offsets start at `start`, and the last one is below `stop` but within a stride of it |
| CropFeature.RangeBounds | build_utils/crop_feature.py:85 | every offset lies in `[start, stop)` |
| CropFeature.RangeSteps | build_utils/crop_feature.py:85 | consecutive offsets are exactly one stride apart |
| CropFeature.FirstMax | build_utils/crop_feature.py:109 | the chosen region has the greatest entropy, and every region before it has strictly less, as Python's `max` returns the first maximum |
| CropFeature.CropWindowsFit | build_utils/crop_feature.py:77-101 | every window lies inside the image and is either full width and `w // 3` high or full height and `h * 3` wide |
| CropFeature.Windows | build_utils/crop_feature.py:82-103 | there is one window per offset of each loop that runs, and none exactly when neither window size fits the image |
| CropFeature.AspectFits | build_utils/crop_feature.py:76-94 | whatever the image size, the full-width window fits or the full-height window does |
| CropFeature.CropWindows | build_utils/crop_feature.py:76-106 | at least one window is always tried, so the "too small" error is never raised |
| CropFeature.BestBox | build_utils/crop_feature.py:105-112 | the selected box is one of the windows tried |
| CropFeature.BestCrop | build_utils/crop_feature.py:105-112 | the selected box is one of the candidate windows, with every earlier window scoring strictly less; it lies inside the image, full width and `w // 3` high or full height and `h * 3` wide; and no window scores higher |
| CropFeature.FeatureCropIsThreeToOne | build_utils/crop_feature.py:76-112 | at `ASPECT_RATIO = 3` the chosen crop lies inside the image and its width is three times its height, up to the truncation of `w / 3` |
| CropFeature.EntropyCropToAspect | build_utils/crop_feature.py:62-112 | the two loops and the selection return, without error, exactly the box `BestBox` names: the first window of greatest entropy among the windows tried (its properties are those of `BestCrop`) |
| CropFeature.SlideDown | build_utils/crop_feature.py:82-91 | the first loop collects the scored full-width windows at each offset of `range(0, max_row + 1, stride)`, in order |
| CropFeature.SlideRight | build_utils/crop_feature.py:94-103 | the second loop collects the scored full-height windows at each offset of `range(0, max_col + 1, stride)`, in order |
| CropFeature.SelectBest | build_utils/crop_feature.py:109 | the scan returns the index of the first region of greatest entropy |
| CropFeature.JpegQuality | build_utils/crop_feature.py:131-136 | the quality is 85 exactly above 1000 KB, 90 exactly in (500, 1000] KB, and 95 exactly at or below 500 KB |
| CropFeature.GetSaveOptions | build_utils/crop_feature.py:127-157 | every format gets `optimize`; JPEG gets its size-based quality and `progressive`; PNG gets compress level 6; WEBP gets quality 85; any other format gets nothing else |
| CropFeature.JpegQualityNonIncreasing | build_utils/crop_feature.py:129-136 | a larger file never gets a higher JPEG quality |
| CropFeature.JpegQualityByBytes | build_utils/crop_feature.py:164 | measured in bytes (`st_size / 1024`), the JPEG thresholds fall at 1,024,000 and 512,000 bytes |
| CropFeature.LastDot | build_utils/crop_feature.py:161 | the index found holds the last dot of the name; none is found only when the name has no dot |
| CropFeature.Suffix | build_utils/crop_feature.py:161 | the suffix is an ending of the name, either empty or a dot followed by at least one character |
| CropFeature.SuffixWhenInnerDot | build_utils/crop_feature.py:161 | a name has a suffix exactly when it is at least two characters long, does not end in a dot, and has a dot after its first character |
| CropFeature.Stem | build_utils/crop_feature.py:161 | the stem is a beginning of the name |
| CropFeature.StemThenSuffix | build_utils/crop_feature.py:161 | a name is its stem followed by its suffix; a non-empty suffix is one dot followed by no other, after a non-empty stem |
| CropFeature.OutputPath | build_utils/crop_feature.py:161 | the output stays in the same directory, its name five characters longer, and a name without suffix just gains `_crop` |
| CropFeature.OutputNameKeepsSuffix | build_utils/crop_feature.py:161 | the output sits in the same directory; when the name has a suffix, the output keeps it, and the output's stem is the old stem plus `_crop` |
| CropFeature.OutputContainsCrop | build_utils/crop_feature.py:161 | every output path contains `"crop"` |
| CropFeature.MatchesFeatureGlob | build_utils/crop_feature.py:25 | a name matches `feature_*.*` exactly when it starts with `feature_` and its last dot comes after that prefix |
| CropFeature.PathString | build_utils/crop_feature.py:26 | a path's text ends with its name, and is just the name when there is no parent |
| CropFeature.FeatureImages | build_utils/crop_feature.py:24-29 | a path is yielded exactly when the walk found it, its name matches `feature_*.*`, its text holds no `"crop"`, and it is a file |
| CropFeature.OutputMatchesGlob | build_utils/crop_feature.py:25 | the output of a feature image matches the scan's glob, so only the `"crop"` rule keeps it out |
| CropFeature.OutputsNeverRescanned | build_utils/crop_feature.py:24-29 | no output path is ever yielded by a later scan |

## Left out

- `remarkReadingTime`, `formatDate` and `readTime` are left out. They are thin calls into libraries: reading-time, mdast-util-to-string and `toLocaleDateString`.
- Collections come from `getCollection`, whose loading is outside the model. A collection is passed in as a sequence, and `async`/`await` is not modelled.
- `getPublishedEntries` only filters. The code has no development-mode override for drafts and no date sort, so neither is modelled.
- `shannon_entropy` and `image_entropy` are left out, because pixel data and floating-point histograms are not modelled. A window's entropy is an arbitrary function from its box to a real. NaN scores, which Python's `max` compares differently from reals, are not modelled.
- `optimize_image` is left out (a resize done by Pillow). So are the I/O of `process_image`: opening, converting, saving, `stat`, catching exceptions and printing. The `debug` output and `main`'s loop are also left out.
- Mdast.Visit:
  - models only callbacks that return nothing, as both plugins' callbacks do. unist-util-visit's `SKIP`/`EXIT` return values are not modelled.
  - It models only callbacks that keep or clear a node's children. Callbacks that replace children with new nodes are not modelled.
  - The walk is recursion rather than the library's explicit stack.
- Headings.NextDepth: a heading without a depth keeps none. The source would store `NaN` there, but mdast headings always carry a depth.
- CropFeature.EntropyCropToAspect:
  - The aspect ratio is a positive integer, as the script's `ASPECT_RATIO = 3` is. Python's `int(w / 3)` is then Dafny's `w / 3`.
  - The strides' raw values `int(step * h)` and `int(step * w)` are parameters, because the floating-point product with `SLIDE_STEP = 0.02` is not modelled.
  - The method returns the chosen box, not the cropped image.
- CropFeature.FeatureImages:
  - The paths under the root come in as a sequence in walk order, with `is_file` as a parameter.
  - A path's text is its parent as written, `/`, then its name. Platform separators and case-insensitive globbing are not modelled.
- Names are split into stem and suffix by pathlib's rule up to Python 3.13: the suffix starts at the last dot, unless that dot starts or ends the name. Python 3.14 also treats a single trailing dot as a suffix; that rule is not modelled.
- CardUtils.JoinTagsRoundTrip assumes no tag contains a middle dot. Ruling out only the whole separator `" · "` is not enough: `["x ·", "y"]` joins to `"x · · y"`, which splits back as `["x", "· y"]`. `CardUtils.SplitJoinNeedsNoDot` proves this example. The source only joins, so this is a limit of the round trip and not a defect.
