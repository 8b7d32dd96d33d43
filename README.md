# Movie character network: a verified model of its core

The repository is a browser application. It reads a YAML database of movies, with each
movie's characters, relationships and plot. It draws the characters of one selected
movie as a vis.js network and shows the movie's plot in a side panel. When a character
is chosen, the panel highlights the sentences that mention that character, and inside
them every variant of the character's name.

This project models the logic behind that in Dafny and proves what it computes.

- **Master tables** (`DataProcessor`, file `dataprocessor.dfy`). The class
  `DataStore` holds the module-level state of `js/dataProcessor.js`: the loaded
  movies, the character-key map and the master node and edge lists. Its methods are
  the two passes of `_processAllDataFromYamlInternal`, the loading wrapper and the
  title list of the movie selector. Each method is proved equal to a function of the
  loaded data. Lemmas then characterise those functions.
- **Network** (`NetworkManager`, file `networkmanager.dfy`).
  - The subset of `updateNetworkForMovie` the network sees: the chosen movie's nodes
    and edges, degree counting, the vis node and edge records with their sizes and
    ids, and the hidden helper edges that pull each group together.
  - The plot-panel text the update produces.
  - The class `NetworkView` holds the plot-panel variables and what the vis data sets
    contain.
- **Plot highlighter** (`NameParts`, `NameHighlight`, `Passages`, `PlotHighlighter`).
  - The name variants of a character (`getCharacterNameParts`).
  - Inline highlighting of the variants in a text segment.
  - Location of the "passages" around each name hit, and their merge.
  - The per-line rendering of the whole plot.
- **Utilities** (`Utils`): HTML escaping, regular-expression escaping, slugs, edge
  width and node label size.
- **Support** (`Strings`, `Markup`, `Intervals`, `Config`).
  - String functions as the source uses them. Whitespace is JavaScript's `\s` set.
    Case-insensitive matching lower-cases ASCII letters.
  - A reading of emitted HTML. `Markup.Render` decodes the five entities, turns
    `<br>` into a newline and skips other tags. It gives each visible character
    together with the stack of `<span>` tags open at that point. `Markup.Text` is the
    decoded text, and `Markup.WellFormed(s, tags)` says that `s` uses only the tags
    in `tags`.
  - Spans and their insertion sort.
  - The configuration constants.

The rendering contracts use this reading of HTML. For example, the highlighted plot
shows exactly the plot's text. Each character is shown inside the span class of the
passage that covers it, or the faded class. Name matches sit in one more span.

Interfaces to the browser become parameters or results:

- the fetched YAML is a parameter of `LoadAndProcessData`;
- whether the vis network exists is a constructor parameter of `NetworkView`;
- the `displayFn` call of `highlightCharacterInPlot` becomes its results;
- the `onMovieChangeCallback` of `populateMovieSelector` is not modelled.

Falsy JavaScript values (`undefined`, `null`, `''`) of text fields are the empty
string. A movie title is an `Option`, because an absent title is a distinct member of
the selector's set and sorts last.

Where the code and its comments differ, the model follows the code. The merge of
passages in `findStyledPassages` joins only overlapping passages (`<`). Two touching
passages stay separate (`Passages.TouchingStayApart`), although the comment speaks of
adjacent ones. The two boundary
corrections at `js/plotHighlighter.js` lines 119-121 and 138-140 are modelled. Their
conditions can only hold when the correction gives back the value already computed,
and the contracts of `Passages.PassageStart` and `Passages.PassageEnd` prove this.

## Model

| member | source | states |
|---|---|---|
| Strings.Trim | js/plotHighlighter.js:15 | the result is a slice of the input with only whitespace before and after it and none at its own ends, and it is empty exactly when the input is blank |
| Strings.Tokens | js/plotHighlighter.js:16 | `split(/\s+/)` with empty pieces dropped: every token is non-empty and holds no whitespace; there are none exactly when the text is blank |
| Strings.TokensAreSplit | js/plotHighlighter.js:16 | the tokens are exactly the non-empty pieces between single whitespace characters, in order: the maximal whitespace-free runs |
| Strings.FirstToken | js/plotHighlighter.js:17 | for a name that starts with a non-space character, the first token is its first whitespace-free run |
| Strings.OccurrencesSound | js/plotHighlighter.js:44-46 | every position a global case-insensitive `exec` loop reports is a match, in increasing and non-overlapping order |
| Strings.OccurrencesComplete | js/plotHighlighter.js:44-46 | every match position lies inside the span of some reported occurrence |
| Strings.SplitJoin | js/plotHighlighter.js:186 | joining the lines of `split('\n')` with newlines gives back the plot |
| Strings.SplitLinesNoBreak | js/plotHighlighter.js:186 | no line of `split('\n')` holds a newline |
| Strings.LineAtOffset | js/plotHighlighter.js:192-194 | the running index `currentIndexInRawPlot` is where each line starts in the plot, and the line is the plot's slice there |
| Strings.NatToStringRoundTrip | js/networkManager.js:56 | the decimal text an id is interpolated as reads back as that number |
| Utils.HtmlEscape | js/utils.js:7-10 | the chained replacements escape each character on its own (`&` first, so no entity is escaped twice) |
| Utils.HtmlEscapeShows | js/utils.js:7-10 | escaped text holds no tag, and it displays as exactly the original characters, unstyled |
| Utils.HtmlEscapeRoundTrip | js/utils.js:7-10 | decoding escaped text gives back the original, and it opens no span |
| Utils.HtmlEscapeNoRaw | js/utils.js:9 | escaped text holds no raw `<`, `>`, `"` or `'` |
| Utils.HtmlEscapeIdentity | js/utils.js:7-10 | text without any of the five special characters is left unchanged |
| Utils.EscapeRegExp | js/utils.js:101-103 | escaping never shortens the text |
| Utils.EscapeRegExpIsLiteral | js/utils.js:101-103 | read as a regular expression, the escaped text is the literal pattern of the original, with every metacharacter quoted |
| Utils.EscapeRegExpIdentity | js/utils.js:101-103 | text without metacharacters is left unchanged |
| Utils.LowerAll | js/utils.js:93 | every ASCII capital becomes its small letter in place, and every other character is kept |
| Utils.KeepSlugChars | js/utils.js:95 | only `a-z`, `0-9`, `-` and whitespace remain |
| Utils.CollapseGivesCollapsed | js/utils.js:96 | after collapsing, only `a-z`, `0-9` and `-` remain, never two hyphens in a row, and a leading hyphen comes only from a leading separator |
| Utils.StripKeepsCollapsed | js/utils.js:97 | after stripping the hyphens at both ends, the text is empty or a slug |
| Utils.SlugifyOutcomes | js/utils.js:90-99 | empty text gives "unknown"; any other text gives "slug_error" or a slug (lower-case letters, digits and single inner hyphens) |
| Utils.SlugIsFixedPoint | js/utils.js:90-99 | a slug is its own slug |
| Utils.SlugifyIdempotent | js/utils.js:90-99 | slugifying a slug-producing text twice gives the same slug |
| Utils.GetEdgeWidth | js/utils.js:34-40 | the width is between 1 and 25, and above 1 exactly for strengths 2 to 5 |
| Utils.EdgeWidthMonotone | js/utils.js:34-40 | among the strengths 1 to 5, a greater strength never gives a narrower edge |
| Utils.CalculateNodeFontSize | js/utils.js:42-44 | for a degree of at least 0 the size is between 20 and 44, and it is 44 exactly from degree 5 on |
| Utils.NodeFontSizeMonotone | js/utils.js:42-44 | a greater degree never gives a smaller label |
| NameParts.GetCharacterNameParts | js/plotHighlighter.js:5-14 | an empty name gives the empty record; otherwise the record keeps the full name |
| NameParts.CleanedName | js/plotHighlighter.js:15 | the suffix is cut at the leftmost place the suffix pattern matches (or nowhere); the cleaned name is a slice of what precedes it with only whitespace around it there, and none at its own ends |
| NameParts.ParenSuffixStart | js/plotHighlighter.js:15 | the leftmost position from which whitespace, `(`, a `)` with no line terminator between and only whitespace after it run to the end of the name, or the length when there is none |
| NameParts.CloseParenFrom | js/plotHighlighter.js:15 | true exactly when a `)` followed only by whitespace occurs at or after the position with no line terminator before it |
| NameParts.FirstAndLastName | js/plotHighlighter.js:16-18 | the first name is set exactly when there is a token, and is the first one; the last name is set exactly when there are two or more, and is the last one |
| NameParts.AddIfNew | js/plotHighlighter.js:20-24 | `Set.add`: the members are the old ones plus the new value, and no value appears twice |
| NameParts.CandidatesFacts | js/plotHighlighter.js:20-24 | the set holds exactly the variants the four guarded `add` calls admit, without duplicates |
| NameParts.InsertByLength | js/plotHighlighter.js:31 | inserting keeps every element |
| NameParts.SortLongestFirstSorted | js/plotHighlighter.js:31 | the sort orders by decreasing length and permutes its input |
| NameParts.SortLongestFirstStable | js/plotHighlighter.js:31 | the sort is stable: the strings of each length keep their insertion order |
| NameParts.SortLongestFirstDistinct | js/plotHighlighter.js:31 | the sort keeps the values distinct |
| NameParts.AssembleFacts | js/plotHighlighter.js:20-31 | the parts are exactly the admitted variants, distinct, longest first, each longer than 2, in stable order |
| NameParts.VariantsOfName | js/plotHighlighter.js:5-33 | for any name, `allUniqueParts` is exactly its admitted variants, distinct, longest first, stable, and each longer than 2 characters |
| NameHighlight.ScanVariant | js/plotHighlighter.js:42-46 | the `exec` loop of one variant collects its successive non-overlapping occurrences |
| NameHighlight.FindNameMatches | js/plotHighlighter.js:40-47 | the loops over all variants collect the matches of each variant in variant order |
| NameHighlight.VariantMatchesSound | js/plotHighlighter.js:44-46 | every collected span is a case-insensitive occurrence of the variant |
| NameHighlight.VariantMatchesComplete | js/plotHighlighter.js:44-46 | every occurrence position of the variant lies in some collected span |
| NameHighlight.AllMatchesSound | js/plotHighlighter.js:40-47 | every match is an occurrence of one of the variants |
| NameHighlight.AllMatchesComplete | js/plotHighlighter.js:40-47 | every occurrence of every variant is covered by a collected match of that variant |
| NameHighlight.SelectNonOverlapping | js/plotHighlighter.js:54-63 | the loop keeps the matches that start at or after the end of the last kept one |
| NameHighlight.SelectChain | js/plotHighlighter.js:52-63 | the kept matches are non-empty, in order, pairwise disjoint and inside the segment |
| NameHighlight.SelectSubset | js/plotHighlighter.js:54-63 | every kept match is a match that starts after the last end |
| NameHighlight.SelectCovers | js/plotHighlighter.js:54-63 | every skipped match starts inside a kept one |
| NameHighlight.SelectLongest | js/plotHighlighter.js:52-63 | of the matches at one start, the kept one is a longest |
| NameHighlight.SelectedFacts | js/plotHighlighter.js:49-63 | after the sort, the selection is sound, pairwise disjoint, covers the start of every match and prefers the longest at each start |
| NameHighlight.EmitHighlighted | js/plotHighlighter.js:65-77 | the emitted HTML is the escaped gaps and the escaped match texts wrapped in `highlighted-character` spans |
| NameHighlight.EmitShows | js/plotHighlighter.js:65-77 | the emitted HTML uses only the character span, is balanced, and shows each character of the segment, inside the span exactly when it is in a kept match |
| NameHighlight.HighlightShows | js/plotHighlighter.js:35-78 | the same for the whole function, including the escape-only fallbacks |
| NameHighlight.HighlightText | js/plotHighlighter.js:35-78 | the text of the highlighted HTML is the segment |
| NameHighlight.HighlightAllNamePartsInText | js/plotHighlighter.js:35-78 | the HTML uses only the character span, displays exactly the segment, and shades exactly the selected matches |
| Intervals.Insert | js/plotHighlighter.js:52 | inserting a span adds it once and keeps every other |
| Intervals.SortSpansSorted | js/plotHighlighter.js:52 | the sort orders by start, and longest first at equal starts when asked |
| Intervals.SortSpansPermutes | js/plotHighlighter.js:101 | the sort permutes its input |
| Intervals.SortSpansMembers | js/plotHighlighter.js:101 | the sort keeps exactly the same members |
| Intervals.SortSpansOfSorted | js/plotHighlighter.js:211 | sorting an already-sorted list (the clipped passages of a line) changes nothing |
| Passages.RemoveInside | js/plotHighlighter.js:91-95 | the backward splice loop keeps exactly the regions not inside the new hit |
| Passages.EvictContained | js/plotHighlighter.js:91-95 | the in-order removal of regions inside the hit gives that same list |
| Passages.RemoveInsideDistinct | js/plotHighlighter.js:91-95 | removal keeps the regions distinct |
| Passages.AfterHitFacts | js/plotHighlighter.js:89-96 | after a hit, no region nests in another; the hit and every old region are contained in some region; nothing new appears except the hit |
| Passages.ScanHitsFacts | js/plotHighlighter.js:85-99 | the scan over all matches leaves regions that do not nest, are all matches, and contain every match |
| Passages.HitsFacts | js/plotHighlighter.js:84-101 | the sorted hit regions are occurrences of name parts, strictly increase in start and end, and contain every match |
| Passages.LocateHits | js/plotHighlighter.js:84-101 | the loops compute those hit regions |
| Passages.FirstTerm | js/plotHighlighter.js:112-127 | the first sentence terminator (`. `, `! `, `? ` or newline) at or after a position, or the end when there is none |
| Passages.PassageStart | js/plotHighlighter.js:109-121 | the passage starts just after the last terminator of the look-behind window, or at the window start when there is none |
| Passages.PassageEnd | js/plotHighlighter.js:124-140 | the passage ends at the first terminator of the look-ahead window (before a newline, after any other mark), or at the window end |
| Passages.ResolvePassage | js/plotHighlighter.js:105-142 | the result is the hit's passage: both bounds as above, within 200 characters of the hit |
| Passages.PassageUnique | js/plotHighlighter.js:105-142 | those bound rules leave one passage per hit |
| Passages.ResolveAll | js/plotHighlighter.js:105-143 | the passage at each index is the passage of the hit at that index; it contains the hit and lies inside the plot |
| Passages.HitPassagesAre | js/plotHighlighter.js:103-143 | the resolved passages are exactly the passages of the hits |
| Passages.MergeOne | js/plotHighlighter.js:150-157 | one merge step extends the last passage when the next starts before its end, and appends it otherwise |
| Passages.MergeSorted | js/plotHighlighter.js:148-158 | the merge loop keeps its invariant: disjoint, ordered, same coverage, every passage absorbed, every merged passage bridged by the inputs |
| Passages.StepBridged | js/plotHighlighter.js:150-157 | extending the last passage by one that starts before its end, or appending one, leaves every merged passage bridged: each position strictly inside it is strictly inside an input |
| Passages.MergePassages | js/plotHighlighter.js:145-159 | the merged passages are non-empty spans in order without overlap, cover exactly the same positions, contain every input passage, join only overlapping passages (every position strictly inside a merged passage is strictly inside an input passage, so touching ones stay apart), and each opens and closes with an input passage |
| Passages.BlocksUnique | js/plotHighlighter.js:145-159 | two ordered disjoint runs covering the same positions, bridged by a set of spans none of which crosses their ends, are the same run |
| Passages.MergeUnique | js/plotHighlighter.js:145-159 | the merge contract leaves one result only |
| Passages.TouchingStayApart | js/plotHighlighter.js:150-157 | the passages `[0,5)` and `[5,10)` stay two passages |
| Passages.OverlappingJoin | js/plotHighlighter.js:150-157 | the passages `[0,5)` and `[4,10)` become `[0,10)` |
| Passages.FindStyledPassages | js/plotHighlighter.js:80-160 | no passage exactly when there is no plot, no part or no match; otherwise the passages of the name hits merged where they overlap: ordered, disjoint and inside the plot, covering exactly what the hits' passages cover, containing each of them and every match, bridged by them, and each holding an occurrence of a name part |
| PlotHighlighter.ClipChain | js/plotHighlighter.js:204-211 | the clipped passages of a line are still ordered, disjoint and inside the line |
| PlotHighlighter.ClipCovered | js/plotHighlighter.js:204-211 | a line position is covered by a clipped passage exactly when its plot position is covered by a passage |
| PlotHighlighter.PassagesInLineFacts | js/plotHighlighter.js:204-211 | filtering, clipping and sorting give an ordered disjoint chain inside the line that covers exactly the plot's covered positions |
| PlotHighlighter.RenderWrapped | js/plotHighlighter.js:214 | the segment's highlighted HTML wrapped in a span of the given class |
| PlotHighlighter.WrappedShows | js/plotHighlighter.js:214 | a wrapped segment is balanced, uses only plot tags and shows each of its characters in the given class |
| PlotHighlighter.RenderPassage | js/plotHighlighter.js:217-223 | the faded piece before a passage, then the passage in the match class |
| PlotHighlighter.RenderPieces | js/plotHighlighter.js:216-228 | the loop over a line's passages emits faded gaps, match passages and a faded tail |
| PlotHighlighter.RenderLine | js/plotHighlighter.js:201-230 | the HTML of one line from the passages that reach it |
| PlotHighlighter.LineShows | js/plotHighlighter.js:213-229 | a line's HTML is balanced, uses only plot tags, and shows each character of the line in the match class when a passage covers it, else in the faded class |
| PlotHighlighter.RenderPlotLines | js/plotHighlighter.js:186-231 | the segments of all lines with a `<br>` before every line but the first; blank lines add nothing |
| PlotHighlighter.WholePlotShows | js/plotHighlighter.js:186-233 | the joined HTML shows the plot's lines (blank ones as nothing) with a line break between them, each character in its class |
| PlotHighlighter.PlotShownExactly | js/plotHighlighter.js:186-233 | without blank lines, the text shown is the plot itself, and each character's class is the match class exactly where a passage covers it |
| PlotHighlighter.PassagesForUnique | js/plotHighlighter.js:80-160 | those promises determine the styled passages from the plot and the name parts alone |
| PlotHighlighter.NamePartsValid | js/plotHighlighter.js:174-181 | the name parts never contain an empty pattern |
| PlotHighlighter.HighlightCharacterInPlot | js/plotHighlighter.js:163-234 | active exactly when plot, name and name parts are non-empty; inactive gives the fallback HTML; active gives the per-line HTML of the styled passages (the hits' passages merged where they overlap, which the promises of `findStyledPassages` fix), balanced, with only plot tags, showing the plot's lines in their classes |
| DataProcessor.Or | js/dataProcessor.js:50 | `s \|\| d` is empty only when both are |
| DataProcessor.MakeNode | js/dataProcessor.js:47-55 | the node gets the counter as id, the character's name and the movie title; a missing actor becomes "Unknown Actor" and a missing group "Unknown", present ones are kept; a person id of 0 becomes absent and any other is kept |
| DataProcessor.MakeEdge | js/dataProcessor.js:76-86 | the edge links the mapped ids and keeps the type; a falsy strength becomes 1 and a falsy sentiment "neutral", any other is kept; each of the three known sentiments gets its colour, and any other sentiment the neutral one |
| DataProcessor.DataStore.constructor | js/dataProcessor.js:5-8 | an empty data array, map and master lists |
| DataProcessor.DataStore.ProcessAll | js/dataProcessor.js:19-93 | the map and both lists are reset and rebuilt: nodes from all named characters of titled movies, edges from all resolvable relationships; non-array data gives empty tables |
| DataProcessor.DataStore.AddMovieCharacters | js/dataProcessor.js:30-58 | one movie's pass adds a node and a key per named character, and the counter advances to the node count |
| DataProcessor.DataStore.AddCharacters | js/dataProcessor.js:38-56 | the inner loop adds the named characters in order, skipping unnamed ones |
| DataProcessor.DataStore.AddMovieRelationships | js/dataProcessor.js:60-92 | one movie's pass appends the edges of its resolvable relationships and changes nothing else |
| DataProcessor.DataStore.AddRelationships | js/dataProcessor.js:65-90 | the inner loop appends an edge exactly for relationships with both ends named and found in the map |
| DataProcessor.DataStore.LoadAndProcessData | js/dataProcessor.js:95-105 | on success the data is stored and processed; on failure the data becomes empty and the tables keep their contents |
| DataProcessor.DataStore.PopulateMovieSelector | js/dataProcessor.js:113-147 | the option titles are the distinct titles sorted; the result is the first, or "No movies available" when there are none |
| DataProcessor.NamedEntriesExactly | js/dataProcessor.js:37-42 | a movie contributes exactly its characters with a non-empty name |
| DataProcessor.NodesExactly | js/dataProcessor.js:43-55 | node `i` has id `i` and comes from a named character of a titled movie, and every such character has a node |
| DataProcessor.KeyMapLast | js/dataProcessor.js:44-45 | each key maps to the id of the last character with that key (a later duplicate overwrites) |
| DataProcessor.KeyMapCovers | js/dataProcessor.js:45 | every named character's key is in the map |
| DataProcessor.RelEdgesExactly | js/dataProcessor.js:65-90 | every edge comes from a resolvable relationship, and every resolvable relationship gives its edge |
| DataProcessor.EdgesOfExactly | js/dataProcessor.js:60-92 | the same over all titled movies |
| DataProcessor.EdgesEndsAreNodes | js/dataProcessor.js:72-76 | both ends of every master edge are ids of master nodes |
| DataProcessor.TextBeforeOrder | js/dataProcessor.js:121 | the default string order is a strict total order |
| DataProcessor.TitleBeforeOrder | js/dataProcessor.js:121 | with an absent title last, the title order is a strict total order |
| DataProcessor.InsertTitle | js/dataProcessor.js:121 | inserting a title keeps every element |
| DataProcessor.InsertTitleIncreasing | js/dataProcessor.js:121 | inserting a new title into a sorted list keeps it sorted |
| DataProcessor.SortTitlesIncreasing | js/dataProcessor.js:121 | sorting distinct titles gives a strictly increasing permutation |
| DataProcessor.DedupFacts | js/dataProcessor.js:121 | `[...new Set(...)]` keeps exactly the same titles, each once |
| DataProcessor.SelectorTitlesFacts | js/dataProcessor.js:121 | the selector titles increase strictly, are exactly the movies' titles, and are empty exactly when there are no movies |
| NetworkManager.GroupIds | js/networkManager.js:18-22 | the groups are the nodes' groups in order of first appearance, each with the ids of its nodes in order |
| NetworkManager.GroupOrderFacts | js/networkManager.js:19-23 | the group names are distinct and are exactly the groups of the nodes |
| NetworkManager.MembersFacts | js/networkManager.js:19-22 | a group's ids are those of its nodes, in node order, and every node of the group is included |
| NetworkManager.PushPairs | js/networkManager.js:26-30 | the nested loops append one edge per pair `i < j` of the group's ids |
| NetworkManager.PairsFacts | js/networkManager.js:26-30 | `k` ids give `k(k-1)/2` edges, exactly the pairs in order, distinct when the ids are |
| NetworkManager.GenerateHelperEdges | js/networkManager.js:16-34 | the helper edges are the in-order pairs of every group |
| NetworkManager.HelperEdgesExactly | js/networkManager.js:16-34 | an edge is a helper edge exactly when it joins an earlier and a later node of the same group |
| NetworkManager.HelperEdgesCount | js/networkManager.js:16-34 | twice the number of helper edges is the sum over groups of `k(k-1)` |
| NetworkManager.HelperEdgesDistinct | js/networkManager.js:16-34 | with distinct node ids, no helper edge appears twice |
| NetworkManager.CountDegrees | js/networkManager.js:99-104 | the degree table holds the current node ids and the edge ends, and each degree is the number of edge ends at that id |
| NetworkManager.DegreeZero | js/networkManager.js:99-104 | a degree is 0 exactly when no edge touches the id |
| NetworkManager.DegreeSum | js/networkManager.js:99-104 | over distinct ids covering all ends, the degrees sum to twice the edge count |
| NetworkManager.VisNodeSize | js/networkManager.js:38 | the size is between 10 and 90, 90 exactly from degree 8 on, 10 exactly at degree 0 |
| NetworkManager.VisNodeSizeMonotone | js/networkManager.js:38 | a greater degree never gives a smaller node |
| NetworkManager.VisNodeFor | js/networkManager.js:36-51 | the vis node copies the master fields and carries its degree, a size and label size within bounds, and the minimum size exactly at degree 0 |
| NetworkManager.CreateVisNode | js/networkManager.js:36-51 | id and group are copied; a node missing from the degree table gets degree 0 and the minimum size |
| NetworkManager.VisNodes | js/networkManager.js:106 | the processed nodes are the current nodes in order, each with its degree among the current edges |
| NetworkManager.EdgeIdRoundTrip | js/networkManager.js:56 | an edge id `oe-from-to-counter` parses back into its three numbers |
| NetworkManager.EdgeIdInjective | js/networkManager.js:56 | two equal edge ids have the same ends and counter |
| NetworkManager.CreateVisEdge | js/networkManager.js:53-65 | the vis edge has the `oe-` id, copies ends, label, movie, colour, sentiment and strength, and has the edge width of its strength |
| NetworkManager.ProcessEdges | js/networkManager.js:107-108 | the counter gives edge `k` the counter `k`, so all processed edge ids are distinct |
| NetworkManager.FindMovie | js/networkManager.js:71 | `find`: no movie exactly when none has the title; otherwise the first that has it |
| NetworkManager.FirstTitled | js/networkManager.js:71 | the index of the first movie with the title, or the length |
| NetworkManager.FilterNodes | js/networkManager.js:75 | every kept node is a master node of the movie |
| NetworkManager.FilterNodesComplete | js/networkManager.js:75 | every master node of the movie is kept |
| NetworkManager.FilterNodesDistinct | js/networkManager.js:75 | filtering keeps node ids distinct |
| NetworkManager.NodeIds | js/networkManager.js:76 | the id set holds exactly the ids of the nodes |
| NetworkManager.FilterEdges | js/networkManager.js:77-81 | every kept edge belongs to the movie and joins two of its current nodes |
| NetworkManager.FilterEdgesComplete | js/networkManager.js:77-81 | every such edge is kept |
| NetworkManager.EscapedLines | js/networkManager.js:84 | escaping and then replacing newlines by `<br>` treats each character on its own |
| NetworkManager.BrCharsShow | js/networkManager.js:84 | that text uses only `<br>` as a tag and shows exactly the plot's characters |
| NetworkManager.FormatPlotShows | js/networkManager.js:82-85 | the formatted plot uses only `<br>`, decodes to the plot, and opens no span |
| NetworkManager.SelectMovie | js/networkManager.js:71-96 | the current nodes, current edges and plot-panel values of the selected title |
| NetworkManager.ProcessCurrent | js/networkManager.js:106-109 | the processed nodes, the processed edges and the helper edges of the processed nodes |
| NetworkManager.NetworkView.constructor | js/networkManager.js:13-14 | the panel starts with an empty raw plot and the placeholder text, and nothing is shown |
| NetworkManager.NetworkView.UpdateNetworkForMovie | js/networkManager.js:67-120 | the panel always gets the selected movie's values; the data sets are replaced by the processed nodes, edges and helper edges only when the network exists |
| NetworkManager.MasterNodeIdsDistinct | js/dataProcessor.js:43 | master node ids are distinct, since a counter hands them out |
| NetworkManager.CurrentExactly | js/networkManager.js:73-81 | for a found chosen title, the current nodes are exactly its master nodes and the current edges exactly its edges between them; otherwise both are empty |
| NetworkManager.ShownEdgesWithin | js/networkManager.js:75-81 | every processed edge belongs to the movie and joins two processed nodes |
| NetworkManager.TotalDegreeIs | js/networkManager.js:99-106 | the processed nodes' degrees sum to the degree sum over their ids |
| NetworkManager.ShownDegreeSum | js/networkManager.js:99-106 | the degrees of the processed nodes sum to twice the number of processed edges |
| NetworkManager.ShownHelperEdges | js/networkManager.js:106-109 | the helper edges of an update are distinct |
| NetworkManager.SelectorTitleFound | js/networkManager.js:71-85 | a present (not absent) title that the movie selector offers is always found, and the panel then shows that movie's plot |
| NetworkManager.AbsentTitleMissing | js/networkManager.js:71-93 | the option of an absent title, whose value is the text "undefined", finds no movie (unless one has that title): the panel shows "Plot data missing" and no node is current |
| NetworkManager.PlotPanelShows | js/networkManager.js:73-96 | a non-empty raw plot is the found movie's plot, and its HTML decodes to it; otherwise the HTML is one of the four placeholder texts |

## Left out

- Browser and vis.js: `initNetwork`, the physics and stabilisation calls, the timers and
  `stopPhysics` (`js/networkManager.js:122-136`) are not part of this model. So are the
  legend and hover panel updates, `js/uiUpdater.js`, `js/main.js` and `script.js`. They
  are DOM effects and library calls.
- `displayPlotInPanel` is not part of this model. The HTML it would receive is the
  result of `HighlightCharacterInPlot` and the panel fields of `NetworkView`.
- `fetchRawData` (network fetch and YAML parsing) is left out. `LoadAndProcessData`
  takes its outcome as a parameter.
- The floating-point and random parts are left out. These are `calculateEdgeFontSize`,
  `hslToHex`, `generateAndCacheGroupColor`, `getTextColorForBackground`, the tooltip
  elements and the node and edge colours, shapes and fonts other than the sizes.
- Hidden and opacity of helper edges, `rawArrows`, and the tooltip-only fields are
  left out. They are constant decoration.
- Console logging and the `displayFn` type guard (`js/plotHighlighter.js:164-167`) are
  left out.
- Case-insensitive matching covers ASCII letters only. JavaScript's `i` flag also folds
  other letters.
- Utils.LowerAll: lower-cases ASCII capitals only. `toLowerCase` also maps other
  letters, some to more than one character (U+0130, Latin capital I with dot above), and
  the Kelvin sign U+212A to `k`. Utils.SlugifyOutcomes and the slug lemmas hold for the
  model's lower-casing.
- Lengths and offsets count characters. JavaScript counts UTF-16 code units, so a
  character outside the Basic Multilingual Plane counts twice there. This affects the
  length-above-2 rule and the longest-first sort of NameParts.AssembleFacts and
  NameParts.VariantsOfName, the 200-unit windows of Passages.ResolvePassage, and the
  offsets of the passages and lines. On text inside the Basic Multilingual Plane the two
  agree.
- The selector sort compares characters by code point. JavaScript compares UTF-16 code
  units, so the order differs for characters outside the Basic Multilingual Plane.
- `generateHelperEdges` visits groups in order of first appearance. JavaScript's
  `for...in` puts integer-like keys first, in numeric order. That order affects only the
  order of helper edges, not which edges there are.
- Object keys named like `Object.prototype` members (`__proto__`, `constructor`) are
  not modelled. This affects the group table, `characterNameToGlobalIdMap` and the
  sentiment colour lookup.
- Non-string values in text fields, `null` list entries and the type errors they raise
  are not modelled. Falsy text is the empty string.
- DataProcessor.KeyMapLast: the key `title_name` is not injective. `("A_B", "C")` and
  `("A", "B_C")` share a key, and the later entry wins. That is what the source does.
- `mergedPassages` are merged in place in the source, so the first input passage
  object is mutated. The model builds a new list; no other code observes the shared
  object.
- NameHighlight.HighlightAllNamePartsInText and Passages.FindStyledPassages require
  non-empty name parts. With an empty part the source's `exec` loop never ends. The
  parts `getCharacterNameParts` produces are always longer than two characters
  (PlotHighlighter.NamePartsValid).
- NetworkManager.MissingPanel inserts the selected title into the HTML unescaped, as
  the source does. No present title from the selector reaches this message
  (NetworkManager.SelectorTitleFound). The option of an absent title does: its value
  is "undefined" (`js/dataProcessor.js:124-127` and 144, `js/main.js:109-116`), and
  NetworkManager.AbsentTitleMissing shows where it leads. A title typed elsewhere is
  not escaped either.
- DataProcessor.DataStore.PopulateMovieSelector requires the stored data to be an
  array. The source calls `.map` on it and would throw otherwise. The DOM option
  elements and the change listener are not modelled.
- NetworkManager.CreateVisEdge states the id as the `oe-` text. What that text means
  is stated by NetworkManager.EdgeIdRoundTrip and NetworkManager.EdgeIdInjective.
