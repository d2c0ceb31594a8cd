# gameutils in Dafny

A model of the sequential core of the gameutils C# library, and proofs about it.

- **Shortest paths.** The model covers `Dijkstra<T>`, which appears as Entity/Dijkstra.cs with doc comments and again as Types/Dijkstra.cs with the same logic.
  - Its graph store is a set of registered nodes, a map from each node to its successor set, and a map from ordered pairs to weights. `AddNode`, `AddEdge` and `RemoveEdge` change the store in place.
  - `Solve` is a label-correcting traversal over a list used as an approximate priority queue, followed by a walk back along predecessor links.
  - Both source files are modelled once, by module `ShortestPath` (dijkstra.dfy).
- **ANSI markup.** `Ansi.Format` turns `[tag]` markup into ECMA-48 SGR control sequences (`ESC [ params m`). The module also has the pure sequence builders and both colour tables (`Ansi`, ansi.dfy).
- **Tokenizer.** A line-oriented lexer with row and column bookkeeping (`Tokenizer`, tokenizer.dfy).
- **String helpers.** `TryGet` and `Repeat` (`Strings`, strings.dfy).
- **Progress bar.** The integer arithmetic of the console progress bar (`Progress`, progress.dfy).
- **Grid.** `Grid<T>`: a flat array addressed as a 2D grid, with bounds-checked access and in-place fills (`Grids`, grid.dfy).
- **Pixel buffers.**
  - `ImageData` (`Images`, imagedata.dfy).
  - `Bitmap` and its Windows BMP serialisation: a 14-byte BITMAPFILEHEADER, a 40-byte BITMAPINFOHEADER and padded 24-bit rows (`Bitmaps`, bitmap.dfy).
- **Colour.** The byte colour and its unpacking from a 0xRRGGBBAA `int` (`Colors`, color.dfy).
- **Iterators.** The indexed filter and map iterators (`Collections`, collections.dfy).
- **Timers.** Two small state machines: the interval timer `Thinker` (`Thinkers`, thinker.dfy) and the animation frame `Controller` (`Animations`, controller.dfy).
- **Shared pieces.**
  - `Machine` (machine.dfy) states the runtime's 32-bit arithmetic: two's-complement wrap-around, and division truncated toward zero. It also states the little-endian byte order of `BinaryWriter`/`BinaryReader`.
  - `Wrappers` (wrappers.dfy) holds `Option` and `Result`.

How the source maps onto Dafny:
- **Exceptions** become `Err` values of a `Result`, one constructor per exception the code can raise. For `Solve` these are:
  - the missing dictionary key at Entity/Dijkstra.cs:80 and at Entity/Dijkstra.cs:113;
  - the out-of-range `Insert` at Entity/Dijkstra.cs:92.
- **Classes** whose fields the source updates stay classes. Their methods are proved against functions of the old state, and the facts the source promises are proved as lemmas about those functions.
- **Unknown iteration order** is an input. This covers the enumeration order of the solver's dictionary keys and of its successor sets.
- **Single-precision floats** are reals.
- **Callbacks** (`OnThink`, `OnFrameChanged`, `OnStopped`) are counters or a record of the values reported.

## Model

| member | source | states |
|---|---|---|
| ShortestPath.WithNode | Entity/Dijkstra.cs:128-131 | registering a node adds exactly that node to the node set; successor sets and weights are untouched |
| ShortestPath.AddNodeIdempotent | Entity/Dijkstra.cs:128-131 | registering the same node twice is the same as registering it once |
| ShortestPath.WithNodesEffect | Types/Dijkstra.cs:115-121 | registering a list of nodes adds exactly the listed nodes and changes nothing else |
| ShortestPath.Link | Entity/Dijkstra.cs:147-159 | one edge registration: both endpoints become nodes; the weight of (from, to) is set, overwriting any earlier value; to joins from's successor set, which is created if absent; every other successor set and weight is unchanged |
| ShortestPath.LinkWellFormed | Types/Dijkstra.cs:123-135 | registering an edge keeps the store consistent: every stored successor is a registered node and has a weight |
| ShortestPath.AddEdgeWellFormed | Entity/Dijkstra.cs:145-166 | the documented two-edge effect of an undirected edge also keeps the store consistent |
| ShortestPath.LastWeightWins | Entity/Dijkstra.cs:152 | registering the same pair twice leaves the second weight; the first leaves no trace |
| ShortestPath.DefaultEdgeBothWays | Entity/Dijkstra.cs:211 | an edge given only its endpoints takes the defaults weight 1 and undirected. Through the documented effect AddEdgeSpec, it links both ways, each with weight 1. The source's AddEdge as written never returns on such an edge (see Findings) |
| ShortestPath.UndirectedEdgeIsSymmetric | Entity/Dijkstra.cs:145 | an undirected edge, as documented, links both ways with the same weight |
| ShortestPath.DirectedEdgeIsOneWay | Entity/Dijkstra.cs:161-164 | a directed edge leaves the target's successors and the reverse weight as they were |
| ShortestPath.AddEdgeAsWritten | Entity/Dijkstra.cs:145-167 | no contract of its own: the source's AddEdge recursion with a bound on nested calls; DirectedAddEdgeAsWrittenReturns and UndirectedAddEdgeAsWrittenDiverges pin it down |
| ShortestPath.DirectedAddEdgeAsWrittenReturns | Types/Dijkstra.cs:137-142 | as written, a directed AddEdge returns after one registration, whatever the recursion budget |
| ShortestPath.UndirectedAddEdgeAsWrittenDiverges | Entity/Dijkstra.cs:161-166 | as written, an undirected AddEdge never returns: the mirrored call keeps IsDirected false, so no recursion budget suffices |
| ShortestPath.Unlink | Entity/Dijkstra.cs:184-205 | RemoveEdge: nothing changes if from has no successor set; otherwise from's whole set is dropped, and for an undirected edge from leaves each former successor's set; nodes and weights are never touched |
| ShortestPath.UnlinkWellFormed | Types/Dijkstra.cs:153-174 | removing an edge keeps the store consistent |
| ShortestPath.UnlinkDropsAllOutgoing | Entity/Dijkstra.cs:186 | every outgoing edge of from disappears, not only the one named, while its weight stays stored |
| ShortestPath.UnlinkWithoutSuccessorsIsNoOp | Entity/Dijkstra.cs:186-189 | removing an edge from a node without a successor set changes nothing |
| ShortestPath.UndirectedUnlinkRemovesReverse | Entity/Dijkstra.cs:196-204 | after an undirected removal no former successor links back to from |
| ShortestPath.RemoveFirst | Entity/Dijkstra.cs:91 | List.Remove: with i the first index of x, the result is s[..i] + s[i+1..], one shorter; a list without x is unchanged; a list without repeats keeps none |
| ShortestPath.InsertAt | Entity/Dijkstra.cs:92 | List.Insert at an index up to the length: the element lands at that index, the elements before it keep their positions, those after it move up by one, and nothing else is lost or gained |
| ShortestPath.BackChainIsPath | Types/Dijkstra.cs:93-107 | a chain of predecessor links that follow stored edges is a path along successor sets |
| ShortestPath.InitialWorking | Entity/Dijkstra.cs:46-63 | the initial state of the traversal: every key at infinite distance except start at zero, no predecessors, start first in a queue without repeats |
| ShortestPath.DequeueWorking | Entity/Dijkstra.cs:76-77 | removing the head from the queue keeps the traversal invariant and stamps the node as dequeued |
| ShortestPath.RequeueWorking | Entity/Dijkstra.cs:91-98 | moving an improved successor to the insertion index, with its new distance and predecessor, keeps the invariant; the predecessor is a node already dequeued |
| ShortestPath.RelaxEdge | Entity/Dijkstra.cs:83-98 | one successor: it improves exactly when the new distance is shorter; an improvement fails exactly when the insertion index exceeds the shortened queue, and otherwise moves the node, advances the index and records distance and predecessor; every node at a finite distance other than start keeps a predecessor at a finite distance, and relaxing from a finite distance leaves the successor at a finite one |
| ShortestPath.Relax | Entity/Dijkstra.cs:80-100 | relaxing all successors still in the queue keeps the invariant, the queue length and the predecessor links of finite nodes; a finite distance stays finite; from a finite node every queued successor ends finite; the insertion index advances by exactly the number of improvements, at most the number of queued successors; the insert fault happens only once the index has reached the queue length, with the queue non-empty |
| ShortestPath.Traverse | Entity/Dijkstra.cs:46-104 | the main loop: without a fault every predecessor link follows an edge and points to a node dequeued earlier, and every chain of links leads back to start; a start without successors fails with the missing key at line 80 unless it is the end, and a start with successors never does; when every node has at most one successor the insert at line 92 never fails; when start is not the end, every successor of start that has its own successor set, other than start itself, gets a predecessor; a start that is the end breaks at once with no links; the loop dequeues at most one more node than there are keys |
| ShortestPath.Visit | Entity/Dijkstra.cs:68-103 | one pass of the loop: the missing-key fault happens exactly when the head has no successor set, and only for start; without a fault the queue shrinks and the loop invariant holds again; the walk-back fault never arises here; with at most one successor per node the insert never fails |
| ShortestPath.RelaxCandidate | Entity/Dijkstra.cs:80-99 | one step of the inner loop: one queued successor is relaxed and counted as an improvement exactly when its distance dropped, keeping the inner loop's invariant |
| ShortestPath.WalkBack | Entity/Dijkstra.cs:107-114 | the backtrack fails exactly when end has no entry, and otherwise collects a chain without repeats ending in end; an end without predecessor gives [end] |
| ShortestPath.Dijkstra.constructor | Entity/Dijkstra.cs:15-17 | an empty, consistent store |
| ShortestPath.Dijkstra.FromLists | Entity/Dijkstra.cs:22-33 | the store after registering the nodes, then the edges, in order |
| ShortestPath.Dijkstra.AddNode | Types/Dijkstra.cs:110-113 | the new store is WithNode of the old one |
| ShortestPath.Dijkstra.AddNodes | Entity/Dijkstra.cs:136-142 | the new store is the old one with each listed node registered |
| ShortestPath.Dijkstra.AddEdge | Entity/Dijkstra.cs:145-167 | the new store has the documented effect: one registration for a directed edge, and both directions for an undirected one |
| ShortestPath.Dijkstra.AddEdges | Types/Dijkstra.cs:145-151 | the new store is the old one with each listed edge added in order |
| ShortestPath.Dijkstra.RemoveEdge | Types/Dijkstra.cs:153-174 | the new store is Unlink of the old one |
| ShortestPath.Dijkstra.Solve | Entity/Dijkstra.cs:38-123 | reads but never changes the store; an unregistered start or end gives (false, []); a registered start without successors is a missing-key fault; an end without successors is a fault; Solve(n, n) for n with successors gives (true, [n]); true comes with a path from start to end along edges; false comes with []; the path has no repeats; found holds exactly when the walk back from end reaches start, and the path is that chain; the loop dequeues at most one node per key plus one; a start with successors never gives the missing-key fault, an end with successors never the walk-back fault, and a graph where every node has at most one successor never the insert fault; a result without fault always finds an end that is a successor of start |
| ShortestPath.SolveAcrossUndirectedEdge | Entity/Dijkstra.cs:38-123 | the solver holding one undirected edge a-b returns (true, [a, b]) for Solve(a, b) |
| ShortestPath.SolveIntoSinkFails | Entity/Dijkstra.cs:107-114 | a directed edge a->b into a node b without successors makes Solve(a, b) fail on the lookup of b's predecessor, whatever happens before |
| ShortestPath.OneEdgeSolver | Entity/Dijkstra.cs:145-166 | registering one undirected edge on an empty store links each endpoint to the other only |
| ShortestPath.OneUndirectedEdge | Entity/Dijkstra.cs:145-166 | the documented effect of one undirected edge on an empty store: a's only successor is b and b's only successor is a |
| ShortestPath.FoundAcross | Entity/Dijkstra.cs:116-122 | across a single undirected edge, a result without fault that is found along a path without repeats is exactly (true, [a, b]) |
| ShortestPath.OnlyPathAcross | Entity/Dijkstra.cs:107-116 | across a single undirected edge, the only path without repeats from a to b is [a, b] |
| Ansi.CreateSequence | Term/Ansi.cs:19-22 | no contract of its own: the introducer, the codes joined by ';', then the type; SequenceLayout and SequenceRoundTrip pin it down |
| Ansi.SequenceLayout | Term/Ansi.cs:14-22 | a created sequence is ESC '[' then the parameter text then the type, and nothing else |
| Ansi.ParametersJoin | Term/Ansi.cs:21 | the parameter text is the codes, each printed in decimal, joined with ';' |
| Ansi.ParametersFields | Term/Ansi.cs:21 | the parameter text splits at ';' into exactly the printed codes |
| Ansi.PrintedValues | Term/Ansi.cs:21 | every printed code is all digits and reads back as that code |
| Ansi.SequenceRoundTrip | Term/Ansi.cs:19-22 | for at least one code and a one-character type, a created sequence parses back to its codes and type, so no information is lost |
| Ansi.Decimal | Term/Ansi.cs:21 | a number is never written as the empty string |
| Ansi.DecimalValue | Term/Ansi.cs:21 | a number is written as decimal digits only, and they read back as that number |
| Ansi.Split | Term/Ansi.cs:339 | splitting yields at least one part; the parts joined with the separator rebuild the string; no part contains the separator |
| Ansi.SplitJoin | Term/Ansi.cs:339 | parts without the separator, joined and then split, give back the parts |
| Ansi.SplitFirst | Term/Ansi.cs:339 | a separator-free head, the separator and a tail split into the head followed by the split tail |
| Ansi.IndexOf | Term/Ansi.cs:279 | the first index at or after the start holding the character, or -1 exactly when there is none |
| Ansi.ColorTablesAgree | Term/Ansi.cs:49-87 | the foreground and background tables name the same colours |
| Ansi.ForegroundCodes | Term/Ansi.cs:49-67 | the eight plain colours have codes 30 to 37 and the bright ones 90 to 97, in table order |
| Ansi.BackgroundIsForegroundPlusTen | Term/Ansi.cs:69-87 | each background code is its foreground code plus 10 |
| Ansi.ColorNameChars | Term/Ansi.cs:49-67 | colour names are non-empty and made of lower-case letters and '-' |
| Ansi.ColorNameShape | Term/Ansi.cs:49-67 | colour names have at least three letters and start with one of b, r, g, y, m, c, w; the four-letter ones are blue and cyan |
| Ansi.NotAColor | Term/Ansi.cs:49-67 | a string without the shape of a colour name is not in the table |
| Ansi.NotColorName | Term/Ansi.cs:49-87 | a string with a character other than a lower-case letter or '-' is in neither table |
| Ansi.Foreground | Term/Ansi.cs:92-95 | a named foreground succeeds exactly for names in the table, with an SGR sequence; any other name is the failed lookup |
| Ansi.Background | Term/Ansi.cs:108-111 | a named background succeeds exactly for names in the table, with an SGR sequence; any other name is the failed lookup |
| Ansi.NamedColorsDecode | Term/Ansi.cs:92-111 | a named colour's sequence is the single SGR parameter of its table code |
| Ansi.Sgr | Term/Ansi.cs:27-47 | an SGR sequence ("m" type) starts with ESC '[' and ends with 'm' |
| Ansi.StyleSequences | Term/Ansi.cs:24-47 | Reset, Bold, Faint, Italic and Underline read back as the single SGR codes 0, 1, 2, 3 and 4 |
| Ansi.ForegroundRgb | Term/Ansi.cs:99-102 | the RGB foreground sequence reads back as the SGR codes 38;2;r;g;b |
| Ansi.BackgroundRgb | Term/Ansi.cs:115-118 | the RGB background sequence reads back as the SGR codes 48;2;r;g;b |
| Ansi.ParseByte | Term/Ansi.cs:346-348 | byte.Parse with NumberStyles.Integer: a result is below 256, and a failure is either the malformed-text error or the overflow error |
| Ansi.ByteValue | Term/Ansi.cs:346-348 | digits are accepted exactly when their value is at most 255 and, after '-', is 0; the result is their value; anything else overflows |
| Ansi.ParseByteAccepts | Term/Ansi.cs:346-348 | white space, an optional sign, digits, white space and trailing NULs parse as the digits' value, or overflow when it is above 255 or negative and not zero |
| Ansi.ParseByteOf | Term/Ansi.cs:346-348 | the same accepted form, built from its pieces: leading white space, "", "+" or "-", digits and trailing white space |
| Ansi.ParsedByteShape | Term/Ansi.cs:346-348 | conversely, every text that parses has that form, and its value is the value of its digits |
| Ansi.ParsedByteScan | Term/Ansi.cs:346-348 | a text that parses has digits after its white space and optional sign, only white space and NULs after them, and their value |
| Ansi.PaddedByte | Term/Ansi.cs:346-348 | a byte with white space on both sides and an optional '+' parses as that byte |
| Ansi.NegativeByte | Term/Ansi.cs:346-348 | "-0" parses as 0, and "-n" for n > 0 overflows |
| Ansi.LargeByte | Term/Ansi.cs:346-348 | a value above 255 overflows |
| Ansi.BareSign | Term/Ansi.cs:346-348 | a sign that no digit follows is malformed |
| Ansi.GapInDigits | Term/Ansi.cs:346-348 | white space between two runs of digits is malformed: "1 2" is no byte |
| Ansi.DigitsGap | Term/Ansi.cs:346-348 | any two digit runs with a space between them are malformed |
| Ansi.NotANumber | Term/Ansi.cs:346-348 | a text whose first character is not white space, a sign or a digit is malformed |
| Ansi.ParseDecimalByte | Term/Ansi.cs:346-348 | a byte printed in decimal parses back as that byte and holds no ',' |
| Ansi.SpacedByte | Term/Ansi.cs:346-348 | a byte printed after a space parses as that byte and holds no ',' |
| Ansi.CommaFree | Term/Ansi.cs:339 | white space followed by digits holds no ',', so it stays one part of the split |
| Ansi.ParseBytes | Term/Ansi.cs:346-348 | a parsed list has one value below 256 per part; a failure is the malformed-text or the overflow error |
| Ansi.RgbForeground | Term/Ansi.cs:337-349 | an RGB body gives an SGR sequence, or fails with the part-count error at the given position or with a byte error |
| Ansi.ParseBytesEach | Term/Ansi.cs:346-348 | the list parses exactly when every part does, and then each value is its part's byte |
| Ansi.ParseBytesFirstError | Term/Ansi.cs:346-348 | a list that fails reports the error of its first failing part, in the order r, g, b |
| Ansi.ParseBytesCons | Term/Ansi.cs:346-348 | a part that parses in front of parts that parse gives its byte in front of theirs |
| Ansi.ParseThree | Term/Ansi.cs:346-348 | three parts that parse as bytes parse, as a list, to those three bytes |
| Ansi.RgbParts | Term/Ansi.cs:339 | three ','-free parts joined by ',' split into those three parts |
| Ansi.Format | Term/Ansi.cs:258-373 | the loop, whose index jumps to each tag's ']', produces exactly the scan FormatFrom(text, 0), error included |
| Ansi.FormatFrom | Term/Ansi.cs:262-373 | no contract of its own: the scan the loop of Format is proved to follow; PlainTextUnchanged, LiteralStretch, EscapedBracket, UnclosedAt and TagClosed pin its branches |
| Ansi.Interpret | Term/Ansi.cs:286-369 | every tag that translates gives an SGR sequence (ESC '[' ... 'm'); a tag never fails as unclosed; an unknown-sequence error names the tag and the given position, and an RGB-count error that position; the tag lemmas below pin each branch |
| Ansi.TranslateTag | Term/Ansi.cs:279-369 | a tag from '[' to the next ']' either fails as the scan fails, or emits its sequence and resumes after the ']' |
| Ansi.InterpretTag | Term/Ansi.cs:286-369 | the text between '[' and its ']' is translated; an error is the scan's error, and a sequence is emitted before the scan resumes after the ']' |
| Ansi.TagClosed | Term/Ansi.cs:279-287 | with the ']' found, the scan from '[' is decided by the translation of the text between them |
| Ansi.NotPrefix | Term/Ansi.cs:337-356 | a string whose first character differs from a prefix's does not start with it |
| Ansi.LiteralStretch | Term/Ansi.cs:266-270 | a stretch without '[' is copied unchanged, ']' included |
| Ansi.PlainTextUnchanged | Term/Ansi.cs:262-270 | text without '[' is returned unchanged |
| Ansi.EscapedBracket | Term/Ansi.cs:272-277 | "[[" gives one '[' and the scan resumes after both characters |
| Ansi.UnclosedBracketFails | Term/Ansi.cs:279-284 | a '[' with no later ']' fails, reporting the position of the '[' |
| Ansi.UnclosedAt | Term/Ansi.cs:279-284 | wherever it occurs, a '[' (not doubled) with no later ']' fails at its position |
| Ansi.EmptyTagResets | Term/Ansi.cs:289-293 | "[]" emits the reset sequence ESC[0m |
| Ansi.SlashTagResets | Term/Ansi.cs:289-293 | "[/]" emits the reset sequence ESC[0m |
| Ansi.StyleTags | Term/Ansi.cs:301-323 | bold/b, faint/f, italic/i and underline/u emit SGR 1, 2, 3 and 4 |
| Ansi.StyleTag | Term/Ansi.cs:301-323 | each style tag, being no colour name, reaches its style branch |
| Ansi.NamedColorTags | Term/Ansi.cs:295-335 | a bare foreground name and "fg:name" give the foreground sequence; "bg:name" gives the background one; an unknown name after either prefix fails the lookup |
| Ansi.PrefixedColorTag | Term/Ansi.cs:325-335 | a tag starting with "fg:" or "bg:" looks up what follows the prefix |
| Ansi.RgbTag | Term/Ansi.cs:337-351 | "[#r,g,b]" with bytes r, g, b emits ESC[38;2;r;g;bm |
| Ansi.RgbBody | Term/Ansi.cs:339-349 | three ','-free parts that each parse as a byte, separated by ',', give the RGB foreground sequence of those bytes |
| Ansi.SpacedRgbTag | Term/Ansi.cs:337-351 | "[#r, g, b]", with a space after each ',', gives the same foreground sequence as "[#r,g,b]" ("[#255, 128, 0]" included) |
| Ansi.SpacedParts | Term/Ansi.cs:339-348 | the parts of "#r, g, b" are ','-free, the second and third start with a space, and each parses as its byte |
| Ansi.HashTagsAreForegroundRgb | Term/Ansi.cs:337-344 | every tag starting with '#' is taken by the first RGB branch; a body that does not split into three parts fails |
| Ansi.BackgroundRgbTagsRejected | Term/Ansi.cs:337-367 | "#bg:..." never reaches its own branch: the first RGB branch parses "bg:..." as the red byte and fails |
| Ansi.BackgroundRgbBody | Term/Ansi.cs:339-348 | the body "bg:..." of a "#bg:" tag, split in three, fails on its first part, which no byte parse accepts |
| Ansi.ForegroundRgbTagsRejected | Term/Ansi.cs:337-350 | the documented "#fg:r,g,b" form fails too: the first RGB branch takes it and parses "fg:r" as the red byte |
| Ansi.ForegroundRgbBody | Term/Ansi.cs:339-348 | the body "fg:..." of a "#fg:" tag, split in three, fails on its first part, which no byte parse accepts |
| Ansi.UnknownTagFails | Term/Ansi.cs:369 | any other tag fails as an unknown sequence, reporting the tag and the position of its ']' |
| Tokenizer.Token | Types/Tokenizer.cs:90 | the token record: its text, its line and its column |
| Tokenizer.Read | Types/Tokenizer.cs:13-84 | the lexer's nested loops emit exactly the tokens ReadAll describes, line after line; the white-space flag defaults to false |
| Tokenizer.ReadLine | Types/Tokenizer.cs:23-79 | the inner loop, with its buffer and column counter, emits exactly the tokens Scan describes for one line |
| Tokenizer.ScanStep | Types/Tokenizer.cs:29-71 | one character: white space flushes the run and is emitted only when preserved; another non-letter-or-digit flushes the run and is emitted alone; a letter or digit extends the run |
| Tokenizer.CutSingle | Types/Tokenizer.cs:38-66 | a one-character token sits at its own index in the line and is correctly cut |
| Tokenizer.CutRun | Types/Tokenizer.cs:67-79 | a flushed run is a non-empty maximal run of letters and digits, starting at its column |
| Tokenizer.ScanShape | Types/Tokenizer.cs:24-79 | every token of a line is non-empty, is the slice of the line at its column, is a maximal letter-or-digit run or a single other character, and starts at or after the end of the previous one |
| Tokenizer.ScanCovers | Types/Tokenizer.cs:51-66 | every non-letter-or-digit character (white space only when preserved) is a one-character token at its index |
| Tokenizer.VisibleKeeps | Types/Tokenizer.cs:39-49 | when white space is preserved, or there is none, nothing is dropped |
| Tokenizer.ScanRebuilds | Types/Tokenizer.cs:24-79 | the token texts of a line, put together, are the line without its white space, or the whole line when white space is preserved |
| Tokenizer.LineShape | Types/Tokenizer.cs:20-82 | the tokens of one line are placed, ordered, correctly cut and cover it |
| Tokenizer.ReadAllShape | Types/Tokenizer.cs:13-84 | a token's line is the index of its input line; tokens come line by line and left to right without overlap; their texts rebuild the visible input |
| Tokenizer.VisibleDropsWhiteSpace | Types/Tokenizer.cs:39-49 | without preserve, no character the lexer keeps from a line is white space |
| Tokenizer.VisibleLinesDropWhiteSpace | Types/Tokenizer.cs:15-84 | without preserve, no character the lexer keeps from any line is white space |
| Tokenizer.ReadDefault | Types/Tokenizer.cs:13 | Read called without its flag takes the default false: the token texts are the input without white space, so no token holds white space |
| Strings.TryGet | Extensions/StringExtensions.cs:13-24 | true with the character exactly for an index in range; false with '\0' otherwise |
| Strings.Repeat | Extensions/StringExtensions.cs:29-40 | the string concatenated count times, |s| * count long; the empty string for count <= 0 |
| Strings.RepeatedLength | Extensions/StringExtensions.cs:34-37 | n repetitions are |s| * n long |
| Strings.RepeatedChar | Extensions/StringExtensions.cs:34-37 | n repetitions of one character are n copies of it |
| Strings.RepeatedAdd | Extensions/StringExtensions.cs:34-37 | a repetitions followed by b repetitions are a + b repetitions |
| Progress.PercentComplete | Term/Progress.cs:19-22 | current * 100 / total with 32-bit wrap-around and truncating division: a zero total raises, and any result is an int |
| Progress.PercentCompleteWide | Term/Progress.cs:19-22 | the same without wrap-around: for 0 <= current <= total the share is in 0..100 and is 100 exactly when current == total |
| Progress.PercentInRange | Term/Progress.cs:19-22 | while current * 100 fits an int, both computations agree and give a share in 0..100 |
| Progress.PercentCompleteWrapsAtScale | Term/Progress.cs:21 | finishing 21474837 items reports -99 percent as written, against 100 without wrap-around |
| Progress.PercentTruncatesTowardZero | Term/Progress.cs:21 | division truncates toward zero: -1 of 3 gives -33 |
| Progress.ShareBounds | Term/Progress.cs:39 | current * width / total lies in 0..width and is width exactly when current == total |
| Progress.Bar | Term/Progress.cs:32-43 | fails exactly when current < 1, total < 1, width < 1 or current > total, naming the first argument checked that fails; pending defaults to " " |
| Progress.DefaultPending | Term/Progress.cs:32-43 | without a pending string the rest of the bar is spaces: completed repeated done times, then width - done spaces, width long for a one-character completed |
| Progress.DoneShare | Term/Progress.cs:39 | while current * width fits an int, the done cells are the exact quotient current * width / total, in 0..width, and width exactly when current == total |
| Progress.BarShape | Term/Progress.cs:39-42 | under the checks, done cells lie in 0..width and equal width exactly when current == total; the bar is completed repeated done times, then pending repeated width - done times; with one-character strings it is width long |
| Machine.Wrap32 | Term/Progress.cs:21 | the int the runtime keeps of a result: in range, congruent modulo 2^32, and the value itself when it fits |
| Machine.Quot | Term/Progress.cs:21 | C# division: truncated toward zero, with the sign of the operands, and the Euclidean quotient for non-negative operands |
| Machine.QuotInt32 | Term/Progress.cs:21 | the quotient of two ints is an int, except int.MinValue / -1 |
| Machine.LittleEndian16 | Types/Bitmap.cs:94-95 | a short is written as two bytes, low first, of its unsigned value |
| Machine.LittleEndian32RoundTrip | Types/Bitmap.cs:88-101 | the four bytes written for an int read back as its unsigned 32-bit value |
| Machine.LittleEndian32ReadsBack | Types/Bitmap.cs:88-101 | the bytes of a non-negative int read back as that int |
| Machine.LittleEndian16ReadsBack | Types/Bitmap.cs:94-95 | the bytes of a non-negative short read back as that short |
| Machine.UInt32FromLittleEndianInjective | Types/ImageData.cs:139-140 | two four-byte sequences that read as the same uint are equal |
| Grids.IndexInRange | Types/Collections/Grid.cs:119-135 | an in-bounds cell's index x + y * Width lies in [0, Width * Height) |
| Grids.IndexInjective | Types/Collections/Grid.cs:119-122 | distinct cells with x in [0, Width) have distinct indices |
| Grids.Grid.IndexOf | Types/Collections/Grid.cs:119-122 | no contract of its own: the flat index x + y * Width, unchecked; IndexInRange and IndexInjective state its range and injectivity |
| Grids.Grid.IsInBounds | Types/Collections/Grid.cs:132-135 | no contract of its own: the bounds test that TryGet and TrySet are stated with |
| Grids.Grid.constructor | Types/Collections/Grid.cs:25-30 | width * height cells, all default |
| Grids.Grid.WithData | Types/Collections/Grid.cs:35-44 | a grid over the given array when its length is width * height |
| Grids.Grid.Create | Types/Collections/Grid.cs:35-44 | the data constructor raises exactly when the length is not width * height, and otherwise wraps the array itself |
| Grids.Grid.Get | Types/Collections/Grid.cs:49-51 | the getter fails exactly when the flat index leaves the array; every in-bounds cell succeeds |
| Grids.Grid.Set | Types/Collections/Grid.cs:52 | the setter fails, changing nothing, exactly when the flat index leaves the array; otherwise it writes that one cell |
| Grids.RowOverflowAliases | Types/Collections/Grid.cs:47-53 | (Width, 0) is out of bounds, yet the indexer silently addresses (0, 1) instead of failing |
| Grids.Grid.TryGet | Types/Collections/Grid.cs:67-77 | true with the cell exactly in bounds; false with default otherwise |
| Grids.Grid.TrySet | Types/Collections/Grid.cs:96-104 | in bounds it writes only cell (x, y), reads back and returns true; out of bounds it returns false and changes nothing |
| Grids.Grid.Clear | Types/Collections/Grid.cs:148-151 | every cell becomes default |
| Grids.Grid.Fill | Types/Collections/Grid.cs:156-164 | every cell becomes the value, and the same grid is returned |
| Grids.Grid.FillWith | Types/Collections/Grid.cs:169-180 | every cell (x, y) becomes factory(x, y), and the same grid is returned; a grid without cells in bounds (a dimension at most zero) keeps its whole array |
| Grids.Grid.WriteKeepsEarlier | Types/Collections/Grid.cs:171-176 | the row-major loop never writes back over a cell it filled earlier |
| Images.MagicAgrees | Types/ImageData.cs:111-143 | "IMGD" read back as a little-endian uint is 0x44474D49, the number Read checks, and no other four bytes are |
| Images.ImageData.constructor | Types/ImageData.cs:29-34 | width * height pixels, all zero, without validation |
| Images.ImageData.WithData | Types/ImageData.cs:39-59 | an image over the given array when the checks pass |
| Images.ImageData.Create | Types/ImageData.cs:39-59 | raises exactly when width <= 0, height <= 0 or the length is not width * height, in that order; otherwise wraps the array |
| Images.ImageData.Index | Types/ImageData.cs:66 | no contract of its own: the flat index y * Width + x; SameIndex states its injectivity and Valid its range |
| Images.ImageData.IsInBounds | Types/ImageData.cs:90-93 | no contract of its own: the bounds test that Get and Set are stated with |
| Images.ImageData.Get | Types/ImageData.cs:66 | Data[y * Width + x] in bounds and zero out of bounds |
| Images.ImageData.Set | Types/ImageData.cs:67-75 | out of bounds nothing changes; in bounds only Data[y * Width + x] is written, and a following get returns it |
| Images.ImageData.SameIndex | Types/ImageData.cs:64-76 | two in-bounds positions with the same index are the same position |
| Bitmaps.PaddingBounds | Types/Bitmap.cs:77-79 | padding is in 0..3, the row size is a multiple of 4, and there is no padding exactly when width is a multiple of 4 |
| Bitmaps.Header | Types/Bitmap.cs:87-101 | the header fields written are 54 bytes, PIXEL_DATA_OFFSET |
| Bitmaps.HeaderLayout | Types/Bitmap.cs:87-117 | read back at the BMP offsets: "BM", file size 54 + dataSize, pixel offset 54, info header size 40, width, height, 1 plane, 24 bits per pixel, image size dataSize |
| Bitmaps.HeaderPieces | Types/Bitmap.cs:87-101 | each field sits at its offset as the BinaryWriter encodes it |
| Bitmaps.ZerosAreZero | Types/Bitmap.cs:106-109 | the padding written is zero bytes |
| Bitmaps.PixelBytes | Types/Bitmap.cs:72-75 | three bytes per pixel |
| Bitmaps.PixelBytesAt | Types/Bitmap.cs:72-75 | pixel k is serialised at bytes 3k..3k+3 in B, G, R order |
| Bitmaps.RowsLength | Types/Bitmap.cs:103-110 | count chunks of step bytes, each padded, make count * (step + pad) bytes |
| Bitmaps.RowsAt | Types/Bitmap.cs:103-110 | chunk k sits at offset k * (step + pad), holds bytes k * step onward, and is followed by zero padding |
| Bitmaps.EmitRows | Types/Bitmap.cs:103-110 | the row loop over offset emits exactly Rows: each chunk followed by its padding |
| Bitmaps.WriteRow | Types/Bitmap.cs:105-109 | one row is its bytes followed by exactly pad zero bytes, and no padding when pad is 0 |
| Bitmaps.FileLength | Types/Bitmap.cs:81-110 | the corrected file is exactly fileSize = 54 + rowSize * Height bytes long |
| Bitmaps.FileRow | Types/Bitmap.cs:86-110 | in the corrected file, row y starts at 54 + y * rowSize, holds the 3 * Width bytes of pixels y * Width onward, and ends in zero padding |
| Bitmaps.AsWrittenLength | Types/Bitmap.cs:103-110 | as written, the file is 54 + 3 * Height * (Width + padding) bytes |
| Bitmaps.AsWrittenSize | Types/Bitmap.cs:103-110 | as written, the file is 2 * Height * padding bytes longer than the fileSize in its header; the two agree exactly when Height is 0 or Width is a multiple of 4 |
| Bitmaps.OnePixelAsWritten | Types/Bitmap.cs:103-110 | a 1x1 image is written as 60 bytes while its header announces 58 |
| Bitmaps.Bitmap.constructor | Types/Bitmap.cs:9-24 | Data holds Width * Height pixels, all black |
| Bitmaps.Bitmap.Index | Types/Bitmap.cs:31 | no contract of its own: the flat index y * Width + x that Get and Set address |
| Bitmaps.Bitmap.IsInBounds | Types/Bitmap.cs:53-56 | no contract of its own: the bounds test that Get and Set are stated with |
| Bitmaps.Bitmap.Get | Types/Bitmap.cs:31 | Data[y * Width + x] in bounds and black out of bounds |
| Bitmaps.Bitmap.Set | Types/Bitmap.cs:32-38 | in bounds only index y * Width + x is written and reads back; out of bounds nothing changes |
| Bitmaps.Bitmap.WriteAsWritten | Types/Bitmap.cs:70-111 | the bytes the source's Write emits: header, then 3 * Height chunks of Width bytes, each padded |
| Bitmaps.Bitmap.Write | Types/Bitmap.cs:70-111 | with the loop stepping by a whole row: the header, then Height padded rows, fileSize bytes in all |
| Colors.FromBytes | Types/Color.cs:11-17 | the bytes are stored unchanged, and alpha defaults to 255 |
| Colors.FromRgba | Types/Color.cs:50-57 | R, G, B and A are bits 24-31, 16-23, 8-15 and 0-7 of the int's two's-complement value, its little-endian bytes in reverse |
| Colors.Unpacked | Types/Color.cs:53-56 | the arithmetic shift and mask give the bytes of the unsigned 32-bit value |
| Colors.RepackRoundTrip | Types/Color.cs:50-57 | (R<<24)\|(G<<16)\|(B<<8)\|A as a 32-bit int is FromRgba's argument |
| Colors.NegativeColors | Types/Color.cs:53 | sign extension is masked away: negative ints give their top two's-complement byte as R |
| Collections.ToIndex | Extensions/CollectionExtensions.cs:37-45 | (source[i], i) for every i, as many pairs as elements |
| Collections.Where | Extensions/CollectionExtensions.cs:50-61 | the loop yields exactly Kept: the elements whose predicate holds at their own position |
| Collections.Positions | Extensions/CollectionExtensions.cs:50-61 | the kept positions are in range and strictly increasing |
| Collections.PositionsExact | Extensions/CollectionExtensions.cs:52-59 | i is kept exactly when pred(source[i], i): the index is the original position, not a count of kept elements |
| Collections.KeptAtPositions | Extensions/CollectionExtensions.cs:50-61 | Where yields, in order, the elements at the kept positions and nothing else |
| Collections.SelectWhere | Extensions/CollectionExtensions.cs:66-77 | the loop yields exactly Chosen |
| Collections.ChosenAtPositions | Extensions/CollectionExtensions.cs:66-77 | SelectWhere yields the selector applied to each kept element and its original position, in order |
| Collections.ChosenIsMappedKept | Extensions/CollectionExtensions.cs:66-77 | SelectWhere is the selector, with original positions, mapped over what Where keeps |
| Collections.IgnoringIndex | Extensions/CollectionExtensions.cs:82-85 | with delegates that ignore the index, SelectWhere is the plain filter followed by the plain map |
| Collections.SelectWhereUnindexed | Extensions/CollectionExtensions.cs:82-85 | the index-free overload is the plain filter, then the plain map |
| Collections.SelectWhereIndexedFilter | Extensions/CollectionExtensions.cs:90-93 | the overload with an index-free selector maps it over what the indexed Where keeps |
| Collections.SelectWhereIndexedMap | Extensions/CollectionExtensions.cs:98-101 | the overload with an index-free predicate gives the selector each kept element and its original position |
| Thinkers.StepAsWritten | Entity/Thinker.cs:28-43 | Update as written: nothing with interval <= 0; no think while time remains; otherwise one think and a remainder still <= 0 |
| Thinkers.Step | Entity/Thinker.cs:4 | Update as the class comment describes it: after a think the next one is one interval after the moment it fell due |
| Thinkers.NoIntervalNeverThinks | Entity/Thinker.cs:30-33 | with interval <= 0 no series of updates changes anything or thinks |
| Thinkers.ThinksOnEveryUpdate | Entity/Thinker.cs:41-42 | once it has thought, the source's thinker thinks on every later update with non-negative time, however little time passes |
| Thinkers.TwiceInOneAndAHalfIntervals | Entity/Thinker.cs:34-42 | interval 1, updates of 1 and 0.5: the source thinks twice, the corrected thinker once |
| Thinkers.TimeIsAccountedFor | Entity/Thinker.cs:4 | the corrected thinker accounts for all time: time until next think minus intervals thought falls by exactly the time passed |
| Thinkers.NeverFallsBehind | Entity/Thinker.cs:4 | with no update longer than the interval, the corrected thinker keeps the time until its next think in (0, interval] |
| Thinkers.Thinker.constructor | Entity/Thinker.cs:7-17 | interval and time until next think both start at the argument, with no thinks |
| Thinkers.Thinker.UpdateAsWritten | Entity/Thinker.cs:28-43 | the new state is StepAsWritten of the old |
| Thinkers.Thinker.Update | Entity/Thinker.cs:28-43 | the new state is Step of the old |
| Thinkers.Thinker.Reset | Entity/Thinker.cs:48-51 | time until next think returns to the interval; nothing else changes |
| Thinkers.Thinker.ResetTo | Entity/Thinker.cs:56-60 | both become the argument |
| Thinkers.Thinker.ResetBoth | Entity/Thinker.cs:65-69 | the two are set independently |
| Thinkers.Thinker.Wait | Entity/Thinker.cs:74-77 | time is added to time until next think; the interval stays |
| Animations.Advance | Animation/Controller.cs:42-67 | not playing changes nothing; otherwise time accumulates, and once a frame's duration has built up it is used up and the frame advances by one and is reported, unless a non-looping animation is at its last frame, where it stops instead |
| Animations.NonLoopingStaysInRange | Animation/Controller.cs:58-62 | a non-looping animation that starts within its frames stays within them, whatever updates follow |
| Animations.LoopingRunsPastTheEnd | Animation/Controller.cs:64 | a looping animation does not wrap: from the last frame it moves to frame FrameCount |
| Animations.FramesReportedInOrder | Animation/Controller.cs:64-66 | the frame never goes back, and each new frame is reported once, in order |
| Animations.Controller.constructor | Animation/Controller.cs:2-22 | frame 0, not playing, no time accumulated, frame duration 1 / framesPerSecond |
| Animations.Controller.SetFramesPerSecond | Animation/Controller.cs:8-16 | the frame duration becomes 1 / value; nothing else changes |
| Animations.Controller.SetFrameCount | Animation/Controller.cs:5 | only the frame count changes |
| Animations.Controller.SetLooping | Animation/Controller.cs:7 | only the looping flag changes |
| Animations.Controller.Play | Animation/Controller.cs:24-27 | only the playing flag is set |
| Animations.Controller.Stop | Animation/Controller.cs:29-35 | not playing, frame 0, no time accumulated, and OnStopped fires once |
| Animations.Controller.Pause | Animation/Controller.cs:37-40 | playing is cleared; the frame and the accumulated time stay |
| Animations.Controller.Update | Animation/Controller.cs:42-67 | the new state is Advance of the old; OnStopped does not fire |

## Left out

- Dijkstra optimality is not stated. The class comment says the algorithm may be wrong for weights other than 1.
- Dijkstra weights are reals instead of floats. `float.MaxValue` as an initial distance is an explicit infinity.
- Dijkstra nodes are reference-type nodes. "No predecessor" is `None`: `default(T)` of a value type would break the walk back.
- ShortestPath.Dijkstra.Solve does not fix an order of dictionary keys or successor sets.
  - The key order is a parameter.
  - The successor order is chosen arbitrarily.
  - Its contract therefore holds for every order.
- ShortestPath.Dijkstra.AddEdge implements the documented two-edge effect. The source's unbounded recursion is modelled beside it, by the fuel-bounded AddEdgeAsWritten (see Findings).
- ShortestPath.UndirectedAddEdgeAsWrittenDiverges: divergence is shown as "no fuel suffices" rather than as a non-terminating call.
- The console I/O of the Ansi class (cursor, clear, scroll, `Write`, `WriteLine`) is not modelled. It writes to the terminal.
- Streams and GZip in `ImageData.Write`/`Read` and `Bitmap.Write` are not modelled. Only the bytes that reach the stream are.
- Only the magic number of the ImageData file format is modelled.
- The float-to-byte conversion of Bitmap pixels is not modelled. The pixel array holds the converted colours.
- The `Vector2` overloads of Grid, ImageData and Bitmap are not modelled. They cast floats to ints.
- The float and vector constructors of Color, and its conversions, are not modelled.
- `GetRandom` and `Shuffle` are not modelled, because they depend on randomness.
- `Progress.Rate` and `Progress.TimeRemaining` are not modelled, because they read the wall clock.
- Bitmaps.Representable: images whose sizes overflow the header's 32-bit fields are excluded, not wrapped.
- Bitmaps.Bitmap.constructor requires non-negative width and height. The source accepts any pair whose product is a non-negative int.
- Bitmaps.Bitmap.constructor: `width * height` is the exact product. The source's unchecked `int` product wraps past 2^31 - 1, so huge sizes allocate a wrapped number of pixels there.
- Grids.Grid.constructor and Images.ImageData.constructor require width * height >= 0. The runtime raises on a negative array size, and that error is not modelled.
- Grids.Grid.constructor: the cell count is the exact product width * height, not the 32-bit wrapped product the source allocates.
- Grids.Grid.WithData: the length the array must have is the exact product width * height, not the wrapped one.
- Grids.Grid.Create: its length check compares with the exact product width * height. The source compares with the wrapped product, so for sizes past 2^31 - 1 cells the two checks differ.
- Grids.Grid.Get: the flat index x + y * Width is exact. The source computes it in wrapping `int` arithmetic, so a far out-of-bounds position can wrap into the array there and read a cell, where the model fails.
- Grids.Grid.Set: the same exact flat index as Get, so the wrapped writes of far out-of-bounds positions are not modelled.
- Images.ImageData.constructor: the pixel count is the exact product width * height, not the wrapped product the source allocates.
- Images.ImageData.WithData: the length the array must have is the exact product width * height, not the wrapped one.
- Images.ImageData.Create: its length check compares with the exact product width * height, not the wrapped one the source computes.
- Ansi.CreateSequence: the codes are natural numbers. The source takes `params object[]` and joins each code's `ToString()`, so negative numbers or arbitrary objects are accepted there; every caller in the source passes non-negative integers.
- Strings.TryGet: strings are sequences of Unicode scalar values. The source's `str[index]` indexes UTF-16 code units, so past the Basic Multilingual Plane it counts two positions per character and can return a lone surrogate, which the model cannot express.
- Tokenizer.Read: strings are sequences of Unicode scalar values. C# strings index UTF-16 code units, so past the Basic Multilingual Plane a character counts once here and twice in the source, and token columns differ.
- Tokenizer.ReadLine: the same scalar-value indexing, so its column counter and its per-character classification differ from the source on surrogate pairs.
- Ansi.Format: the same scalar-value indexing, so the positions it reports in errors differ from the source's UTF-16 positions on surrogate pairs.
- Ansi.TranslateTag: the same scalar-value indexing for its IndexOf and Substring positions.
- Ansi.Interpret: the prefix tests for "fg:", "bg:", "#fg" and "#bg:" are ordinal. The source's `StartsWith(string)` is culture-sensitive and skips ignorable characters such as U+00AD, so "\u00ADfg:red" is an unknown colour there and an unknown sequence here; only the kind of error differs.
- Ansi.InterpretTag: the same ordinal prefix tests as Interpret.
- Ansi.TranslateTag: the same ordinal prefix tests as Interpret.
- Ansi.Format: the same ordinal prefix tests as Interpret, so on tags with ignorable characters its error kind can differ from the source's.
- Ansi.ParseByte: the culture of `byte.Parse` is fixed. The signs are '+' and '-', and white space is the set NumberStyles.Integer allows (tab to carriage return, and space). Trailing NULs are accepted, as .NET's parser does. The error "not a number" is BadByte and "out of range" is ByteOverflow.
- Progress.BarShape is stated only while current * width fits an int. Bar itself models the wrap-around.
- Animations.Controller.constructor and Animations.Controller.SetFramesPerSecond require a non-zero rate. With 0 the runtime's float division gives infinity, which reals cannot express.
- Tokenizer: `char.IsWhiteSpace` and `char.IsLetterOrDigit` are given as sets of characters. The input is already split into lines, standing for `StringReader.ReadLine`.
- Tokenizer: a token's line and column are unbounded naturals. The source's `int` counters would wrap only past 2^31 lines or characters.
- Collections iterators: these are finite sequences rather than lazy enumerables. The delegates are pure functions, and the position counter does not wrap.
- `default(T)` of Grid is passed to its constructors as `blank`.
- The "#fg:" and "#bg:" forms documented at Term/Ansi.cs:245-247 are kept as written. Every tag that starts with '#' reaches the first RGB branch, which parses "fg:r" or "bg:r" as the red byte and fails. The model proves that both forms are rejected (ForegroundRgbTagsRejected, BackgroundRgbTagsRejected) rather than correcting them. The "#bg:" branch, which would also emit a foreground sequence, is therefore never reached.
- ShortestPath.Dijkstra.Solve does not promise that a reachable end is found. The queue is only approximately ordered: an improved node is inserted at the insertion index, which can pass end, so end can reach the head of the queue before its predecessor is relaxed. For example, with edges s->a (1), s->b (10), s->c (1), a->b (1), c->u (1), u->e (1), and b and e each having a successor, key order [s, a, b, c, e, u] and the successors of s taken in the order a, b, c end the loop with e at the head and no predecessor, so Solve(s, e) gives (false, []). Only an end that is a direct successor of start is promised.

## Findings

| source | as written | input that shows it | evidently intended | confidence | as-written member | corrected member |
|---|---|---|---|---|---|---|
| Entity/Dijkstra.cs:166 | the mirrored call `edge with { From = edge.To, To = edge.From }` keeps IsDirected false, so AddEdge calls itself forever | any undirected edge, e.g. Edge(a, b, 1, false) | register the reverse edge once, as the comment on line 145 says ("two edges") | not executed | ShortestPath.UndirectedAddEdgeAsWrittenDiverges | ShortestPath.Dijkstra.AddEdge |
| Types/Bitmap.cs:103 | the row loop moves on by Width bytes, emitting 3 * Height chunks of Width bytes, each padded | a 1x1 image: 60 bytes written, 58 announced in the header | move on by a whole row of Width * 3 bytes, so the file is fileSize bytes long | not executed | Bitmaps.OnePixelAsWritten | Bitmaps.Bitmap.Write |
| Entity/Thinker.cs:41 | after a think the remainder, at most zero, is added to itself, so it stays at most zero and the thinker thinks on every later update | interval 1, updates of 1.0 then 0.5: two thinks in 1.5 units of time | add the interval, so the thinker thinks once per interval as the class comment says | not executed | Thinkers.TwiceInOneAndAHalfIntervals | Thinkers.TimeIsAccountedFor |
| Term/Progress.cs:21 | `current * 100` is computed in 32 bits and wraps for current > 21474836 | PercentComplete(21474837, 21474837) is -99 | a share in 0..100 for 0 <= current <= total | not executed | Progress.PercentCompleteWrapsAtScale | Progress.PercentCompleteWide |
