# The parsing engine of cmark-gfm

A model, in Dafny, of the stateful cores of cmark-gfm, with proofs of what each of them promises.  Each
core is an optimised loop over mutable state; beside it stands a simple specification (a flat string, a
recursive walk, a linear scan, a line split), and the two are proved to agree for all inputs.

The inline parser

- `InlineTree`, `Emphasis`, `EmphasisProof`: one turn of `process_emphasis` on delimiters and siblings; every
  turn keeps the text, the order of the two lists, and runs down a measure.
- `EmphasisBounds`: whole runs, and exactly when `openers_bottom` loses a match.
- `EmphasisPairs`: which nodes a match makes, and what a pair of runs comes to; `InlinePairs`: the same from tokens.
- `InlineRun`: the run over a paragraph with both stacks, brackets, nested links and footnote references, whose labels
  are cut by columns; `InlineLoss`: what of the source such a run loses.
- `Subject`: the same at the level of the doubly linked delimiter list, method by method.
- `CodeSpan`: the printer and the parser of code spans.
- `Autolink`: splitting a text at its email links; `AutolinkUrl`: which URLs they get, and which addresses are linked.

The block parser

- `Blocks`: the store of blocks; `BlockParser`, `BlockLines`, `BlockFence`, `BlockMachine`: open blocks over lines,
  with the scanners as oracles; `BlockPlaces`: where a new block, a line and a flag come to stand.
- `ListTight`: tight and loose lists, with the memo bit of `S_ends_with_blank_line`; `BlockTight`: the same over whole
  documents; `TightExamples`: two texts for which it goes wrong.
- `Feed`: the streaming line splitter.
- `TabCursor`: the cursor over a line, its tab columns and its caches.
- `Footnotes`: numbering references and moving definitions; `FootnoteTree`: the same on the tree, where references
  are replaced under a live iterator and unused definitions freed.

The tree

- `NodeKinds`, `NodeTree`, `NodeStore`: kinds, and linking and unlinking in the pointer tree of node.c.
- `NodeWalk`: the iterator.
- `NodeCheck`: `cmark_node_check`, which counts and mends wrong links.
- `NodeFree`: freeing a subtree by splicing it into the list being walked.
- `NodeMerge`: merging text nodes under a live iterator.

Indexes, memory and codecs

- `RefMap`: the label map; `Arena`: the arena allocator; `Utf8`: the UTF-8 sanitiser and codec; `Lists`: lists
  without repetition and their ends; `Octets`: bytes.

Nodes of the tree and blocks of the block parser are records in a store, and a pointer is a place in the store
or `NULL`; each assignment to a link is an update of the store.  Delimiters and arena chunks are linked objects.
What the scanners decide (flanking, block starts, prefixes, matched brackets) is an argument, so the results hold
for every decision.

Eight promises turned out not to hold of the code on all inputs.  Each has a lemma at an input where it fails, and
the exact condition for when it holds:

- The bound `openers_bottom` can hide a match (`EmphasisBounds.BoundLosesAMatch`; `ReachableSearchExact`).
- A label read behind an attribute bracket is gone from the tree when it is not found (`InlineLoss.LabelDropped`;
  `InlineLoss.SpellsExactly`).
- A footnote reference with a line ending in it loses its text, and one with an escaped caret shows another
  (`InlineLoss.NewLineDropped`, `InlineLoss.EscapedCaret`; `InlineLoss.SpellsExactly`).
- A list finalized before a paragraph of definitions in its last item is freed may come out loose where it is tight, and
  by the memo a list around it tight where it is loose (`TightExamples.LooseForNothing`, `TightExamples.TightByMemo`;
  `BlockTight.ParsedTight` for runs without such a line, `BlockTight.UndercutExact` for one such line,
  `ListTight.DecidedExact` and `ListTight.AnswerExact` for every list finalized).
- The memory of backtick runs can miss a code span (`CodeSpan.EarlyExitLosesASpan`; `HandleBackticks`).
- The dot that an email link's domain needs may stand before the at sign (`Autolink.UndottedLink`; `SplitDotted`).
- An empty piece fed between CR and LF adds a line (`Feed.EmptyPieceAddsLine`; `StreamingEqualsBatch`).
- A node inserted beside itself is linked to itself, with the safety checks on too (`NodeStore.BesideItself`;
  `InsertBefore` and its kin say for every accepted move whether a tree is left).

## Model

| member | source | states |
|---|---|---|
| EmphasisProof.EmphTurn | src/inlines.c:783-845 | A match of two `*` or `_` runs keeps the flat text, keeps every remaining delimiter on its own non-empty text node in the same order, and uses up characters. |
| EmphasisProof.StrikeTurn | extensions/strikethrough.c:41-84 | The same for a pair of tildes, whether the lengths agree or not. |
| EmphasisProof.QuoteTurn | src/inlines.c:742-759 | Curling a pair of quotes keeps text and order, and removes just the two delimiters. |
| EmphasisProof.NoOpenerTurn | src/inlines.c:761-771 | A closer without an opener sets the bound, and is removed unless it can open; text and order stay. |
| EmphasisProof.Turn | src/inlines.c:709-775 | Every turn of the main loop keeps text, order and siblings, and lowers (characters left, delimiters ahead). |
| EmphasisPairs.MatchesMean | src/inlines.c:711-727 | Runs match if the first can open and they have one character, unless one of them can do both and their lengths add up to a multiple of 3 that neither alone is. |
| EmphasisPairs.MatchMeans | src/inlines.c:783-845 | With two characters or more in both runs a match makes STRONG and takes two of each, otherwise EMPH and one of each; a run used up is gone with its delimiter, and so are the delimiters between. |
| EmphasisPairs.StrikeMeans | extensions/strikethrough.c:41-84 | Runs of tildes of one length become one node around what they enclose, others stay text; both delimiters go. |
| EmphasisPairs.QuotesMean | src/inlines.c:742-759 | A matched pair of quotes becomes a left and a right one; nothing else changes, and delimiters between stay. |
| EmphasisPairs.PairMeans | src/inlines.c:683-781 | The whole loop on an opener with m and a closer with n characters: a STRONG for every two that both have and an EMPH around them for an odd one; what is left of the longer run stays text. |
| EmphasisPairs.EqualRuns | src/inlines.c:683-781 | Runs of one length n always match, and come to n / 2 STRONG and n % 2 EMPH around anything without delimiters, from a fresh table. |
| InlinePairs.TreeOfPair | src/inlines.c:1713-1735 | A paragraph of a run, text and a run of the same length has that tree. |
| InlinePairs.LinkOfPair | src/inlines.c:1469-1491 | Inside a link the same is done when it is closed. |
| InlinePairs.TreeOfQuotes | src/inlines.c:742-759 | A pair of quotes around text becomes a left and a right one. |
| InlinePairs.TreeOfQuote | src/inlines.c:742-775 | A quote alone: a single one is a right one, a double one a left one unless it can close. |
| EmphasisBounds.RunKeepsText | src/inlines.c:683-781 | Emphasis conserves text, shown or consumed: spelling each EMPH as one character a side and each STRONG as two gives the flat text back, and the loop ends. |
| EmphasisBounds.StepKeepsBounds | src/inlines.c:689-698 | What the table of bounds means is kept by every turn: an opener under a bound fails the multiple-of-3 test against every closer the bound applies to, unless it is a pure opener. |
| EmphasisBounds.FreshBounds | src/inlines.c:692-699 | The freshly filled table has that meaning. |
| EmphasisBounds.BoundedSearchExact | src/inlines.c:711-727 | In a state where the table has its meaning the bounded search finds what an unbounded one would if and only if some delimiter at or above the bound matches, or the closer can open, or its length is a multiple of 3, or no pure opener of its character lies under the bound. |
| EmphasisBounds.ReachableSearchExact | src/inlines.c:683-781 | The same after any number of turns of the loop from a fresh table, with no hypothesis on the table. |
| EmphasisBounds.RunsAgree | src/inlines.c:683-781 | The loop with bounds goes through the states of the loop without them if and only if the two searches agree at each of its turns; then both build one tree. |
| EmphasisBounds.FastRunIsPlainRun | src/inlines.c:709-775 | They do where runs are pure openers and closers, or none is a pure opener: the bounded loop builds the tree of the unbounded one. |
| EmphasisBounds.BoundLosesAMatch | src/inlines.c:761-764 | On `**foo*bar****` the bound set by the middle run hides the first run from the last. |
| InlineRun.NextOk | src/inlines.c:1608-1710 | Every token keeps the invariant of a run (both stacks point into the siblings, in order, at the right offsets, and the siblings account for the text read) and reads exactly its own source. |
| InlineRun.ClosingOk | src/inlines.c:1385-1491 | Closing a link or a footnote reference keeps it too, with `process_emphasis` run on what a link encloses, and what a reference encloses freed. |
| InlineRun.LabelByColumns | src/inlines.c:1405-1427 | The label kept of a reference is as long as the columns of its two ends say, each counted from the line it stands in; empty when they say less than nothing. |
| InlineRun.ReferenceFaithful | src/inlines.c:1405-1427 | So a reference shows its source if and only if its caret is not escaped and no line began in it, or nothing but the caret is in it. |
| InlineRun.OkGood | src/inlines.c:543-558 | In every reachable state the delimiters are in strictly increasing position, each on its own non-empty sibling, in the order of the siblings. |
| InlineRun.TreeAccountsForSource | src/inlines.c:1713-1735 | Every byte of a paragraph is consumed for some node of the finished tree, in order, nested links included. |
| InlineLoss.TreeSpellsSource | src/inlines.c:1239-1253 | The tree is shorter than the source by exactly what the literal closes and references that stay in it have dropped, and spells the source if and only if none of them shows less than it consumed, or something else. |
| InlineLoss.SpellsExactly | src/inlines.c:1385-1491 | The tree spells the source if and only if every literal close consumes just its `]` and every reference has a plain caret and no line begun in it, but for those that a reference encloses. |
| InlineLoss.LineBegun | src/inlines.c:1504-1521 | A line has begun between two places of a run if and only if some text between them has a line ending that is counted. |
| InlineLoss.NothingDropped | src/inlines.c:1469-1491 | Nothing is dropped when that holds of all literal closes and references, enclosed or not. |
| InlineLoss.NewLineDropped | src/inlines.c:1405-1427 | Of `[^a`, a line ending and `b]` the tree shows `[^]`. |
| InlineLoss.EscapedCaret | src/inlines.c:1405-1427 | For `[\^foo]` the tree shows `[^foo]]`. |
| InlineLoss.LabelDropped | src/inlines.c:1239-1253 | On `^[a][b]`, with no attributes for `b`, the tree shows `^[a]`. |
| Subject.Subject.PushDelimiter | src/inlines.c:543-558 | The linked list grows by one delimiter at the current position, at its end. |
| Subject.Subject.RemoveDelimiter | src/inlines.c:518-532 | The linked list loses exactly one node, wherever it was. |
| Subject.Subject.FreeBetween | src/inlines.c:802-808 | The walk back from the closer frees exactly what lies strictly between. |
| Subject.Subject.TakeBetween | src/inlines.c:814-820 | The splice loop takes exactly the siblings up to the closer's node, in order, and always stops there. |
| Subject.Subject.InsertEmphasis | src/inlines.c:783-845 | List and siblings change as one match of the model says, with STRONG where both runs have two characters and else EMPH; the loop goes on at the right delimiter. |
| Subject.Subject.InsertStrikethrough | extensions/strikethrough.c:41-84 | The same for the extension's splice on the shared list. |
| Subject.Subject.MatchQuotes | src/inlines.c:742-759 | The same for quotes. |
| Subject.Subject.FindOpener | src/inlines.c:711-727 | The backward pointer walk returns the first match above the larger of the two bounds, or null. |
| Subject.Subject.Turn | src/inlines.c:709-775 | One turn of the loop on the linked list, delimiters under the stack bottom untouched. |
| Subject.Subject.ProcessEmphasis | src/inlines.c:683-781 | Exactly the delimiters under `stack_bottom` are left, and the siblings are those of the whole bounded run. |
| Subject.Subject.CloseBracket | src/inlines.c:1280-1501 | The tree moves of a closing bracket, on the linked list, are those of the token machine; one that finds no link leaves `]`, whatever it has consumed; a reference keeps the label that its columns cut. |
| Subject.Subject.Take | src/inlines.c:1608-1710 | So is every other token. |
| Subject.Subject.ParseInlines | src/inlines.c:1713-1735 | A whole run leaves both stacks empty, and a tree that accounts for the source, shorter by what was dropped, and spells it exactly when nothing in it shows less or something else. |
| BlockParser.CloseEndOk | src/blocks.c:309-418 | Finalizing the end of the open path keeps the tree well nested, the open blocks a path and the count of finalizations right. |
| BlockParser.CloseLeftOk | src/blocks.c:1410-1414 | So does finalizing the deepest block that a line did not match. |
| BlockParser.PushOk | src/blocks.c:421-444 | So does adding an open child that its parent may contain. |
| BlockParser.OpenBlocksArePath | src/blocks.c:1487-1556 | After every line the open blocks are exactly the path of last children from the root to the current block. |
| BlockParser.EveryBlockFinalizedOnce | src/blocks.c:672-677 | For all scanner decisions, a parsed document has nothing open and every block ever made was finalized once. |
| BlockLines.LineGoesToOneBlock | src/blocks.c:1367-1484 | A line is added to at most one block; to exactly one unless it is blank or ends a fence. |
| BlockPlaces.AddChildPlace | src/blocks.c:421-444 | The new block stands under the deepest block of the path that is a document, quote, footnote definition or item (or custom block), an item under the list that ends the path; exactly the blocks below that are finalized. |
| BlockPlaces.OpenOnePlace | src/blocks.c:1148-1365 | Which block starts open something, and what and where, for each kind of start. |
| BlockPlaces.ItemJoins | src/blocks.c:1306-1325 | An item that matches the open list at the end of the path becomes its next child, and nothing is closed. |
| BlockPlaces.OneLeaf | src/blocks.c:1354-1362 | After any starts a heading, code block or HTML block among the new blocks is the last one. |
| BlockPlaces.IndentedInItem | src/blocks.c:1328-1361 | Once an item is open, indented code in it is code even if the line before was a paragraph. |
| BlockPlaces.WhereLineGoes | src/blocks.c:1367-1556 | For every line: with which blocks it goes on, by their kinds and the prefixes; and which single block, old or new, gets it, lazy continuation included, with everything unmatched closed. |
| BlockPlaces.TextGoes | src/blocks.c:1367-1484 | For a line that starts no block the same in terms of the path alone. |
| BlockPlaces.HeadingEnds | src/blocks.c:1114-1116 | A heading that is open when a line begins is closed behind it, and has the lines it had. |
| BlockPlaces.FlagsOfLine | src/blocks.c:1373-1397 | Which blocks a line leaves flagged as ending with a blank line. |
| BlockPlaces.FinalizedMeans | src/blocks.c:309-355 | Just a paragraph of definitions only is freed, unless white space is preserved; its parent loses it and no other child. |
| BlockPlaces.QuoteHolds | src/blocks.c:1148-1484 | The first line `> a` of a document leaves a paragraph inside a quote. |
| BlockFence.FencesHoldInfo | src/blocks.c:357-363 | No fenced code block is finalized before the line of its info string was added to it. |
| BlockMachine.Parser.Finalize | src/blocks.c:309-418 | The in-place close of one open block: a list is found tight or loose, a paragraph of definitions only is freed (`BlockPlaces.FinalizedMeans`); its assertion that the block is open is a precondition every caller meets. |
| BlockMachine.Parser.AddChildTo | src/blocks.c:421-444 | The climb to a block that can contain the child finalizes exactly the blocks it leaves; `BlockPlaces.AddChildPlace` says which block that is. |
| BlockMachine.Parser.CheckOpenBlocks | src/blocks.c:1080-1146 | Finds the deepest open block that the line goes on with (`BlockPlaces.WhereLineGoes` says which those are); a closing fence ends the line. |
| BlockMachine.Parser.OpenNewBlocks | src/blocks.c:1148-1365 | Opens the blocks the model says, in order, from the scanners' answers. |
| BlockMachine.Parser.AddTextTo | src/blocks.c:1409-1484 | Closes what was not matched and puts the line where the model says. |
| BlockMachine.Parser.ProcessOneLine | src/blocks.c:1487-1556 | One line in place is one line of the model, lazy continuation included. |
| BlockMachine.Parser.FinalizeDocument | src/blocks.c:672-677 | Closes everything that is open, up to the root. |
| BlockMachine.Parser.Parse | src/blocks.c:1487-1556 | A whole document, line by line, ends well nested, with nothing open and each block finalized once. |
| BlockMachine.Parser.EndsWithBlankLine | src/blocks.c:275-288 | The recursion with its memo bit, bit by bit. |
| BlockMachine.Parser.DecideTight | src/blocks.c:384-410 | The two loops of the list case, with the bits they leave. |
| BlockMachine.Parser.NoteLine | src/blocks.c:1367-1397 | The flags that a line leaves on its container, the last child and the blocks above. |
| ListTight.AskedOnce | src/blocks.c:275-288 | Asking whether two different blocks of items end with a blank line never comes to the same block. |
| ListTight.FreshAnswer | src/blocks.c:275-288 | Where no bit is set on the way, the answer is the flag of the last block that last children lead to. |
| ListTight.AnswerExact | src/blocks.c:275-288 | In any store the answer is the flag of the first block on the way whose bit is set, or of the last one, and it is right if and only if that flag says how that block ends. |
| ListTight.SecondAnswer | src/blocks.c:275-288 | Asked about twice, a list or item answers its own flag instead of its last child's. |
| ListTight.DecidedExact | src/blocks.c:384-410 | In any store a list is found tight if and only if no answer about a block with something behind it in the list is yes and no item but the last is flagged; what it asks before does not change an answer, and bits are set only on the way from blocks asked about. |
| ListTight.DecidedSettled | src/blocks.c:384-410 | Where all lists finalized so far are right and bits are set only by them, the next list is found tight if and only if no blank line separates two of its items or two blocks in an item, and the same holds again. |
| ListTight.MovesKeep | src/blocks.c:384-410 | It is kept by any change that leaves alone the finalized lists, their items and what was asked about, or takes the only block of a last item. |
| BlockTight.AddChildRight | src/blocks.c:421-444 | The climb of `add_child` may finalize a list while blocks below it are still open; it asks about none of these. |
| BlockTight.LeftRight | src/blocks.c:1410-1414 | Finalizing the blocks not matched keeps finalized lists right, unless it frees a paragraph of definitions behind another block, the last of a list that the line has finalized. |
| BlockTight.UndercutExact | src/blocks.c:309-418 | If it does free one, all finalized lists stay right if and only if no blank line ends the block before the paragraph, or another blank line makes the list loose anyway. |
| BlockTight.LineTidy | src/blocks.c:1487-1556 | A line without that case keeps every finalized list right, and no open block asked about. |
| BlockTight.ParsedTight | src/blocks.c:672-677 | In a document without such a line every list ends up tight if and only if no blank line separates two of its items or two blocks in an item. |
| TightExamples.LooseForNothing | src/blocks.c:384-410 | `- a`, a blank line, `  [x]: /u` and `# h`: the list is not tight, though its one item holds one block. |
| TightExamples.TightByMemo | src/blocks.c:275-288 | `- - - x`, a blank line, `    [d]: /u` and `  # h`: the outer list is tight, though a blank line stands between two blocks of its item, and the list in that item is not, though nothing is separated in it. |
| Feed.BytesFindLines | src/blocks.c:740-810 | The byte machine, from any state, completes exactly the lines of its input: cut at LF, CR and CRLF, NUL replaced. |
| Feed.LinesHoldNoEnding | src/blocks.c:740-810 | No line processed holds a CR or LF. |
| Feed.CleanMeans | src/blocks.c:783-790 | NUL becomes the bytes of U+FFFD, and nothing else changes. |
| Feed.StreamingEqualsBatch | src/blocks.c:740-810 | Any pieces give the lines of the whole input if and only if no empty piece stands between the CR and the LF of one line ending. |
| Feed.EmptyPieceAddsLine | src/blocks.c:751-755 | Fed CR, nothing and LF, the parser sees two lines, where the whole input has one. |
| Feed.NonEmptyPiecesKeepCrlf | src/blocks.c:751-755 | Non-empty pieces always meet that condition. |
| Feed.Parser.Feed | src/blocks.c:740-810 | The chunked loop leaves the state of the byte machine after the same bytes. |
| Feed.Parser.Stream | src/blocks.c:723-725 | Feeding the pieces and finishing yields the lines of the whole exactly under that condition, and the right total. |
| Feed.Parser.FinishLines | src/blocks.c:1566-1569 | The pending line is processed at the end. |
| TabCursor.PlacedOnce | src/blocks.c:904-931 | The column alone determines offset and partially consumed tab: the column is the tab-stop width of the bytes consumed plus the used part of a tab. |
| TabCursor.AdvanceInParts | src/blocks.c:904-931 | Advancing a columns and then b is advancing a + b. |
| TabCursor.TabEnds | src/blocks.c:904-931 | A tab ends at the next multiple of four columns. |
| TabCursor.Cursor.AdvanceOffset | src/blocks.c:904-931 | Moves to the only position so many columns or bytes further, or to the end of the line, and keeps the cache right. |
| TabCursor.Cursor.FindFirstNonspace | src/blocks.c:866-895 | With or without the cache, position, column, indent and blank are those of a fresh scan. |
| TabCursor.Cursor.ListPadding | src/blocks.c:1277-1304 | One to four columns of white space before text belong to a list marker; otherwise one, and the cursor is restored for the rest. |
| TabCursor.TakenExpands | src/blocks.c:232-246 | What is taken from the cursor on, with tabs expanded, is the expanded line from the current column on. |
| TabCursor.Cursor.AddLine | src/blocks.c:232-246 | The text added to a block is that, the rest of a partially consumed tab included. |
| TabCursor.Cursor.ScanThematicBreak | src/blocks.c:835-860 | Matches exactly three or more of one mark with white space up to the line end; on failure the kill position rules out no break. |
| TabCursor.Cursor.TryThematicBreak | src/blocks.c:1241-1244 | The scan guarded by the kill position finds exactly the same breaks. |
| TabCursor.KillSound | src/blocks.c:835-860 | A scan that fails fails from everywhere between its start and where it stopped. |
| TabCursor.BreakMeans | src/blocks.c:835-860 | A break is a line rest of one of the three marks, at least three times, with spaces and tabs only between. |
| Footnotes.NumberedByFirstReference | src/blocks.c:513-521 | Numbers go to exactly the definitions referenced, one each, in the order of first reference. |
| Footnotes.ReferencesCounted | src/blocks.c:527-530 | The references to one definition carry the numbers 1 to its count, each once. |
| Footnotes.NumberOne | src/blocks.c:518-552 | One reference gets the number of its definition and its own number, or the text it was written as, after any references before it. |
| Footnotes.NoteText | src/blocks.c:541-552 | A reference without a definition becomes `[^`, its label and `]`. |
| Footnotes.InOrder | src/blocks.c:558-568 | Sorting the map's entries by number lists the referenced definitions in the order of first reference. |
| Footnotes.WriteOut | src/blocks.c:558-569 | Each referenced definition leaves its place and follows the root's other children, in order; the others are unlinked. |
| Footnotes.UnlinkRest | src/footnotes.c:51-63 | Every definition that was not written out is out of the tree. |
| Footnotes.PlaceDefinitions | src/blocks.c:558-571 | Both together: the children of every node afterwards. |
| FootnoteTree.Collect | src/blocks.c:498-511 | The map holds the definitions with a label in the order in which the walk leaves them. |
| FootnoteTree.DefsOnce | src/blocks.c:504-509 | No definition is collected twice. |
| FootnoteTree.ReplaceByText | src/blocks.c:541-552 | The new text stands where the freed reference stood, all else has its kind, literal and place. |
| FootnoteTree.SwapWalk | src/blocks.c:515-553 | Then the walk is the same with the text entered in place of the reference entered and left. |
| FootnoteTree.NumberReferences | src/blocks.c:513-556 | The walk afterwards, of a tree changed under the iterator, is the walk before with every reference numbered, or turned into its text. |
| FootnoteTree.DecimalReads | src/blocks.c:532-535 | The number written reads back as itself, digits only and with no zero in front. |
| FootnoteTree.FreeDefinitions | src/map.c:106-121 | The definitions without a number are freed from the newest to the oldest, with all below them, and no node twice. |
| FootnoteTree.ProcessFootnotes | src/blocks.c:492-573 | All of it: the document read with numbers and texts, the counts, the children of every node once the definitions are placed, and what is freed. |
| NodeTree.BypassLoose | src/node.c:941-963 | Unlinking keeps all links consistent and takes exactly one child out of one list. |
| NodeTree.AttachRep | src/node.c:984-1001 | Linking a loose node between two neighbours makes all links consistent with it in that place. |
| NodeTree.MoveAcyclic | src/node.c:113-122 | Moving a node under one that is not below it makes no node its own ancestor. |
| NodeTree.MoveForest | src/node.c:973-1093 | Unlink and link together give a well-formed forest with the node in its new place, also when it already was a neighbour. |
| NodeStore.Store.Unlink | src/node.c:965-971 | The node stands alone, its old parent's list is without it, kinds and literals as before. |
| NodeStore.Store.IsBelow | src/node.c:113-122 | The climb finds out whether one node is the other or below it. |
| NodeStore.Store.MayContain | src/node.c:105-125 | The guard: both nodes there, kinds allowed, and with safety checks no cycle. |
| NodeKinds.WhoContains | src/node.c:66-103 | The same table read by the child: what may hold items, other blocks, and inlines. |
| NodeStore.Store.InsertBefore | src/node.c:973-1004 | Succeeds exactly when `S_can_contain` allows; then a node that fits stands right before the target with nothing else moved, and one that does not fit (the target itself, or without safety checks one above it) leaves links of no tree; otherwise nothing changes. |
| NodeStore.Store.InsertAfter | src/node.c:1006-1037 | The same, right after the target. |
| NodeStore.Store.Replace | src/node.c:1039-1045 | The new node stands where the old one stood, and the old one stands alone; or no tree is left, exactly as for an insertion. |
| NodeStore.Store.PrependChild | src/node.c:1047-1069 | The same as an insertion, as first child; without safety checks a node put below itself leaves links of no tree. |
| NodeStore.Store.AppendChild | src/node.c:1071-1093 | The same as an insertion, as last child. |
| NodeStore.BesideItself | src/node.c:973-1037 | Inserted before or after itself, a node is its own next and previous sibling. |
| NodeStore.ParentLoop | src/node.c:113-122 | A node put below itself is its own ancestor, which the safety check prevents. |
| NodeWalk.WalkRolls | src/iterator.c:54-75 | The recursive walk of a subtree is a run of the iterator's rolling step. |
| NodeWalk.WalkLength | src/iterator.c:42-79 | When leaf kinds have no children the walk takes one step for each leaf and two for each container. |
| NodeWalk.LeafMeans | src/iterator.c:27-40 | The kinds entered without an exit are those that can contain nothing, but for footnote references. |
| NodeWalk.Apart | src/node.c:113-122 | Two siblings' subtrees share no node, so the walk meets none twice. |
| NodeWalk.Iter.Next | src/iterator.c:42-79 | Hands out the walk's next event, and the end for ever after it. |
| NodeWalk.Iter.Skip | src/iterator.c:81-86 | Resetting to a node's exit goes on right behind its subtree's part of the walk. |
| NodeWalk.ShapeUnique | src/iterator.c:42-79 | The children lists determine the one tree below a node, and so its one walk. |
| NodeWalk.AllEvents | src/iterator.c:42-79 | The usual loop sees exactly the recursive walk. |
| NodeWalk.RunUnique | src/iterator.c:42-79 | A sequence of events that starts at the root and rolls to the end is the walk. |
| NodeWalk.RunDistinct | src/iterator.c:42-79 | No event happens twice. |
| NodeCheck.AlongNext | src/node.c:1113-1154 | Each turn of the check enters a node not entered before, or leaves one, or closes a parent not closed before. |
| NodeCheck.AlongEnd | src/node.c:1131-1133 | At the end every node of the subtree has been entered, and every parent closed. |
| NodeCheck.Check | src/node.c:1104-1158 | Whatever the links to previous siblings, parents and last children of a subtree are, the check counts exactly the wrong ones and makes them right, and changes nothing else. |
| NodeCheck.CheckForest | src/node.c:1104-1158 | On a well-formed store, such as every move that fits leaves, the check returns 0 and writes nothing. |
| NodeCheck.NoErrors | src/node.c:1104-1158 | The count is zero if and only if nothing had to be changed. |
| NodeFree.PreorderDistinct | src/node.c:204-226 | The preorder of a subtree lists no node twice. |
| NodeFree.SplicedPending | src/node.c:217-224 | One round leaves a list that runs through the children and then through the rest, with nothing below touched. |
| NodeFree.FreeNodes | src/node.c:204-226 | Frees the pending subtrees in preorder, whatever freed memory may hold, and writes nothing else. |
| NodeFree.FreeNode | src/node.c:228-232 | Frees each node of the subtree once, in preorder; the rest is as after an unlink. |
| NodeFree.BuriedForest | src/node.c:228-232 | What is left is a well-formed forest. |
| NodeMerge.SquashMeans | src/iterator.c:107-122 | Squashing leaves no two texts side by side, keeps the text in order and everything that is no text. |
| NodeMerge.SquashStays | src/iterator.c:107-122 | What has no two texts side by side is left alone. |
| NodeMerge.RunWithout | src/iterator.c:113-118 | Taking a leaf's event out of the walk gives the walk of the forest without that leaf. |
| NodeMerge.LeafGone | src/iterator.c:113-118 | The tree without that leaf has this walk, and no node that was not there before. |
| NodeMerge.TakeNext | src/iterator.c:113-118 | The iterator steps over a text before it is freed, and afterwards stands in the walk of the smaller tree. |
| NodeMerge.MergeRun | src/iterator.c:107-122 | The inner loop merges exactly the texts that follow, with all their literals. |
| NodeMerge.MovesKeepBare | src/node.c:66-103 | No move that the guard allows gives a leaf kind a child. |
| NodeMerge.ConsolidateTextNodes | src/iterator.c:96-127 | The walk afterwards is the walk before with each maximal run of texts made one node, the first, with all the literals.  Nothing outside the subtree changes unless the root is a text with texts behind it; then exactly those leave their lists and are freed. |
| RefMap.CompareOrder | src/map.c:34-37 | The comparison of labels is a strict total order. |
| RefMap.FirstsOfSorted | src/map.c:65-68 | Deduplicating a sorted array leaves strictly increasing labels and, for each, an entry no younger than any other. |
| RefMap.Dedup | src/map.c:65-71 | The in-place loop computes that. |
| RefMap.SortedAnswers | src/map.c:53-72 | The array so made answers every label as a scan of the definitions in order does. |
| RefMap.Map.Create | src/references.c:21-44 | A definition with a label goes behind the others, with its place as age. |
| RefMap.Map.SortMap | src/map.c:53-72 | Sorting and deduplicating keep the answers. |
| RefMap.Map.Search | src/map.c:92 | Halving finds the label if it is there. |
| RefMap.Map.Lookup | src/map.c:74-104 | Returns the first definition of the label unless its size exceeds the budget left, and books its size. |
| RefMap.Map.LookupAll | src/map.c:95-101 | Over any run the sizes returned add up to what was booked, within the limit. |
| RefMap.BudgetKept | src/map.c:97-100 | A run never exceeds its budget, and if what a larger one would return fits, nothing is withheld. |
| RefMap.AnswerMeans | src/map.c:74-104 | A label of 1 to 1000 bytes that does not normalise to nothing is answered by its first definition, unless that is larger than the budget left. |
| CodeSpan.ShortestUnusedBacktickSequence | src/commonmark.c:92-117 | All shorter runs occur in the code, and below 32 its own does not. |
| CodeSpan.RenderCode | src/commonmark.c:360-380 | Prints that fence, a space inside it where needed, the code, and the same again. |
| CodeSpan.ScanFinds | src/inlines.c:337-358 | The scan ends behind the first run of exactly that length, or there is none. |
| CodeSpan.MemoryFailed | src/inlines.c:352-361 | A scan to the end leaves, for every length, the place of the last run. |
| CodeSpan.MemoryPassed | src/inlines.c:352-358 | A scan that succeeds moves that place behind the position for exactly the lengths it passes. |
| CodeSpan.EarlyExit | src/inlines.c:332-336 | The early exit comes exactly for a length passed so, or without a run ahead. |
| CodeSpan.ReplayMeans | src/inlines.c:332-361 | A length is passed so if and only if some call has reached the end and a later one has succeeded past a run of it. |
| CodeSpan.Subject.ScanToClosingBackticks | src/inlines.c:324-362 | After any calls on the subject: finds the closing run if and only if there is one, no longer than 80, and no scan since the first to the end has passed a run of that length on its way to success. |
| CodeSpan.EarlyExitLosesASpan | src/inlines.c:332-336 | A run of three, a one-tick span holding two ticks, and then a two-tick span: after the calls for the first two, the memory misleads about the last. |
| CodeSpan.NormalizeCode | src/inlines.c:367-398 | In place: line endings become spaces, and a space goes from both ends unless only spaces and single line endings are there. |
| CodeSpan.DocumentedRule | src/inlines.c:364-366 | That is the documented rule if and only if the text is not all white space with a CRLF in it. |
| CodeSpan.DocumentedWithoutCr | src/inlines.c:364-398 | So it is for every text without CR, and no text of a document has one (`Feed.LinesHoldNoEnding`). |
| CodeSpan.Subject.HandleBackticks | src/inlines.c:403-424 | Over any run of calls: a span up to the first run of the same length, normalised, unless there is none or the calls before have misled the memory about it; else the backticks as text with the position rewound. |
| CodeSpan.FenceCloses | src/commonmark.c:360-380 | The scan after the opening fence stops at the closing one if and only if the code has no run of that length. |
| CodeSpan.RoundTrip | src/inlines.c:403-424 | Printed and parsed by a fresh subject, the span is consumed whole and gives the code back if and only if the code has something besides white space, no line ending, and leaves a fence unused. |
| Autolink.TrimmedEnd | extensions/autolink.c:57-115 | A trimmed link can be trimmed no further and does not end with more closing than opening parentheses. |
| Autolink.TrimsEntity | extensions/autolink.c:97-108 | An entity at the end of a link goes whole. |
| Autolink.TrimsParenthesis | extensions/autolink.c:57-84 | A closing parenthesis at the end goes exactly when the text has more closing than opening ones. |
| Autolink.AutolinkDelim | extensions/autolink.c:40-116 | The counters kept along the way give the rule stated on the counts of each prefix. |
| Autolink.ValidateProtocol | extensions/autolink.c:301-321 | True exactly when the protocol stands there, not behind a letter or digit. |
| Autolink.Rewind | extensions/autolink.c:356-379 | Goes back over exactly the longest stretch that may stand before the at sign, and notes whether it names a protocol. |
| Autolink.Forward | extensions/autolink.c:387-405 | Goes forward over exactly the longest domain, adds the dots in it to the count it was given, and notes another at sign behind it. |
| Autolink.AttemptOk | extensions/autolink.c:386-419 | An at sign comes to another one further on with the dots counted so far, to a miss further on, or to a link around it that is a local part and a domain; no index leaves the text. |
| Autolink.TryAt | extensions/autolink.c:355-419 | One round of the loop decides so, with the flags and the dot count it carries along. |
| Autolink.ResolveOk | extensions/autolink.c:355-419 | The jumps back to the start of the loop end, with an address at or behind where the search began, or strictly further on; a dot stands behind the first at sign. |
| Autolink.FindLink | extensions/autolink.c:355-419 | The loop with its jumps resolves an at sign. |
| Autolink.SplitReads | extensions/autolink.c:421-455 | Splitting conserves the text: texts and links alternate, read in order as the original, and each link is a local part, an at sign and a domain, linked to itself. |
| Autolink.ResolveText | extensions/autolink.c:355-419 | From an at sign the search comes to the last of the at signs that local bytes and domain characters glue to it, and makes a link there if and only if a domain of at least one character that ends with a letter follows and a dot stands anywhere behind the first. |
| Autolink.LinkDotted | extensions/autolink.c:386-419 | What is linked is an address with a dotted domain if and only if a dot stands behind its own at sign. |
| Autolink.SplitDotted | extensions/autolink.c:344-419 | All links of a text have a dotted domain if and only if no at signs in it are glued together with a dot between them and a domain without one behind the last. |
| Autolink.PlainDotted | extensions/autolink.c:344-419 | For a text without a colon that is a condition on its bytes alone. |
| Autolink.NoLoansAllDotted | extensions/autolink.c:344-419 | It is met when between any two at signs with a dot between them there is something that stands in no domain. |
| Autolink.UndottedLink | extensions/autolink.c:344-407 | In `a@b.c@d` the code links `b.c@d`. |
| AutolinkUrl.TextUrls | extensions/autolink.c:355-455 | Each link of a text has its own text as URL if and only if a colon was accepted before its at sign, or before one glued in front of it; otherwise `mailto:` and its text. |
| AutolinkUrl.PlainUrls | extensions/autolink.c:355-455 | Where no at signs are glued together that is: if and only if the link has a colon. |
| AutolinkUrl.AddressLinks | extensions/autolink.c:323-462 | Every address of local bytes and a dotted domain is linked, whole, with `mailto:` or `xmpp:` in front of it if no letter or digit runs into that, after any text that it does not go on back into. |
| AutolinkUrl.MailtoLink | extensions/autolink.c:366-375 | `mailto:a@b.c` links to itself. |
| Autolink.PostprocessText | extensions/autolink.c:323-462 | The offsets kept along the way split the text at exactly those links, with the URLs that `AutolinkUrl.TextUrls` says. |
| Arena.Arena.Push | src/arena.c:29-36 | A fresh chunk in front of the old ones, the newest of which is marked; nothing while there is none. |
| Arena.Arena.Pop | src/arena.c:38-55 | Back to the newest mark, which is cleared, or to nothing. |
| Arena.Arena.Room | src/arena.c:87-94 | A request goes to the newest chunk, to one of its own behind it, or to a new one half as large again. |
| Arena.Arena.Calloc | src/arena.c:74-102 | An aligned, zeroed block of at least the size asked for inside one chunk, behind all earlier ones; only the newest chunk is written. |
| Arena.AllocAll | src/arena.c:74-102 | Blocks of any run of requests are disjoint, aligned, zero and inside their chunks. |
| Arena.Arena.Run | src/arena.c:29-55 | Any run of requests and balanced pairs leaves the chunks below the newest as they are. |
| Arena.Arena.InScope | src/arena.c:29-55 | Push, any such run, pop: the list of chunks and the record of each of them are as before. |
| Utf8.Valid | src/utf8.c:49-108 | Positive exactly when a character of the grammar stands at the front, and then its length. |
| Utf8.Check | src/utf8.c:110-148 | The copying loops compute the sanitised text, piece by piece as the next rows say. |
| Utf8.BadPiece | src/utf8.c:49-108 | One U+FFFD stands for the first byte and the tail bytes right behind it, as many as its length calls for, or for all that is left when that is shorter; so but at the end no byte is lost that could begin a character. |
| Utf8.GoodPiece | src/utf8.c:110-148 | A character at the front is kept, but NUL. |
| Utf8.SanitizedWellFormed | src/utf8.c:110-148 | The output is well-formed UTF-8 without NUL. |
| Utf8.SanitizedExactly | src/utf8.c:110-148 | Input is unchanged if and only if it is well formed and has no NUL; sanitising twice is sanitising once. |
| Utf8.CharLen | src/utf8.c:26-46 | Positive exactly when enough continuation bytes follow. |
| Utf8.Iterate | src/utf8.c:150-187 | Returns length and scalar value of a character of the grammar, and -1 for anything else. |
| Utf8.EncodeChar | src/utf8.c:189-225 | Writes the character of every scalar value but U+FFFE and U+FFFF. |
| Utf8.ValueInjective | src/utf8.c:150-187 | No two characters have the same value. |
| Utf8.EncodeThenIterate | src/utf8.c:189-225 | Decoding inverts encoding exactly on the scalar values but those two. |
| Utf8.IterateThenEncode | src/utf8.c:150-225 | Iterating accepts exactly what validating accepts, and encoding gives the bytes back but for the same two. |

## Left out

- Scanners (src/scanners.c, extensions/ext_scanners.c) and the decisions made from them: flanking, block starts, container prefixes, link destinations and reference lookups are arguments, so the results hold for every answer.
- Renderers other than the code span case, the command line, plugins, user data, mutexes, `cmark_parser_feed_reentrant`.
- Source positions of nodes: many special cases, little structure.
- Tables, task lists, tag filter, and the `www.` and `http` autolinks.
- Machine integers: `int`, `bufsize_t` and `size_t` are unbounded, except the saturating total of `Feed`.  So the wrap of `nmem * size` in the arena and of the age difference in `refcmp` is not modelled.
- Memory: a freed node's record may hold anything (`NodeFree`), delimiters and chunks that are freed just leave the list.  Allocation failure is not modelled; `arena_realloc` and `cmark_arena_reset` are left out.
- InlineRun.TreeAccountsForSource: sibling nodes of the emphasis algorithm are values with an address, not linked records.  A closing bracket without an open one is a text token.
- BlockParser.EveryBlockFinalizedOnce: fence info, heading levels and reference definitions inside paragraphs are not modelled; whether a paragraph holds definitions only is an argument.  The `parent` and child links of blocks are one record and one sequence of places.
- BlockMachine.Parser.Finalize: end positions and the contents of code and HTML blocks.  The assertion that a fenced block holds a line ending is met by the block's first line, unless that is the last line of the input and `CMARK_OPT_PRESERVE_WHITESPACE` leaves it without one.
- BlockTight.ParsedTight: says nothing of a document with a line of the excluded kind as a whole; what each such line does is `UndercutExact`, and what each later list is found to be is `ListTight.DecidedExact`.
- InlineLoss.SpellsExactly: a caret behind a bracket is one of the source, plain or escaped; carets from entities, and those of `^[` that an option adds, are not modelled.  Whether line endings in code spans and HTML count depends on `CMARK_OPT_SOURCEPOS`; each text token carries how it is counted.
- NodeStore: extensions' rules for containment and nodes of different allocators.  Operations are specified on well-formed stores; on what a move that does not fit leaves, the source's own loops may not end.
- NodeWalk.WalkLength: `cmark_node_set_type` can give a node that has children a leaf kind; then its children are not walked.
- NodeCheck.Check: a wrong `first_child` or `next` link is followed, not detected, by the code; the contract is about subtrees whose `first_child` and `next` links are right.  The messages printed are not modelled.
- NodeMerge.ConsolidateTextNodes: the same trees are excluded, by requiring that leaf kinds have no children, which `NodeMerge.MovesKeepBare` shows every move to keep.  Source columns of merged nodes are not modelled.
- FootnoteTree.ProcessFootnotes: requires that every node may stand where it does, as in every tree without the extensions' kinds that the parser makes; the record of a freed node holds no pointers.  It sorts a copy of the map's entries.  The pointers from references to definitions are the definitions' places in `notes`.
- RefMap.Map.Lookup: labels are normalised by an arbitrary function (case folding tables are not part of this model); `qsort` is an insertion sort.
- TabCursor.Cursor.AddLine: leaves the cursor behind a partially consumed tab without updating the column, as the code does; the cursor is not used again on that line.
- Autolink.AutolinkDelim: requires that the trimming does not come down to a semicolon at the front of the text, where the code's subtraction wraps and it reads before the text; no caller's text begins with one.
- Autolink.PostprocessText: the nodes are a sequence of texts and links, not linked records.  The test for an empty trimmed link is left out, because it never holds.
- Utf8: `cmark_utf8proc_case_fold` (its table is not part of this model), and the classes of space and punctuation.
