# gEDA: models and proofs

Dafny models of the parts of gEDA that work on mutable structures, with proofs of what they promise.
`dafny verify dfyconfig.toml` checks all of it.

* `sheet_spec.dfy`, `sheet_store.dfy`, `sheet_run.dfy`: the sparse cell store of GtkSheet. The class
  `Sheet` has its fields (row arrays of cells, allocated and logical bounds, headers) and its loops;
  it is proved against a plain model of headers and a rectangle of texts, for single operations and
  for whole editing sessions. `sheet_laws.dfy` says of that model, header by header, what each operation does to it.
* `sheet_pixels.dfy`: the cached pixel offsets of rows and columns against the lookups that scan sizes.
* `sheet_range.dfy`, `drag.dfy`: ranges of cells; dragging and resizing the selection with the mouse.
* `flex_tables.dfy`, `flex_spec.dfy`, `flex_scanner.dfy`: the runtime of the flex scanner of olib. The
  tables are a parameter, of which only the structure that flex gives them is used: the type
  `Automaton`. The actions of the rules are a parameter too, a function from the tokens so far to the
  start condition. The chunks in which input arrives are arbitrary. The tokens are also described place by place, by
  the input from each token on and the character before it.
* `natural_order.dfy`, `merge_spec.dfy`, `list_sort.dfy`: the merge sort of gattrib's string lists and the
  comparison it uses. Nodes are relinked in place; an order of the nodes is a sequence of their
  original positions. `natural_laws.dfy` says what the order is in terms of the characters of two texts.
* `overbar.dfy`: the overbar markup of pin and net names.
* `viewdraw.dfy`, `viewdraw_grammar.dfy`, `split_value.dfy`: how the ViewDraw converter attaches attributes to
  objects, and how it rewrites one kind of value. A record is modelled by what decides which lines are
  printed; the table of attribute translations, which may drop an attribute, is an arbitrary answer.
  `viewdraw_laws.dfy` says which objects and which names a record adds, and in whose block a name may stand.
* `rename.dfy`: the net rename table of gattrib.

Where the code does something one would not expect, the models follow it:

* In `cmp` the step over a digit run is followed by the step over a character, so the character behind
  two equal numbers is not compared. When a number ends the text this second step leaves the string;
  the models let it stay at the end instead. `NaturalOrder.ReadsAllExactly` says which texts are read in full.
* `InsertColumn` called for no column clears every cell from the insertion point on.
  `SheetSpec.EmptiedFromIsIdentity` says when that is harmless.
* Rows and columns appended behind a hidden one take their offset from its full size.
  `SheetPixels.AppendFreshCurrentExactly` says when the offsets are right nevertheless.
* Resizing a range upwards or to the left stops one row or column short of what the mouse moved. A range grabbed at its
  corner therefore never reaches a first row or column it does not have already (`Drag.PulledToFirstRow`); behind hidden rows the corner can be
  grabbed further down, and then it may (`Drag.PulledFromBehindHiddenRow`). `Drag.Selection.ResizeTo` says when.
* A press with the button already down replaces the range under what is being dragged. `Drag.Selection.DoPress` says
  when the two still fit, `Drag.ClickedWhileDragging` shows a case in which they do not.
* A rename request that is redirected may take a destination that is a source itself, which is then not renamed
  again. `Rename.AddJoinsExactly` says which requests join their names, `Rename.RedirectedTooEarly` shows some that do not.

## Model

| member | source | states |
|---|---|---|
| `SheetStore.Sheet.constructor` | gattrib/src/gtksheet_2_2.c:1094-1132 | A new sheet shows fresh headers and no text; its allocated bounds stay within the sheet exactly when it has at least two rows and two columns. |
| `SheetStore.Sheet.GrowSheet` | gattrib/src/gtksheet_2_2.c:7975-8011 | Growing the allocated part adds new, distinct, empty row arrays and slots and changes no slot that was there. |
| `SheetStore.Sheet.CheckBounds` | gattrib/src/gtksheet_2_2.c:8014-8022 | Afterwards the slot is allocated; the bounds grow no further than that slot and no content changes. |
| `SheetStore.Sheet.SetCell` | gattrib/src/gtksheet_2_2.c:3549-3610 | The text of one cell of the sheet changes, the store grows to reach it; outside the sheet nothing happens. |
| `SheetStore.Sheet.GetText` | gattrib/src/gtksheet_2_2.c:3741-3755 | The text that the sheet shows at the cell, or nothing if it is empty, unallocated or outside. |
| `SheetStore.Sheet.RealCellClear` | gattrib/src/gtksheet_2_2.c:3659-3691 | The text of one slot goes, with `delete` its cell too; every other slot keeps cell and text. |
| `SheetStore.Sheet.CellClear` | gattrib/src/gtksheet_2_2.c:3613-3656 | Clearing or deleting a cell empties that cell and no other. |
| `SheetStore.Sheet.RangeClear` | gattrib/src/gtksheet_2_2.c:3711-3738 | Exactly the cells of the range, or all cells, are emptied, although the loops stop at the allocated bounds. |
| `SheetStore.Sheet.AddRows` | gattrib/src/gtksheet_2_2.c:7747-7782 | Rows are appended: fresh headers chained behind the last offset, empty cells, nothing else changed. |
| `SheetStore.Sheet.AddColumns` | gattrib/src/gtksheet_2_2.c:7701-7744 | The same for columns. |
| `SheetStore.SinkHeaders` | gattrib/src/gtksheet_2_2.c:7794-7802 | The downward stride loop takes the fresh headers from the end exactly into the gap and every header at or behind it n places on. |
| `SheetStore.Sheet.SinkRows` | gattrib/src/gtksheet_2_2.c:7804-7820 | The stride loop over row arrays: every cell at or behind k is n rows further down and knows it, the gap is empty. |
| `SheetStore.Sheet.InsertRow` | gattrib/src/gtksheet_2_2.c:7785-7823 | The sheet shows map insertion of n fresh rows, and every cell object is found at its new place, for every k and n. |
| `SheetStore.Sheet.SinkCells` | gattrib/src/gtksheet_2_2.c:7850-7855 | One row of the column insertion; the clearing inside the loop never meets a live cell when n > 0. |
| `SheetStore.Sheet.InsertColumn` | gattrib/src/gtksheet_2_2.c:7826-7860 | Map insertion of n fresh columns; with n = 0 the same loop empties every column from k on. |
| `SheetStore.RaiseHeaders` | gattrib/src/gtksheet_2_2.c:7872-7887 | The header loops of a deletion leave the headers before the band and, moved up, those behind it. |
| `SheetStore.Sheet.RaiseRows` | gattrib/src/gtksheet_2_2.c:7891-7905 | Clearing rows and swapping them forward in strides of n moves every row behind the band up by n. |
| `SheetStore.Sheet.DeleteRow` | gattrib/src/gtksheet_2_2.c:7863-7922 | Map deletion for every relation of k, n, the allocated and the logical bound; every cell behind the band moves up, none of the band is left. |
| `SheetStore.Sheet.DeleteColumn` | gattrib/src/gtksheet_2_2.c:7925-7972 | The same for columns. |
| `SheetSpec.InsertDeleteRows` | gattrib/src/gtksheet_2_2.c:7785-7922 | Inserting n > 0 rows and deleting them again is the identity on texts, headers, bounds and allocated bounds, offsets recomputed. |
| `SheetSpec.InsertDeleteColumns` | gattrib/src/gtksheet_2_2.c:7826-7972 | The same for columns. |
| `SheetSpec.EmptiedFromIsIdentity` | gattrib/src/gtksheet_2_2.c:7826-7860 | Inserting no column at all loses nothing if and only if there is no text at or behind k. |
| `SheetLaws.InsertedHeaders` | gattrib/src/gtksheet_2_2.c:7785-7860 | Header by header: what is inserted is new, rows of the default height and columns of 80 pixels; every other header keeps its looks at its new place; every offset begins where the visible header before it ends. |
| `SheetLaws.DeletedHeaders` | gattrib/src/gtksheet_2_2.c:7863-7972 | Header by header: those left keep their looks, and the offsets are right again. |
| `SheetLaws.AppendedHeaders` | gattrib/src/gtksheet_2_2.c:7701-7782 | Appended headers are new, each beginning behind the full size of the one before it; the others are the same, offsets too. |
| `SheetLaws.NewSheet` | gattrib/src/gtksheet_2_2.c:1094-1132 | A new sheet has new rows and columns side by side and no text. |
| `SheetLaws.OtherSideStays` | gattrib/src/gtksheet_2_2.c:7701-7972 | An operation on rows leaves the columns and their bound alone, and the other way round. |
| `SheetLaws.BoundsMove` | gattrib/src/gtksheet_2_2.c:7785-7972 | The allocated bound grows by what is inserted at or before it, and loses exactly the indices in the deleted band. |
| `SheetRun.Run` | gattrib/src/gtksheet_2_2.c:7700-8022 | Over any sequence of operations the representation invariant holds (row arrays distinct, each live cell at its own slot, allocated bounds within the sheet) and the sheet shows what the sequence means. |
| `SheetRun.TextIsLastText` | gattrib/src/gtksheet_2_2.c:3741-3755 | The text at a cell after any sequence is the last one written there, the cell being followed back through every insertion and deletion. |
| `SheetRun.TextAfter` | gattrib/src/gtksheet_2_2.c:3741-3755 | A sheet made, edited in any way and asked for a text answers with that last text, if it is not empty. |
| `SheetRun.RunIsGood` | gattrib/src/gtksheet_2_2.c:7700-8022 | No sequence leaves a text beyond the allocated bounds. |
| `SheetPixels.FromPixel` | gattrib/src/gtksheet_2_2.c:160-215 | The scan for a pixel finds the first visible row or column that reaches it, or an end of the sheet; always one of the sheet. |
| `SheetPixels.LookupMonotone` | gattrib/src/gtksheet_2_2.c:160-215 | A pixel further on never belongs to an earlier row or column. |
| `SheetPixels.RecalcIsCurrent` | gattrib/src/gtksheet_2_2.c:6109-6133 | Recomputed offsets are the sums of the visible sizes before them. |
| `SheetPixels.LookupInvertsCache` | gattrib/src/gtksheet_2_2.c:150-215 | With current offsets the scan finds a visible column c for every x in (left(c), left(c) + width(c)]. |
| `SheetPixels.AppendFreshCurrentExactly` | gattrib/src/gtksheet_2_2.c:7701-7782 | Offsets are current after appending if and only if nothing was appended, or the last row or column was visible, or had no size. |
| `Drag.Selection.DoPress` | gattrib/src/gtksheet_2_2.c:4931-4986 | A press grabs the selection, at the mouse or, when only a cell is active, at that cell, or clicks a cell. With the button already down it is a click, and what is dragged follows the selection afterwards if and only if the click leaves the range alone, or what is dragged is a single cell, or, for resizing, a line of cells with the clicked one in it. |
| `Drag.ClickedWhileDragging` | gattrib/src/gtksheet_2_2.c:4931-4986 | Such a click, made with the mouse from a new sheet on, after which what is dragged is not the selection moved. |
| `Drag.Selection.ClickCell` | gattrib/src/gtksheet_2_2.c:5048-5132 | A click makes the range the cell the handlers answer with, or the active cell when they refuse it, or leaves it alone when the cell is hidden or the active cell cannot be left. |
| `Drag.Selection.DragTo` | gattrib/src/gtksheet_2_2.c:5367-5391 | The dragged range is the selection moved by what the mouse moved, one axis held for whole rows and columns, as long as it stays on the sheet. |
| `Drag.Selection.ResizeTo` | gattrib/src/gtksheet_2_2.c:5392-5440 | The range is stretched along one axis as far as the mouse moved, upwards and to the left one less, while it stays on the sheet; it takes in the row or column of the mouse, and the first row or column, if and only if where it was grabbed and where the mouse is satisfy a condition, which for a grab at the last row is that the mouse is not above the range. |
| `Drag.PulledToFirstRow` | gattrib/src/gtksheet_2_2.c:5405-5428 | A range grabbed at its corner and pulled to the first row stops at the second. |
| `Drag.PulledFromBehindHiddenRow` | gattrib/src/gtksheet_2_2.c:4941-4944 | Grabbed a pixel below its corner, where the lookup passes over a hidden row, the same range reaches the first row. |
| `Drag.Selection.ExtendSelection` | gattrib/src/gtksheet_2_2.c:5511-5571 | Unless something is dragged, the range holds the active and the selection cell, and every range that holds both contains it; the selection cell is the cell of the mouse, or the end of its whole row or column. |
| `Drag.Selection.DoMotion` | gattrib/src/gtksheet_2_2.c:5367-5453 | A motion with the button down drags, resizes, or makes the range the smallest that holds the active cell and the cell of the mouse; with the button up it changes the cursor only. |
| `Drag.Selection.DoScroll` | gattrib/src/gtksheet_2_2.c:5018-5045 | The timer extends a selection as a motion to the same cell does, and does nothing else to the ranges. |
| `SheetRange.ContainsMeansHolds` | gattrib/src/gtksheet_2_2.c:5511-5571 | A range contains another if and only if it holds each of its cells. |
| `Drag.Selection.SelectRange` | gattrib/src/gtksheet_2_2.c:4711-4741 | The range becomes the selection with the two cells at its corners, unless the active cell cannot be left. |
| `Drag.Selection.DoRelease` | gattrib/src/gtksheet_2_2.c:5171-5241 | The dragged range becomes the selection, with the active cell and the selection cell at its corners, except when a press ended the selection meanwhile and the active cell cannot be left. |
| `Drag.Selection.Run` | gattrib/src/gtksheet_2_2.c:4859-5453 | Over any run of presses, motions, scrolls and releases all ranges stay on the sheet; and when no press comes between a press and its release, the dragged range is the selection moved, or grown along one axis. |
| `FlexTables.Transition` | contrib/olib/olib.c:1152-1158 | The compressed lookup ends and finds the entry of the transition matrix. |
| `FlexTables.DeltaIsFirstOwned` | contrib/olib/olib.c:1152-1158 | That entry is the first one owned along the defaults. |
| `FlexTables.DeltaByDefault` | contrib/olib/olib.c:1152-1158 | One step of the lookup: the own entry, or that of the default, under the class of the class when the default is a template. |
| `FlexScanner.Scanner.Match` | contrib/olib/olib.c:1144-1162 | The match loop stops where no character leads on, or at a NUL, with the last accepting prefix remembered. |
| `FlexScanner.Scanner.FindAction` | contrib/olib/olib.c:1164-1171 | Where matching stopped, backing up gives the longest accepted prefix and its rule. |
| `FlexSpec.StuckIsLongest` | contrib/olib/olib.c:1164-1171 | The last accepting prefix before the automaton jams is the longest match of the whole input. |
| `FlexSpec.RunStep` | contrib/olib/olib.c:1146-1162 | One character more is one transition more, a NUL of the input being read under class 1. |
| `FlexScanner.Scanner.GetPreviousState` | contrib/olib/olib.c:2186-2212 | Replaying the text gives the state just before the end of the buffer, a NUL inside being read as a character. |
| `FlexScanner.Scanner.TryNulTrans` | contrib/olib/olib.c:2219-2240 | A NUL of the input is stepped over, or ends the match. |
| `FlexScanner.Scanner.MakeRoom` | contrib/olib/olib.c:2093-2133 | The grow loop ends with room for a character behind the text that is kept, which is unchanged. |
| `FlexScanner.Scanner.GetNextBuffer` | contrib/olib/olib.c:2048-2182 | The stream, what is buffered from the text on and what is unread, is the same before and after; both sentinels are in place; the answer is continue, end of file or last match exactly by what was read and what is pending. |
| `FlexScanner.Scanner.EndOfBufferAction` | contrib/olib/olib.c:1911-2031 | Scanning resumes in the same text of the same stream, having made progress, whichever of the four ways it takes. |
| `FlexScanner.Scanner.NextToken` | contrib/olib/olib.c:1130-1178 | The next token is the longest match of the input that is left, from the second start state exactly at the beginning of a line, and exactly its text is taken off; then it is the beginning of a line if and only if the text ends with a newline. Or the input is at its end. |
| `FlexScanner.ScanAll` | contrib/olib/olib.c:1130-2182 | For any tables of a scanner, any initial buffer size and any way the input is cut into chunks, the texts of the tokens make up the input, and every token is the longest match where it begins, from the second start state exactly at the start of the input and behind a newline. |
| `FlexSpec.LongestExists` | contrib/olib/olib.c:1164-1171 | On any input that is not empty some prefix is a longest match. |
| `FlexSpec.ScanExists` | contrib/olib/olib.c:1130-1178 | Every input has a token sequence. |
| `FlexSpec.ScanIsUnique` | contrib/olib/olib.c:1130-1178 | It has only one, so the result of a scan is determined. |
| `FlexSpec.ScansEverything` | contrib/olib/olib.c:1130-1178 | The texts of the tokens, one behind the other, are the input. |
| `FlexSpec.ScansFromStart` | contrib/olib/olib.c:1071-1143 | The token behind any number of others is the longest match of what is left of the input, from the second start state if and only if the character before it is a newline or there is none. |
| `FlexSpec.LongestIsUnique` | contrib/olib/olib.c:1164-1171 | There is only one longest match. |
| `FlexTables.JamBaseIsDead` | contrib/olib/olib.c:1162 | The exit test of the match loop: from a state with that base no character leads on. |
| `NaturalOrder.Cmp` | gattrib/src/listsort.c:83-113 | cmp has the sign of an order on token sequences: position first, then numbers by value and letters without case. |
| `NaturalOrder.OrderReflexive` | gattrib/src/listsort.c:83-113 | The order is reflexive. |
| `NaturalOrder.OrderAntisymmetric` | gattrib/src/listsort.c:83-113 | Swapping the items changes the sign, so the order is total. |
| `NaturalOrder.OrderTransitive` | gattrib/src/listsort.c:83-113 | The order is transitive, and equality with it. |
| `NaturalOrder.OrderZero` | gattrib/src/listsort.c:83-113 | Items compare equal if and only if positions and tokens are the same. |
| `NaturalOrder.ReadsAllExactly` | gattrib/src/listsort.c:92-106 | A text is compared in full if and only if no number is followed by another character; otherwise that character is skipped. |
| `NaturalOrder.SkippedCharacterExample` | gattrib/src/listsort.c:92-106 | Two different texts that compare equal because of it. |
| `NaturalLaws.PositionFirst` | gattrib/src/listsort.c:89-91 | A smaller position comes first, whatever the texts. |
| `NaturalLaws.OrderBehind` | gattrib/src/listsort.c:92-112 | Texts that begin alike compare as what follows, unless the beginning ends within a number. |
| `NaturalLaws.BeginningFirst` | gattrib/src/listsort.c:92-112 | A text comes before any that goes on behind it. |
| `NaturalLaws.ShorterNumberFirst` | gattrib/src/listsort.c:94-100 | Of two numbers the shorter comes first when the longer has no leading zero, whatever stands behind them. |
| `NaturalLaws.SmallerDigitFirst` | gattrib/src/listsort.c:94-100 | Of two numbers of one length the one with the smaller first differing digit comes first. |
| `NaturalLaws.LeadingZero` | gattrib/src/listsort.c:94-100 | A leading zero does not count. |
| `NaturalLaws.SkippedBehindNumber` | gattrib/src/listsort.c:94-106 | Behind equal numbers one character of each text is skipped, and the rest decides. |
| `NaturalLaws.CaseDoesNotCount` | gattrib/src/listsort.c:101-106 | Texts that differ only in the case of letters compare equal. |
| `NaturalLaws.AlphabetDecides` | gattrib/src/listsort.c:101-106 | Texts that first differ in a letter come in the order of the alphabet, whatever the case. |
| `NaturalLaws.NumberBeforeLetter` | gattrib/src/listsort.c:92-106 | A number comes before a letter. |
| `NaturalLaws.SmallLetterDecides` | gattrib/src/listsort.c:101-106 | A letter and another character come in the order of their codes, the letter in its small form. |
| `NaturalLaws.CodesDecide` | gattrib/src/listsort.c:101-106 | Texts that first differ in other characters come in the order of their codes. |
| `MergeSpec.MergeSorted` | gattrib/src/listsort.c:174-207 | Merging two sorted runs of which the first came first gives a sorted run. |
| `MergeSpec.PassDoublesBlocks` | gattrib/src/listsort.c:156-211 | A pass makes sorted aligned runs of k nodes into sorted aligned runs of 2k nodes. |
| `MergeSpec.PassesBound` | gattrib/src/listsort.c:219-225 | With p passes 2 to the power p - 1 is less than twice the length: about log2(n) + 1 passes. |
| `MergeSpec.StableOrderIsUnique` | gattrib/src/listsort.c:135-226 | There is only one stable order of the nodes. |
| `ListSort.MergeRuns` | gattrib/src/listsort.c:174-207 | The merge loop appends two neighbouring runs in merged order by relinking, all nodes behind them untouched. |
| `ListSort.MergePass` | gattrib/src/listsort.c:149-217 | One pass links all nodes in the merged order, closed or ended as the list is, back links included. |
| `ListSort.InStableOrder` | gattrib/src/listsort.c:174-226 | In an order that is one sorted run, of any two nodes the earlier is smaller, or equal and earlier in the input. |
| `ListSort.Listsort` | gattrib/src/listsort.c:135-226 | The same nodes, each once, linked one to the next, linear or circular, previous links mirroring next ones when double; of any two nodes the earlier one is smaller by cmp, or equal and earlier in the input; after the computed number of passes. |
| `Overbar.ParseOverbars` | libgedacairo/edapangorenderer.c:368-440 | The buffer of the size of the input holds the text and zeros, the ranges are those between each two delimiters, the start of an overbar left open is known. |
| `Overbar.ParseOfPrint` | libgedacairo/edapangorenderer.c:381-439 | Parsing undoes printing for every text and every list of ordered ranges, empty and adjacent ones included. |
| `Overbar.RangesAreOrdered` | libgedacairo/edapangorenderer.c:421-432 | On any input the closed ranges are ordered, disjoint and within the text. |
| `Overbar.TextFits` | libgedacairo/edapangorenderer.c:385-392 | The text and two characters for each delimiter fit the length of the input. |
| `Overbar.RenderOfSymbols` | libgedacairo/edapangorenderer.c:398-419 | Writing the symbols down again is never longer than the input, and gives it back if and only if no escape was needless. |
| `Overbar.PrintOfParse` | libgedacairo/edapangorenderer.c:381-439 | Printing undoes parsing if and only if the markup has no needless escape and leaves no overbar open. |
| `Overbar.OverbarOver` | libgedacairo/edapangorenderer.c:398-432 | A part between two delimiters, each a backslash and an underscore, is overlined, and the delimiters are not shown. |
| `Overbar.EscapedCharacter` | libgedacairo/edapangorenderer.c:398-419 | A backslash before any other character, itself included, stands for that character. |
| `ViewDraw.Converter.BeginAttach` | contrib/gmk_sym/convert_sym.c:1990-1997 | A pending block is opened, once. |
| `ViewDraw.Converter.ResetAttributes` | contrib/gmk_sym/convert_sym.c:2006-2025 | An opened block is closed, a pending one forgotten, and no object owns attributes any more. |
| `ViewDraw.Converter.OneOwner` | contrib/gmk_sym/convert_sym.c:2006-2025 | While a document is being written at most one of the three owner flags is set, and one is exactly when attributes are added. |
| `ViewDraw.Converter.Attach` | contrib/gmk_sym/convert_sym.c:734-879 | An attached attribute goes into the block of the object before it, under the name that its owner gives it, or stands alone. |
| `ViewDraw.Converter.DoLabel` | contrib/gmk_sym/convert_sym.c:1296-1379 | A label becomes the name of the net, component or pin before it, in its block. |
| `ViewDraw.Converter.Convert` | contrib/gmk_sym/convert_sym.c:427-525 | One record changes output and flags as it changes the document; the program ends just for fatal records. |
| `ViewDraw.Converter.ConvertFile` | contrib/gmk_sym/convert_sym.c:420-535 | The output is the printed document of the records, or what was printed of it when a record ended the program. |
| `ViewDrawGrammar.ConvertedInGrammar` | contrib/gmk_sym/convert_sym.c:420-535 | Every converted file is a version line and objects, pins, nets, buses and components each followed by at most one block of texts. |
| `ViewDrawGrammar.PrintedInGrammar` | contrib/gmk_sym/convert_sym.c:420-535 | A conversion that ended early lacks at most one closing brace. |
| `ViewDrawGrammar.GrammarBraces` | contrib/gmk_sym/convert_sym.c:1990-2025 | Braces balance, never nest, open right behind an object that may own them, and enclose texts only. |
| `ViewDrawGrammar.MeaningPinsInOrder` | contrib/gmk_sym/convert_sym.c:823-860 | Every pin number is owned by the pin it counts, in the order of the file, and by nothing else. |
| `ViewDrawLaws.NamesSuitOwners` | contrib/gmk_sym/convert_sym.c:734-879 | For any records: net names stand only in blocks of nets and buses, designators in those of components, and names, types, sequence and pin numbers in those of pins; a text on its own is plain. |
| `ViewDrawLaws.LabelNames` | contrib/gmk_sym/convert_sym.c:1296-1379 | A label adds one net name to a net or a bus, one designator to a component, one pin name to a pin, or is a text on its own. |
| `ViewDrawLaws.AttributeNames` | contrib/gmk_sym/convert_sym.c:734-879 | What an attached attribute adds to the block of a pin and of anything else; one that is dropped only opens the block. |
| `ViewDrawLaws.RecordDraws` | contrib/gmk_sym/convert_sym.c:985-1579 | The objects that boxes, circles, arcs, pins, nets, buses and components are drawn as, and who owns attributes afterwards. |
| `ViewDrawLaws.RecordWrites` | contrib/gmk_sym/convert_sym.c:582-982 | Texts stand alone, and a line is drawn in one piece less than it has points. |
| `ViewDrawLaws.ItemPrinted` | contrib/gmk_sym/convert_sym.c:1990-2025 | An object is printed as one line and its block in braces behind it, one line for each text. |
| `SplitValue.Rewrite` | contrib/gmk_sym/convert_sym.c:1848-1882 | The single pass computes the pieces between commas, each rewritten and given its suffix, joined by commas. |
| `SplitValue.PiecesOfRewritten` | contrib/gmk_sym/convert_sym.c:1848-1882 | Cutting the result at its commas gives one file name for each piece of the value, in order. |
| `SplitValue.SplitOfJoin` | contrib/gmk_sym/convert_sym.c:1848-1882 | Cutting undoes joining. |
| `SplitValue.JoinOfSplit` | contrib/gmk_sym/convert_sym.c:1848-1882 | Joining undoes cutting. |
| `SplitValue.CleanOne` | contrib/gmk_sym/convert_sym.c:1848-1882 | What one character becomes: parentheses go, a minus is an underscore, capitals become small, all others stay. |
| `SplitValue.CleanInParts` | contrib/gmk_sym/convert_sym.c:1848-1882 | Characters are rewritten one by one. |
| `SplitValue.WordRewritten` | contrib/gmk_sym/convert_sym.c:1848-1882 | A value without commas gets one suffix, at its end. |
| `SplitValue.CommaRewritten` | contrib/gmk_sym/convert_sym.c:1848-1882 | At a comma the suffix goes in front of it, and the rest is rewritten on its own. |
| `Rename.RenameTable.Search` | gattrib/src/s_rename.c:156-181 | The search answers yes if and only if a pair has one of the two names as its source. |
| `Rename.RenameTable.Add` | gattrib/src/s_rename.c:190-240 | A pair is recorded as it stands, or, if one of its names is a source already, redirected to just the destinations of the pairs whose source is its destination; nothing recorded before changes. |
| `Rename.RenameLowlevel` | gattrib/src/s_rename.c:244-276 | One pair is applied to every pin of every net, and nothing but net names changes. |
| `Rename.RenameTable.RenameAll` | gattrib/src/s_rename.c:278-299 | The pairs are applied in order to every pin, whatever its net; so pins that shared a name still do, and the lists are as they were. |
| `Rename.LastPairRenames` | gattrib/src/s_rename.c:244-299 | A last pair renames what the others made its source, and nothing else. |
| `Rename.RedirectedExactly` | gattrib/src/s_rename.c:201-226 | The redirected pairs lead from the source to just where pairs of the table lead from the destination. |
| `Rename.TableIsRequests` | gattrib/src/s_rename.c:162-240 | Requests none of which has a name that was the source of an earlier one are recorded all as they stand. |
| `Rename.FreshJoinsExactly` | gattrib/src/s_rename.c:162-299 | Then two names become one if and only if requests connect them. |
| `Rename.RecordedForGood` | gattrib/src/s_rename.c:190-299 | Once a request is recorded as it stands, its two names become one, whatever is added later. |
| `Rename.NeverJoinsStrangers` | gattrib/src/s_rename.c:190-299 | Names that become one were connected by requests, however these were redirected. |
| `Rename.JoinsExactly` | gattrib/src/s_rename.c:190-299 | When every request joined its two names at the time it was made, two names become one if and only if requests connect them. |
| `Rename.RecordedJoinsExactly` | gattrib/src/s_rename.c:190-299 | So it is when every request was recorded as it stands. |
| `Rename.AddJoinsExactly` | gattrib/src/s_rename.c:201-233 | A request joins its two names if and only if the table before it meets a condition on what it makes of them. |
| `Rename.OneForGood` | gattrib/src/s_rename.c:190-299 | Names that are one after some requests stay one after all later ones. |
| `Rename.JoinedForGood` | gattrib/src/s_rename.c:190-299 | A request that joins its names when it is made, redirected or not, joins them for good. |
| `Rename.RenameNets` | gattrib/src/s_rename.c:113-299 | A new set, requests and the renaming of all pins: two pins end with one name only if requests connect their names, and, when every request joined its names at the time, whenever they do. So it is, with the requests as they stand, when none has a name that was the source of an earlier one. |
| `Rename.RedirectedTooEarly` | gattrib/src/s_rename.c:201-226 | A family of redirected requests whose names are not joined. |

## Left out

- SheetStore.Sheet.constructor: sheets of one row or one column are built but not edited; their allocated bound is 1, beyond the sheet, and deleting can leave a missing row array inside it.
- SheetStore.Sheet.SetCell: text, position and existence of a cell only; attributes, links, justification and the automatic widening of columns are not modelled, and no text and an empty text are one, as for gtk_sheet_cell_get_text.
- SheetSpec.InsertDeleteRows: the cached offsets come back recomputed, so they are as before only where they were current.
- SheetPixels.LookupInvertsCache: the scroll offset and the title area are one number; drawing, scroll bars and pixmaps are not modelled.
- Drag.Selection.ClickCell: a click that the handlers redirect to the title of a row or column, or to both, which selects whole rows and columns.
- Drag.Selection.Run: events over the cells only; presses on the titles, the resizing of rows and columns there, and handlers that redirect a click to a title are not modelled. Whole rows and columns may be selected when the run begins. The timer scrolls the window, which changes no range.
- FlexScanner.ScanAll: the numbers 36, 69, 326, 327 and 495 of the generated scanner are constants, the contents of its tables are not transcribed; `WellFormed` lists what is required of them.
- FlexScanner.Scanner.GetNextBuffer: buffers that are never filled (scanned strings) and buffers the scanner does not own are not modelled; `yywrap` always answers that there is no further file, as in olib.
- FlexScanner.Scanner.MakeRoom: the buffer size is unbounded, so the growth by an eighth when doubling overflows, and the last extension, which is shown not to be needed, do not occur.
- yyunput, input, yyless, yymore, the stack of buffers and the actions of the rules of olib.
- NaturalOrder.Cmp: the overflow of `atoi` and of the difference of positions; characters outside ASCII under `tolower` and `isdigit`; the step beyond the end of the string.
- ListSort.Listsort: the overflow of the run length.
- Overbar.ParseOverbars: the whole string only, as its caller passes it; the end of an overbar left open, which the code computes from a null pointer, is not given.
- ViewDraw.Converter.ConvertFile: which lines are printed, not their coordinates, colours and texts; net nodes, styles and continued lines print nothing; the sizes of buffers and node tables.
- SplitValue.Rewrite: the fixed size of the text buffer.
- Rename.RenameTable.Add: the limits on pairs and sets, where the program stops; an earlier set is kept only to be shown, so a new set is an empty table.
- Memory that is freed or leaked: an object that is dropped is one that is no longer reached.
- f_export.c, s_object.c, parsecmd.c, gmk_sym.c, smash_megafile.c, sarlacc_schem.c and the drawing of libgedacairo: input and output, library calls, or plain arithmetic.
