# mdbook-rolltables core in Dafny

mdbook-rolltables is an mdBook preprocessor for tabletop role-playing books.
It finds markdown tables whose first header cell is `d` and whose first
column is otherwise empty. It fills that column with dice results: a die
name in the header, and one roll result per data row. The die is picked
from the number of rows. Some row counts are read as a pair of dice
(16 rows: d4 and d4, with labels `1.1` … `4.4`). Any other count is read
as a single die.

The program works on the event stream of a markdown tokenizer. For each
chapter it does four things:
- rebuilds each table from the events (`MarkdownTable::new`);
- tests whether the table is a roll table;
- generates the labels (`get_dice_iterator`);
- writes the table back as events.

The repository holds this pipeline twice: the library `src/lib.rs` and an
older command-line variant `src/main.rs`. They are modelled as separate
modules.

| file | module | contents |
|---|---|---|
| `collections.dfy` | `Collections` | `Option` and `FlatMap`, the concatenating map of an iterator's `flat_map` |
| `markdown.dfy` | `Markdown` | the event datatype (table tags, text, one opaque catch-all) and decimal formatting of naturals with its inverse |
| `tables.dfy` | `Tables` | the table value and its well-formedness; the extraction specification with its error cases; the eager serialisation; the extract/serialise round trip; detection; relabelling of the first column |
| `dice_labels.dfy` | `DiceLabels` | the label vocabulary both generators share: label cells, die notation, the usual dice, the combined row counts, and the label sequences of the range maps |
| `rolltables_lib.dfy` | `RollTablesLib` | `src/lib.rs`: option defaults, the extraction loop, `head`/`rows`, `events_iter`, `get_dice_iterator`, the rewrite body of `handle_chapter` and the chapter loop, with their properties |
| `rolltables_main.dfy` | `RollTablesMain` | `src/main.rs`: option defaults, the extraction loop, the `MarkdownTableIterator` cursor as a class, `get_dice_iterator`, the rewrite body of `handle_chapter` and the chapter loop, with their properties |
| `variants.dfy` | `Variants` | how the two variants relate |

Modelling choices:
- A `MarkdownTable` is a plain value in the source: it derives `Clone` and is never shared. It is modelled as the datatype `Tables.Table`.
- The in-place pushes of `new` and the in-place assignments of `handle_chapter` are local-variable updates inside methods with loops. Each method is proved equal to a specification function.
- The command-line iterator updates its cursor fields on every call, so it is a class, `RollTablesMain.MarkdownTableIterator`. Its `next` is one method in the source. The model splits it along the nested branches into `Next`, `NextInRow` (inside a row) and `NextInCell` (inside a cell). The fields are updated in the same order and the same events are returned.
- A panic while reading or inspecting a table becomes an error value of `Tables.TableError`, one constructor per kind of failure. `NoOpenRow` covers both `last_mut().unwrap()` sites in `new` (a cell start, or a content event, before any row). The indexes of the in-place assignments in `handle_chapter` (src/lib.rs:115 and 118, src/main.rs:117 and 120) are not error values. They are the precondition `HasFirstColumn` of `Tables.Relabelled` and of `RelabelInPlace`. Detection establishes it before any assignment runs.
- A chapter is modelled as its event sequence. The chapter loop returns the events handed to the markdown writer, or the first error.

Facts of the code worth stating outright:
- The default header separator is `""` in the library, so a 16-row table gets the header `d44`. In the command-line variant it is `" d"`, giving `d4 d4`. See `Variants.DefaultHeadsDiffer`.
- A malformed table stream makes the code panic in `unwrap` or in indexing. The model returns a `TableError` instead.
- The library's crate documentation (src/lib.rs:16-20) shows the three-row labels as `1,2`, `3,4` and `5,6`. The code emits `1, 2`, `3, 4` and `5, 6` (src/lib.rs:232-234), and the model follows the code.
- The three-row special case exists only in the library. The command-line variant labels three rows `d3` with `1`, `2`, `3`; see `Variants.DiceDifferOnThree`.

## Model

| member | source | states |
|---|---|---|
| Markdown.NatToString | src/lib.rs:246 | the decimal spelling of a natural is non-empty, all digits, and has no leading zero |
| Markdown.ParseNatToString | src/lib.rs:246 | reading the decimal spelling back gives the number |
| Markdown.NatToStringInjective | src/lib.rs:246 | two numbers have the same label exactly when they are equal |
| Tables.StepStored | src/lib.rs:142-150 | one extraction step keeps every stored event in place and stores the event itself exactly when it is cell content |
| Tables.StepWellFormed | src/lib.rs:142-150 | one extraction step stores only cell content, so rows and cells never contain table tags |
| Tables.ExtractFrom | src/lib.rs:139-151 | a successful extraction keeps the alignment, consumes events through a table-end event, and returns the untouched suffix after it |
| Tables.ExtractStopsAtFirstEnd | src/lib.rs:147 | extraction breaks at the first table-end event: no event of the consumed span before its last is a table end |
| Tables.ExtractWellFormed | src/lib.rs:142-150 | an extracted table contains no table tags in any cell |
| Tables.ExtractKeepsContent | src/lib.rs:142-150 | the stored events are exactly the consumed cell-content events, in stream order: nothing is lost, duplicated or reordered |
| Tables.ExtractRowCount | src/lib.rs:144 | an extracted table has exactly one row per head-start or row-start event consumed |
| Tables.SerializeLength | src/main.rs:192-240 | a table is written as 2 + Σ over rows of (2 + Σ over cells of (2 + cell length)) events |
| Tables.ExtractSerialize | src/lib.rs:139-192 | reading back the events written for a well-formed table gives the same table, and the events after it are left unread |
| Tables.FirstCellsEmpty | src/lib.rs:109 | the test over data rows gives true exactly when every row has an empty first cell; it gives an error (an index panic) only when some row has no cells |
| Tables.Detect | src/lib.rs:108-109 | detection is true exactly for roll tables: header cell 0 is the bare `d` and every data row's cell 0 is empty. A missing header row or header cell is an error, and errors arise only from rows without cells. A header cell 0 other than `d` gives false |
| Tables.Relabelled | src/lib.rs:115-119 | relabelling sets header cell 0 and each data row's cell 0 in row order; it keeps every other cell, the row count, each row's length and the alignment |
| Tables.RelabelledWellFormed | src/lib.rs:115-119 | relabelling with plain-content labels keeps a table well formed |
| DiceLabels.CombinedSizes | src/lib.rs:222-227 | each combined row count maps to a pair of dice whose product is the count, the larger die first |
| DiceLabels.PairLabels | src/lib.rs:214-216 | the combined labels number a·b, each a single text event |
| DiceLabels.PairLabelsAt | src/lib.rs:214-216 | die-major order: the label `n0 sep n1` sits at position (n0 − 1)·b + (n1 − 1) |
| DiceLabels.SingleDie | src/lib.rs:246 | a single die of n faces gives n labels, label i being the number i + 1 |
| RollTablesLib.New | src/lib.rs:139-151 | the push loop of `new` computes exactly the extraction specification, errors included |
| RollTablesLib.Push | src/lib.rs:143-150 | one event of the match in `new` takes exactly the step the extraction specification takes: open a row, open a cell, ignore a closing tag, stop at the table end, store anything else in the open cell, or fail on a missing row or cell |
| RollTablesLib.DataRowsAsFlatMap | src/lib.rs:184-190 | the flat-mapped data rows are the row-tagged serialisation of rows 1 onward |
| RollTablesLib.EventsIter | src/lib.rs:169-192 | `events_iter` writes the table start, the head, each data row and the table end, nested as the reader expects |
| RollTablesLib.CombinedDice | src/lib.rs:210-219 | a pair of dice gives a·b labels, a die-notation header, and no warning |
| RollTablesLib.GetDiceIterator | src/lib.rs:195-250 | exactly one label per data row; a header in die notation; the warning only when requested, for a single die outside {4, 6, 8, 10, 12, 20, 100} |
| RollTablesLib.GetDiceCombined | src/lib.rs:210-227 | combined counts give the header `d a sep b` and labels `n0 sep n1` in die-major order |
| RollTablesLib.GetDiceSingle | src/lib.rs:239-248 | other counts except 3 give the header `d count` and the labels 1 to count |
| RollTablesLib.GetDiceThree | src/lib.rs:228-238 | three rows give the header `d6` with the labels `1, 2`, `3, 4`, `5, 6` and no warning |
| RollTablesLib.WarningKeepsLabels | src/lib.rs:239-248 | the warning option never changes the header or the labels |
| RollTablesLib.HandleTable | src/lib.rs:106-122 | detection, generation, and the in-place assignments of the header and of each row's cell 0, followed by writing the events, compute the rewrite specification |
| RollTablesLib.RelabelInPlace | src/lib.rs:115-119 | assigning the header's cell 0 and then each data row's cell 0 from the labels in order, stopping at the shorter of labels and rows, yields the relabelled table |
| RollTablesLib.HandleChapter | src/lib.rs:104-126 | the chapter loop copies non-table events, replaces each table by its rewrite, and stops at the first error |
| RollTablesLib.RewriteRelabelsEveryRow | src/lib.rs:108-119 | a roll table is written with a new header and one generated label per data row, in row order, every other cell unchanged |
| RollTablesLib.ThreeRowExample | src/lib.rs:6-20 | the crate's class table becomes a `d6` table with labels `1, 2`, `3, 4`, `5, 6` |
| RollTablesLib.PassThroughRejected | src/lib.rs:104-124 | a well-formed table that fails detection is written back event for event |
| RollTablesLib.NoTablesPassThrough | src/lib.rs:123-125 | a chapter without tables is written back unchanged |
| RollTablesLib.RewriteIsFixed | src/lib.rs:108-122 | what is written for a table is passed through by a second run, because its header is no longer the bare `d` |
| RollTablesLib.TransformIdempotent | src/lib.rs:104-126 | running the chapter rewrite on its own output changes nothing |
| RollTablesMain.New | src/main.rs:141-162 | the push loop of `new` computes exactly the extraction specification, errors included |
| RollTablesMain.Push | src/main.rs:148-159 | one event of the match in `new` takes exactly the step the extraction specification takes: open a row, open a cell, ignore a closing tag, stop at the table end, store anything else in the open cell, or fail on a missing row or cell |
| RollTablesMain.NextStartsTable | src/main.rs:236-238 | from the initial cursor, the next event is the table start, and the cursor moves to row 0 |
| RollTablesMain.NextOpensRow | src/main.rs:223-229 | a row with no cell cursor yields its head-start or row-start tag, and the cursor moves to cell 0 |
| RollTablesMain.NextOpensCell | src/main.rs:210-212 | a cell with no event cursor yields the cell-start tag, and the cursor moves to event 0 |
| RollTablesMain.NextGivesCellEvent | src/main.rs:202-204 | inside a cell, the next event is the cell's event at the cursor, and the cursor advances by one |
| RollTablesMain.NextClosesCell | src/main.rs:205-208 | after a cell's last event comes the cell-end tag, and only then does the cell index advance |
| RollTablesMain.NextClosesRow | src/main.rs:214-221 | after a row's last cell comes its head-end or row-end tag, and the cursor moves to the next row |
| RollTablesMain.NextEndsTable | src/main.rs:231-234 | after the last row comes the table end with the same alignment, and the iterator is finished |
| RollTablesMain.MarkdownTableIterator.constructor | src/main.rs:170-178 | `into_iter` starts a cursor whose remaining events are the eager serialisation of the table |
| RollTablesMain.MarkdownTableIterator.Next | src/main.rs:192-240 | each call gives exactly the first remaining event and keeps the cursor valid; it gives nothing exactly when the iterator was already finished, and then it stays finished, so every later call gives nothing too; it is finished exactly when nothing remains |
| RollTablesMain.MarkdownTableIterator.NextInRow | src/main.rs:199-230 | inside a row, a call opens the row (header or data), hands over to the current cell, or closes the row and moves to the next; it gives exactly the first remaining event, and something still remains after it |
| RollTablesMain.MarkdownTableIterator.NextInCell | src/main.rs:201-213 | inside a cell, a call opens the cell, gives its next stored event, or closes it and moves to the next cell; it gives exactly the first remaining event, and something still remains after it |
| RollTablesMain.CollectEvents | src/main.rs:170-240 | draining the iterator ends (each call shortens the remaining events) and yields exactly the eager flattening, 2 + (row tags and cell events) events long |
| RollTablesMain.CombinedDice | src/main.rs:258-274 | a pair of dice gives a·b labels, a die-notation header, and no warning |
| RollTablesMain.GetDiceIterator | src/main.rs:243-294 | exactly one label per data row; a header in die notation; the warning unless allowed, for a single die outside {4, 6, 8, 10, 12, 20, 100} |
| RollTablesMain.GetDiceCombined | src/main.rs:264-282 | combined counts give the header `d a sep b` and labels `n0 sep n1` in die-major order |
| RollTablesMain.GetDiceSingle | src/main.rs:283-292 | every other count, 3 included, gives the header `d count` and the labels 1 to count |
| RollTablesMain.WarningKeepsLabels | src/main.rs:283-292 | the allow option never changes the header or the labels |
| RollTablesMain.HandleTable | src/main.rs:104-124 | detection, generation, and the in-place assignments of `content[0][0]` and of each row's cell 0, followed by draining `into_iter`, compute the rewrite specification |
| RollTablesMain.RelabelInPlace | src/main.rs:117-121 | assigning `content[0][0]` and then each data row's cell 0 from the labels in order, stopping at the shorter of labels and rows, yields the relabelled table |
| RollTablesMain.HandleChapter | src/main.rs:101-128 | the chapter loop copies non-table events, replaces each table by its rewrite, and stops at the first error |
| RollTablesMain.RewriteRelabelsEveryRow | src/main.rs:106-121 | a roll table is written with a new header and one generated label per data row, in row order, every other cell unchanged |
| RollTablesMain.PassThroughRejected | src/main.rs:101-126 | a well-formed table that fails detection is written back event for event |
| RollTablesMain.NoTablesPassThrough | src/main.rs:126 | a chapter without tables is written back unchanged |
| RollTablesMain.RewriteIsFixed | src/main.rs:106-124 | what is written for a table is passed through by a second run |
| RollTablesMain.TransformIdempotent | src/main.rs:101-128 | running the chapter rewrite on its own output changes nothing |
| Variants.DiceAgree | src/main.rs:276-292 | apart from three rows, both generators give the same header, labels and warning decision |
| Variants.DiceDifferOnThree | src/lib.rs:228-238 | on three rows the library gives `d6` with paired faces; the command-line variant gives `d3` with `1` first |
| Variants.DefaultHeadsDiffer | src/lib.rs:62-66 | under their own defaults, a 16-row table is headed `d44` by the library and `d4 d4` by the command-line variant |
| Variants.RewriteAgrees | src/main.rs:106-124 | both variants write every table the same way unless it is a roll table with exactly three data rows; tables that are not roll tables agree at every size |

## Left out

- The program entry point, the `supports` subcommand, the host's JSON protocol on stdin/stdout, and the mdBook version check (src/main.rs:14-47). These are process I/O.
- `Preprocessor::run` in both files: the configuration lookup, type checking of option values, and iteration over the book's chapters. The book model is an external type. Only the default option values are kept, as `DefaultConfig` in each variant. Reading an option set is not modelled: the library rejects a wrongly typed value, while the command-line variant silently falls back to the default.
- The markdown tokenizer and the markdown writer are external libraries. A chapter is modelled as its event sequence, and the output as the events handed to the writer. Markdown text, rendering and the writer's state are not modelled.
- The unusual-die warning is printed to standard error in the source. It is modelled as the boolean `warns` of the generated `Dice`.
- Events other than table tags and text are one opaque constructor `Other`. Copy-on-write strings, lifetimes and boxed iterators have no counterpart. The generators' lazy label iterators are sequences.
- The source's integers are `usize`. The model uses unbounded naturals, since no count in a table can approach the word size.
- The rewrite zips labels with rows, which stops at the shorter of the two. The generator always gives exactly one label per row, so the model proves that the two lengths agree rather than modelling a mismatch.
