/** The table structure both variants of the rewriter rebuild from the event
    stream, and the two specifications they are proved against: how a table
    span is read into rows of cells of events (`Extract`), and the order in
    which a table is written back out (`Serialize`). Also the roll-table
    pattern (`Detect`) and the first-column rewrite (`Relabelled`), which both
    variants perform with the same expressions. */
module Tables {
  import opened Collections
  import opened Markdown

  /** A markdown table: row 0 is the header row, rows 1.. are the data rows. */
  datatype Table = Table(alignment: seq<Alignment>, content: seq<Row>)

  /** One error per kind of failure where the source unwraps or indexes and
      would panic while reading or inspecting a table. */
  datatype TableError =
    | UnexpectedEndOfStream   // the stream ends before the table-end event
    | NoOpenRow               // a cell-start or content event before any row was opened
    | NoOpenCell              // a content event while the last row has no cell
    | NoHeadRow               // the table has no header row to inspect
    | NoHeadCell              // the header row has no first cell
    | NoFirstCell             // detection reaches a data row with no first cell

  datatype Result<T> = Ok(value: T) | Err(error: TableError)

  /** Puts `evs` before the events of a successful result; an error stays. */
  function Prepend(evs: seq<Event>, r: Result<seq<Event>>): Result<seq<Event>>
  {
    if r.Err? then r else Ok(evs + r.value)
  }

  lemma PrependNothing(r: Result<seq<Event>>)
    ensures Prepend([], r) == r
  {
    if r.Ok? {
      assert [] + r.value == r.value;
    }
  }

  lemma PrependTwice(a: seq<Event>, b: seq<Event>, r: Result<seq<Event>>)
    ensures Prepend(a, Prepend(b, r)) == Prepend(a + b, r)
  {
    if r.Ok? {
      assert a + (b + r.value) == a + b + r.value;
    }
  }

  /** A table read from the stream, and the stream after its table-end event. */
  datatype Extracted = Extracted(table: Table, rest: seq<Event>)

  /** The events extraction stores in a cell: every event it does not dispatch on. */
  predicate IsCellContent(e: Event)
  {
    !(e.HeadStart? || e.RowStart? || e.CellStart? || e.HeadEnd? || e.RowEnd? || e.CellEnd? || e.TableEnd?)
  }

  predicate CellOk(cell: Cell)
  {
    forall e :: e in cell ==> IsCellContent(e)
  }

  predicate RowOk(row: Row)
  {
    forall cell :: cell in row ==> CellOk(cell)
  }

  /** Every stored event is cell content: the shape of everything extraction builds. */
  predicate WellFormed(content: seq<Row>)
  {
    forall row :: row in content ==> RowOk(row)
  }

  // ---------------------------------------------------------------------------
  // Extraction
  // ---------------------------------------------------------------------------

  /** `content.last_mut().unwrap().push(vec![])` */
  function OpenCell(content: seq<Row>): seq<Row>
    requires |content| > 0
  {
    content[|content| - 1 := content[|content| - 1] + [[]]]
  }

  function LastCell(content: seq<Row>): Cell
    requires |content| > 0 && |content[|content| - 1]| > 0
  {
    var row := content[|content| - 1];
    row[|row| - 1]
  }

  /** Replaces the last cell of the last row. */
  function SetLastCell(content: seq<Row>, cell: Cell): seq<Row>
    requires |content| > 0 && |content[|content| - 1]| > 0
  {
    var row := content[|content| - 1];
    content[|content| - 1 := row[|row| - 1 := cell]]
  }

  /** `content.last_mut().unwrap().last_mut().unwrap().push(ev)` */
  function PushEvent(content: seq<Row>, e: Event): seq<Row>
    requires |content| > 0 && |content[|content| - 1]| > 0
  {
    SetLastCell(content, LastCell(content) + [e])
  }

  /** What one event does to the table being extracted. */
  datatype Step = Continue(content: seq<Row>) | Stop | Fail(error: TableError)

  /** The dispatch of `MarkdownTable::new` on one event: head and row starts
      open a row, a cell start opens a cell in the last row, the other start
      and end tags of rows and cells are skipped, the table end stops, and any
      other event goes into the last cell of the last row. */
  function StepOn(content: seq<Row>, e: Event): Step
  {
    if e.HeadStart? || e.RowStart? then Continue(content + [[]])
    else if e.CellStart? then
      if content == [] then Fail(NoOpenRow) else Continue(OpenCell(content))
    else if e.HeadEnd? || e.RowEnd? || e.CellEnd? then Continue(content)
    else if e.TableEnd? then Stop
    else if content == [] then Fail(NoOpenRow)
    else if content[|content| - 1] == [] then Fail(NoOpenCell)
    else Continue(PushEvent(content, e))
  }

  /** A step keeps every stored event where it was and adds the event itself
      exactly when it is cell content. */
  lemma StepStored(content: seq<Row>, e: Event)
    requires StepOn(content, e).Continue?
    ensures Stored(StepOn(content, e).content) == Stored(content) + (if IsCellContent(e) then [e] else [])
  {
    if e.HeadStart? || e.RowStart? {
      StoredOpenRow(content);
    } else if e.CellStart? {
      StoredOpenCell(content);
    } else if e.HeadEnd? || e.RowEnd? || e.CellEnd? {
      assert !IsCellContent(e);
      assert Stored(content) + [] == Stored(content);
    } else {
      StoredPushEvent(content, e);
    }
  }

  lemma StepWellFormed(content: seq<Row>, e: Event)
    requires StepOn(content, e).Continue? && WellFormed(content)
    ensures WellFormed(StepOn(content, e).content)
  {
    var n := |content|;
    if e.HeadStart? || e.RowStart? {
      assert forall row :: row in content + [[]] ==> row in content || row == [];
    } else if e.CellStart? {
      var row := content[n - 1];
      assert row in content;
      assert forall c :: c in row + [[]] ==> c in row || c == [];
      assert forall r :: r in OpenCell(content) ==> r in content || r == row + [[]];
    } else if IsCellContent(e) {
      var row := content[n - 1];
      assert row in content;
      var cell := row[|row| - 1];
      assert cell in row;
      var row' := row[|row| - 1 := cell + [e]];
      assert forall c :: c in row' ==> c in row || c == cell + [e];
      assert forall r :: r in PushEvent(content, e) ==> r in content || r == row';
    }
  }

  /** Reads the events after a table-start event into `content`, one step per
      event, until the first table-end event. */
  function ExtractFrom(alignment: seq<Alignment>, content: seq<Row>, s: seq<Event>): (r: Result<Extracted>)
    ensures r.Ok? ==> r.value.table.alignment == alignment
    ensures r.Ok? ==> |r.value.rest| < |s| && r.value.rest == s[|s| - |r.value.rest|..]
    ensures r.Ok? ==> s[|s| - |r.value.rest| - 1].TableEnd?
    decreases |s|
  {
    if s == [] then Err(UnexpectedEndOfStream)
    else
      match StepOn(content, s[0])
      case Stop => Ok(Extracted(Table(alignment, content), s[1..]))
      case Fail(err) => Err(err)
      case Continue(content') => ExtractFrom(alignment, content', s[1..])
  }

  /** Extraction stops at the first table-end event: no event of the
      consumed span before its last one is a table end. */
  lemma {:induction false} ExtractStopsAtFirstEnd(alignment: seq<Alignment>, content: seq<Row>, s: seq<Event>, j: nat)
    requires ExtractFrom(alignment, content, s).Ok?
    requires j < |s| - |ExtractFrom(alignment, content, s).value.rest| - 1
    ensures !s[j].TableEnd?
    decreases |s|
  {
    if j > 0 {
      ExtractStopsAtFirstEnd(alignment, StepOn(content, s[0]).content, s[1..], j - 1);
    }
  }

  /** The table whose table-start event (carrying `alignment`) precedes `s`. */
  function Extract(alignment: seq<Alignment>, s: seq<Event>): Result<Extracted>
  {
    ExtractFrom(alignment, [], s)
  }

  /** Extraction only ever stores cell content. */
  lemma {:induction false} ExtractWellFormed(alignment: seq<Alignment>, content: seq<Row>, s: seq<Event>)
    requires WellFormed(content) && ExtractFrom(alignment, content, s).Ok?
    ensures WellFormed(ExtractFrom(alignment, content, s).value.table.content)
    decreases |s|
  {
    if StepOn(content, s[0]).Continue? {
      StepWellFormed(content, s[0]);
      ExtractWellFormed(alignment, StepOn(content, s[0]).content, s[1..]);
    }
  }

  /** The cell content of a stream, in order: what extraction keeps of it. */
  function CellContent(s: seq<Event>): seq<Event>
  {
    if s == [] then [] else (if IsCellContent(s[0]) then [s[0]] else []) + CellContent(s[1..])
  }

  /** Every event stored in the table, row by row and cell by cell. */
  function Stored(content: seq<Row>): seq<Event>
  {
    if content == [] then [] else Stored(content[..|content| - 1]) + StoredInRow(content[|content| - 1])
  }

  function StoredInRow(row: Row): seq<Event>
  {
    if row == [] then [] else StoredInRow(row[..|row| - 1]) + row[|row| - 1]
  }

  lemma StoredOpenRow(content: seq<Row>)
    ensures Stored(content + [[]]) == Stored(content)
  {
    assert (content + [[]])[..|content|] == content;
  }

  lemma StoredOpenCell(content: seq<Row>)
    requires |content| > 0
    ensures Stored(OpenCell(content)) == Stored(content)
  {
    var n := |content|;
    assert OpenCell(content)[..n - 1] == content[..n - 1];
    var row := content[n - 1];
    assert (row + [[]])[..|row|] == row;
  }

  lemma StoredPushEvent(content: seq<Row>, e: Event)
    requires |content| > 0 && |content[|content| - 1]| > 0
    ensures Stored(PushEvent(content, e)) == Stored(content) + [e]
  {
    var n := |content|;
    var row := content[n - 1];
    var row' := row[|row| - 1 := row[|row| - 1] + [e]];
    assert PushEvent(content, e)[..n - 1] == content[..n - 1];
    assert PushEvent(content, e)[n - 1] == row';
    assert row'[..|row| - 1] == row[..|row| - 1];
  }

  lemma {:induction false} CellContentAppend(a: seq<Event>, b: seq<Event>)
    ensures CellContent(a + b) == CellContent(a) + CellContent(b)
    decreases |a|
  {
    if a == [] {
      assert a + b == b;
    } else {
      assert (a + b)[0] == a[0];
      assert (a + b)[1..] == a[1..] + b;
      CellContentAppend(a[1..], b);
    }
  }

  lemma CellContentFirst(s: seq<Event>, k: nat)
    requires 1 <= k <= |s|
    ensures CellContent(s[..k]) == (if IsCellContent(s[0]) then [s[0]] else []) + CellContent(s[1..][..k - 1])
  {
    assert s[..k] == [s[0]] + s[1..][..k - 1];
    CellContentAppend([s[0]], s[1..][..k - 1]);
    assert CellContent([s[0]]) == (if IsCellContent(s[0]) then [s[0]] else []) + CellContent([]);
  }

  /** Extraction loses nothing but the structural events: the events stored in
      the table are exactly the cell content of the consumed span, in order. */
  lemma {:induction false} ExtractKeepsContent(alignment: seq<Alignment>, content: seq<Row>, s: seq<Event>)
    requires ExtractFrom(alignment, content, s).Ok?
    ensures var x := ExtractFrom(alignment, content, s).value;
      Stored(x.table.content) == Stored(content) + CellContent(s[..|s| - |x.rest|])
    decreases |s|, 1
  {
    var x := ExtractFrom(alignment, content, s).value;
    var k := |s| - |x.rest|;
    if StepOn(content, s[0]).Continue? {
      KeepsContentOnStep(alignment, content, s);
    } else {
      CellContentFirst(s, k);
      assert s[1..][..k - 1] == [];
    }
  }

  /** The step case of `ExtractKeepsContent`: the first event is stored or
      dropped, and the rest of the span is stored by the recursive call. */
  lemma {:induction false} KeepsContentOnStep(alignment: seq<Alignment>, content: seq<Row>, s: seq<Event>)
    requires ExtractFrom(alignment, content, s).Ok? && StepOn(content, s[0]).Continue?
    ensures var x := ExtractFrom(alignment, content, s).value;
      Stored(x.table.content) == Stored(content) + CellContent(s[..|s| - |x.rest|])
    decreases |s|, 0
  {
    var x := ExtractFrom(alignment, content, s).value;
    var k := |s| - |x.rest|;
    var next := StepOn(content, s[0]).content;
    var consumed := s[1..][..k - 1];
    var first := if IsCellContent(s[0]) then [s[0]] else [];
    CellContentFirst(s, k);
    StepStored(content, s[0]);
    assert ExtractFrom(alignment, next, s[1..]) == Ok(x);
    ExtractKeepsContent(alignment, next, s[1..]);
    assert s[1..][..|s[1..]| - |x.rest|] == consumed;
    Regroup(Stored(x.table.content), Stored(next), Stored(content), first, CellContent(consumed), CellContent(s[..k]));
  }

  /** `x = n + c`, `n = a + f` and `k = f + c` give `x = a + k`. */
  lemma Regroup(x: seq<Event>, n: seq<Event>, a: seq<Event>, f: seq<Event>, c: seq<Event>, k: seq<Event>)
    requires x == n + c && n == a + f && k == f + c
    ensures x == a + k
  {
    assert a + f + c == a + (f + c);
  }

  /** The number of row-opening events (head or row start) in `s`. */
  function RowOpens(s: seq<Event>): nat
  {
    if s == [] then 0 else (if s[0].HeadStart? || s[0].RowStart? then 1 else 0) + RowOpens(s[1..])
  }

  lemma {:induction false} RowOpensAppend(a: seq<Event>, b: seq<Event>)
    ensures RowOpens(a + b) == RowOpens(a) + RowOpens(b)
    decreases |a|
  {
    if a == [] {
      assert a + b == b;
    } else {
      assert (a + b)[1..] == a[1..] + b;
      RowOpensAppend(a[1..], b);
    }
  }

  /** Extraction makes one row per head-start or row-start event it reads, and
      never removes one. */
  lemma {:induction false} ExtractRowCount(alignment: seq<Alignment>, content: seq<Row>, s: seq<Event>)
    requires ExtractFrom(alignment, content, s).Ok?
    ensures var x := ExtractFrom(alignment, content, s).value;
      |x.table.content| == |content| + RowOpens(s[..|s| - |x.rest|])
    decreases |s|
  {
    var x := ExtractFrom(alignment, content, s).value;
    var k := |s| - |x.rest|;
    assert s[..k] == [s[0]] + s[1..][..k - 1];
    RowOpensAppend([s[0]], s[1..][..k - 1]);
    if StepOn(content, s[0]).Continue? {
      ExtractRowCount(alignment, StepOn(content, s[0]).content, s[1..]);
    } else {
      assert s[1..][..k - 1] == [];
    }
  }

  // ---------------------------------------------------------------------------
  // Serialisation
  // ---------------------------------------------------------------------------

  function CellEvents(cell: Cell): seq<Event>
  {
    [CellStart] + cell + [CellEnd]
  }

  /** Row 0 is the header row; every other row is a data row. */
  function Open(r: nat): Event
  {
    if r == 0 then HeadStart else RowStart
  }

  function Close(r: nat): Event
  {
    if r == 0 then HeadEnd else RowEnd
  }

  function RowEvents(content: seq<Row>, r: nat): seq<Event>
    requires r < |content|
  {
    [Open(r)] + FlatMap(CellEvents, content[r]) + [Close(r)]
  }

  /** The events of rows `r..` in order. */
  function RowsFrom(content: seq<Row>, r: nat): seq<Event>
    decreases |content| - r
  {
    if r >= |content| then [] else RowEvents(content, r) + RowsFrom(content, r + 1)
  }

  /** The well-nested event span of a table, from its table-start event to its
      table-end event, both carrying the table's alignment. */
  function Serialize(t: Table): seq<Event>
  {
    [TableStart(t.alignment)] + RowsFrom(t.content, 0) + [TableEnd(t.alignment)]
  }

  function CellsSize(row: Row): nat
  {
    if row == [] then 0 else 2 + |row[0]| + CellsSize(row[1..])
  }

  function RowsSize(content: seq<Row>): nat
  {
    if content == [] then 0 else 2 + CellsSize(content[0]) + RowsSize(content[1..])
  }

  lemma {:induction false} CellsLength(row: Row)
    ensures |FlatMap(CellEvents, row)| == CellsSize(row)
    decreases |row|
  {
    if row != [] {
      CellsLength(row[1..]);
    }
  }

  lemma {:induction false} RowsLength(content: seq<Row>, r: nat)
    requires r <= |content|
    ensures |RowsFrom(content, r)| == RowsSize(content[r..])
    decreases |content| - r
  {
    if r < |content| {
      CellsLength(content[r]);
      RowsLength(content, r + 1);
      assert content[r..][1..] == content[r + 1..];
    } else {
      assert content[r..] == [];
    }
  }

  /** A table of rows of cells takes 2 + sum over rows of (2 + sum over cells of (2 + |cell|)) events. */
  lemma SerializeLength(t: Table)
    ensures |Serialize(t)| == 2 + RowsSize(t.content)
  {
    RowsLength(t.content, 0);
    assert t.content[0..] == t.content;
  }

  // ---------------------------------------------------------------------------
  // Round trip: extraction reads back exactly what serialisation writes
  // ---------------------------------------------------------------------------

  lemma SetLastCellOfLastCell(content: seq<Row>)
    requires |content| > 0 && |content[|content| - 1]| > 0
    ensures SetLastCell(content, LastCell(content)) == content
  {
    var row := content[|content| - 1];
    assert row[|row| - 1 := row[|row| - 1]] == row;
  }

  lemma SetLastCellTwice(content: seq<Row>, c1: Cell, c2: Cell)
    requires |content| > 0 && |content[|content| - 1]| > 0
    ensures LastCell(SetLastCell(content, c1)) == c1
    ensures SetLastCell(SetLastCell(content, c1), c2) == SetLastCell(content, c2)
  {
    var row := content[|content| - 1];
    assert row[|row| - 1 := c1][|row| - 1 := c2] == row[|row| - 1 := c2];
  }

  lemma FillOpenedCell(content: seq<Row>, cell: Cell)
    requires |content| > 0
    ensures |OpenCell(content)[|content| - 1]| > 0
    ensures LastCell(OpenCell(content)) == []
    ensures SetLastCell(OpenCell(content), cell) == content[|content| - 1 := content[|content| - 1] + [cell]]
  {
    var row := content[|content| - 1];
    assert (row + [[]])[|row| := cell] == row + [cell];
  }

  lemma {:induction false} ExtractCellContent(alignment: seq<Alignment>, content: seq<Row>, evs: seq<Event>, tail: seq<Event>)
    requires |content| > 0 && |content[|content| - 1]| > 0
    requires CellOk(evs)
    ensures ExtractFrom(alignment, content, evs + tail)
         == ExtractFrom(alignment, SetLastCell(content, LastCell(content) + evs), tail)
    decreases |evs|
  {
    if evs == [] {
      assert evs + tail == tail;
      assert LastCell(content) + evs == LastCell(content);
      SetLastCellOfLastCell(content);
    } else {
      var e := evs[0];
      assert e in evs;
      assert (evs + tail)[0] == e;
      assert (evs + tail)[1..] == evs[1..] + tail;
      var pushed := PushEvent(content, e);
      assert StepOn(content, e) == Continue(pushed);
      assert forall x :: x in evs[1..] ==> x in evs;
      ExtractCellContent(alignment, pushed, evs[1..], tail);
      SetLastCellTwice(content, LastCell(content) + [e], LastCell(content) + evs);
      assert LastCell(pushed) + evs[1..] == LastCell(content) + evs;
      assert SetLastCell(pushed, LastCell(pushed) + evs[1..]) == SetLastCell(content, LastCell(content) + evs);
    }
  }

  /** One step of extraction on a stream that starts with `e`. */
  lemma ExtractStep(alignment: seq<Alignment>, content: seq<Row>, e: Event, s: seq<Event>)
    requires StepOn(content, e).Continue?
    ensures ExtractFrom(alignment, content, [e] + s) == ExtractFrom(alignment, StepOn(content, e).content, s)
  {
    assert ([e] + s)[0] == e;
    assert ([e] + s)[1..] == s;
  }

  /** The events of a non-empty run of cells, split at the first cell. */
  lemma CellsStream(row: Row, tail: seq<Event>)
    requires row != []
    ensures FlatMap(CellEvents, row) + tail
         == [CellStart] + (row[0] + ([CellEnd] + (FlatMap(CellEvents, row[1..]) + tail)))
  {
    assert FlatMap(CellEvents, row) == CellEvents(row[0]) + FlatMap(CellEvents, row[1..]);
  }

  /** One cell's events append that cell to the open row. */
  lemma ExtractCell(alignment: seq<Alignment>, content: seq<Row>, cell: Cell, after: seq<Event>)
    requires |content| > 0
    requires CellOk(cell)
    ensures ExtractFrom(alignment, content, [CellStart] + (cell + ([CellEnd] + after)))
         == ExtractFrom(alignment, content[|content| - 1 := content[|content| - 1] + [cell]], after)
  {
    var n := |content|;
    var withCell := OpenCell(content);
    var filled := content[n - 1 := content[n - 1] + [cell]];
    FillOpenedCell(content, cell);
    assert LastCell(withCell) + cell == cell;
    calc {
      ExtractFrom(alignment, content, [CellStart] + (cell + ([CellEnd] + after)));
      { ExtractStep(alignment, content, CellStart, cell + ([CellEnd] + after)); }
      ExtractFrom(alignment, withCell, cell + ([CellEnd] + after));
      { ExtractCellContent(alignment, withCell, cell, [CellEnd] + after); }
      ExtractFrom(alignment, filled, [CellEnd] + after);
      { ExtractStep(alignment, filled, CellEnd, after); }
      ExtractFrom(alignment, filled, after);
    }
  }

  /** Appending the first cell and then the rest of a row appends the row. */
  lemma AppendCells(content: seq<Row>, row: Row)
    requires |content| > 0 && row != []
    ensures content[|content| - 1 := content[|content| - 1] + [row[0]]][|content| - 1 := content[|content| - 1] + [row[0]] + row[1..]]
         == content[|content| - 1 := content[|content| - 1] + row]
  {
    var n := |content|;
    assert row == [row[0]] + row[1..];
    assert content[n - 1] + [row[0]] + row[1..] == content[n - 1] + row;
  }

  lemma {:induction false} ExtractCells(alignment: seq<Alignment>, content: seq<Row>, row: Row, tail: seq<Event>)
    requires |content| > 0
    requires RowOk(row)
    ensures ExtractFrom(alignment, content, FlatMap(CellEvents, row) + tail)
         == ExtractFrom(alignment, content[|content| - 1 := content[|content| - 1] + row], tail)
    decreases |row|
  {
    var n := |content|;
    if row == [] {
      assert FlatMap(CellEvents, row) + tail == tail;
      assert content[n - 1] + row == content[n - 1];
      assert content[n - 1 := content[n - 1]] == content;
    } else {
      assert row[0] in row;
      assert forall c :: c in row[1..] ==> c in row;
      var filled := content[n - 1 := content[n - 1] + [row[0]]];
      calc {
        ExtractFrom(alignment, content, FlatMap(CellEvents, row) + tail);
        { CellsStream(row, tail); }
        ExtractFrom(alignment, content, [CellStart] + (row[0] + ([CellEnd] + (FlatMap(CellEvents, row[1..]) + tail))));
        { ExtractCell(alignment, content, row[0], FlatMap(CellEvents, row[1..]) + tail); }
        ExtractFrom(alignment, filled, FlatMap(CellEvents, row[1..]) + tail);
        { ExtractCells(alignment, filled, row[1..], tail); }
        ExtractFrom(alignment, filled[n - 1 := filled[n - 1] + row[1..]], tail);
        { AppendCells(content, row); }
        ExtractFrom(alignment, content[n - 1 := content[n - 1] + row], tail);
      }
    }
  }

  lemma ExtractRow(alignment: seq<Alignment>, content: seq<Row>, rows: seq<Row>, r: nat, after: seq<Event>)
    requires r < |rows| && RowOk(rows[r])
    ensures ExtractFrom(alignment, content, RowEvents(rows, r) + after)
         == ExtractFrom(alignment, content + [rows[r]], after)
  {
    var row := rows[r];
    var withRow := content + [row];
    calc {
      ExtractFrom(alignment, content, RowEvents(rows, r) + after);
      { assert RowEvents(rows, r) + after == [Open(r)] + (FlatMap(CellEvents, row) + ([Close(r)] + after)); }
      ExtractFrom(alignment, content, [Open(r)] + (FlatMap(CellEvents, row) + ([Close(r)] + after)));
      { assert StepOn(content, Open(r)) == Continue(content + [[]]);
        ExtractStep(alignment, content, Open(r), FlatMap(CellEvents, row) + ([Close(r)] + after));
      }
      ExtractFrom(alignment, content + [[]], FlatMap(CellEvents, row) + ([Close(r)] + after));
      { ExtractCells(alignment, content + [[]], row, [Close(r)] + after);
        assert [] + row == row;
        assert (content + [[]])[|content| := row] == withRow;
      }
      ExtractFrom(alignment, withRow, [Close(r)] + after);
      { assert StepOn(withRow, Close(r)) == Continue(withRow);
        ExtractStep(alignment, withRow, Close(r), after);
      }
      ExtractFrom(alignment, withRow, after);
    }
  }

  lemma AppendNext(content: seq<Row>, rows: seq<Row>, r: nat)
    requires r < |rows|
    ensures content + [rows[r]] + rows[r + 1..] == content + rows[r..]
  {
    assert rows[r..] == [rows[r]] + rows[r + 1..];
  }

  lemma RowsFromStep(rows: seq<Row>, r: nat, tail: seq<Event>)
    requires r < |rows|
    ensures RowsFrom(rows, r) + tail == RowEvents(rows, r) + (RowsFrom(rows, r + 1) + tail)
  {
  }

  lemma {:induction false} ExtractRows(alignment: seq<Alignment>, content: seq<Row>, rows: seq<Row>, r: nat, tail: seq<Event>)
    requires r <= |rows|
    requires WellFormed(rows)
    ensures ExtractFrom(alignment, content, RowsFrom(rows, r) + tail)
         == ExtractFrom(alignment, content + rows[r..], tail)
    decreases |rows| - r
  {
    if r == |rows| {
      assert RowsFrom(rows, r) + tail == tail;
      assert content + rows[r..] == content;
    } else {
      assert rows[r] in rows;
      var rest := RowsFrom(rows, r + 1) + tail;
      calc {
        ExtractFrom(alignment, content, RowsFrom(rows, r) + tail);
        { RowsFromStep(rows, r, tail); }
        ExtractFrom(alignment, content, RowEvents(rows, r) + rest);
        { ExtractRow(alignment, content, rows, r, rest); }
        ExtractFrom(alignment, content + [rows[r]], rest);
        { ExtractRows(alignment, content + [rows[r]], rows, r + 1, tail); }
        ExtractFrom(alignment, content + [rows[r]] + rows[r + 1..], tail);
        { AppendNext(content, rows, r); }
        ExtractFrom(alignment, content + rows[r..], tail);
      }
    }
  }

  /** Extracting the serialisation of a well-formed table, whatever follows it
      in the stream, gives back the table and leaves exactly what follows. */
  lemma ExtractSerialize(t: Table, tail: seq<Event>)
    requires WellFormed(t.content)
    ensures Extract(t.alignment, Serialize(t)[1..] + tail) == Ok(Extracted(t, tail))
  {
    var end := [TableEnd(t.alignment)] + tail;
    calc {
      Extract(t.alignment, Serialize(t)[1..] + tail);
      { SerializeBody(t, tail); }
      ExtractFrom(t.alignment, [], RowsFrom(t.content, 0) + end);
      { ExtractRows(t.alignment, [], t.content, 0, end);
        assert [] + t.content[0..] == t.content;
      }
      ExtractFrom(t.alignment, t.content, end);
      { ExtractAtEnd(t.alignment, t.content, tail); }
      Ok(Extracted(t, tail));
    }
  }

  /** After its table-start event, a table's serialisation is its rows and then the table end. */
  lemma SerializeBody(t: Table, tail: seq<Event>)
    ensures Serialize(t)[1..] + tail == RowsFrom(t.content, 0) + ([TableEnd(t.alignment)] + tail)
  {
  }

  /** The table-end event finishes the table and leaves what follows it. */
  lemma ExtractAtEnd(alignment: seq<Alignment>, content: seq<Row>, tail: seq<Event>)
    ensures ExtractFrom(alignment, content, [TableEnd(alignment)] + tail) == Ok(Extracted(Table(alignment, content), tail))
  {
    assert ([TableEnd(alignment)] + tail)[1..] == tail;
  }

  // ---------------------------------------------------------------------------
  // Detection and rewrite (handle_chapter)
  // ---------------------------------------------------------------------------

  /** The roll-table pattern: header cell 0 is exactly the text "d" and every
      data row has an empty first cell. */
  predicate IsRollTable(t: Table)
  {
    && |t.content| > 0
    && |t.content[0]| > 0
    && t.content[0][0] == [Text("d")]
    && forall i :: 1 <= i < |t.content| ==> |t.content[i]| > 0 && t.content[i][0] == []
  }

  /** `rows.iter().all(|row| row[0].is_empty())` over rows `i..`: stops at the
      first row whose first cell is not empty, and panics on a row without cells
      that it reaches first. */
  function FirstCellsEmpty(content: seq<Row>, i: nat): (r: Result<bool>)
    ensures r == Ok(true) <==> forall j :: i <= j < |content| ==> |content[j]| > 0 && content[j][0] == []
    ensures r.Err? ==> r.error == NoFirstCell && exists j :: i <= j < |content| && |content[j]| == 0
    decreases |content| - i
  {
    if i >= |content| then Ok(true)
    else if |content[i]| == 0 then Err(NoFirstCell)
    else if content[i][0] != [] then Ok(false)
    else FirstCellsEmpty(content, i + 1)
  }

  /** The detection condition as the source evaluates it, with its panics. */
  function Detect(t: Table): (r: Result<bool>)
    ensures r == Ok(true) <==> IsRollTable(t)
    ensures r.Err? ==> |t.content| == 0 || exists j :: 0 <= j < |t.content| && |t.content[j]| == 0
    ensures |t.content| == 0 ==> r == Err(NoHeadRow)
    ensures |t.content| > 0 && |t.content[0]| == 0 ==> r == Err(NoHeadCell)
    ensures |t.content| > 0 && (forall j :: 0 <= j < |t.content| ==> |t.content[j]| > 0) ==> r.Ok?
    ensures |t.content| > 0 && |t.content[0]| > 0 && t.content[0][0] != [Text("d")] ==> r == Ok(false)
  {
    if |t.content| == 0 then Err(NoHeadRow)
    else if |t.content[0]| == 0 then Err(NoHeadCell)
    else if t.content[0][0] != [Text("d")] then Ok(false)
    else FirstCellsEmpty(t.content, 1)
  }

  /** Every row has a first cell, so header cell 0 and each row's cell 0 can be assigned. */
  predicate HasFirstColumn(t: Table)
  {
    |t.content| > 0 && forall i :: 0 <= i < |t.content| ==> |t.content[i]| > 0
  }

  /** The table after `head[0] = head` and, zipping the labels with the data
      rows, `row[0] = label` for as many rows as there are labels. */
  function Relabelled(t: Table, head: Cell, labels: seq<Cell>): (r: Table)
    requires HasFirstColumn(t)
    ensures r.alignment == t.alignment && |r.content| == |t.content| && HasFirstColumn(r)
    ensures forall i :: 0 <= i < |t.content| ==> |r.content[i]| == |t.content[i]| && r.content[i][1..] == t.content[i][1..]
    ensures r.content[0][0] == head
    ensures forall i :: 1 <= i < |t.content| ==> r.content[i][0] == if i - 1 < |labels| then labels[i - 1] else t.content[i][0]
  {
    Table(t.alignment, seq(|t.content|, i requires 0 <= i < |t.content| =>
      if i == 0 then t.content[0][0 := head]
      else if i - 1 < |labels| then t.content[i][0 := labels[i - 1]]
      else t.content[i]))
  }

  /** Relabelling with content-only cells keeps a table well formed. */
  lemma RelabelledWellFormed(t: Table, head: Cell, labels: seq<Cell>)
    requires HasFirstColumn(t) && WellFormed(t.content)
    requires CellOk(head) && forall l :: l in labels ==> CellOk(l)
    ensures WellFormed(Relabelled(t, head, labels).content)
  {
    var r := Relabelled(t, head, labels);
    forall row | row in r.content
      ensures RowOk(row)
    {
      var i :| 0 <= i < |r.content| && r.content[i] == row;
      assert t.content[i] in t.content;
      forall cell | cell in row
        ensures CellOk(cell)
      {
        var j :| 0 <= j < |row| && row[j] == cell;
        if j > 0 {
          assert cell == t.content[i][1..][j - 1];
          assert cell in t.content[i];
        } else if i > 0 && i - 1 < |labels| {
          assert cell == labels[i - 1];
        } else if i > 0 {
          assert cell in t.content[i];
        }
      }
    }
  }
}
