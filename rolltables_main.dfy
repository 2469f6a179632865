/** The command-line variant of the roll-table rewriter (src/main.rs): its
    option set, its table reader, the lazy `MarkdownTableIterator` that writes
    a table back one event per call, its dice generator and its per-chapter
    rewrite loop. */
module RollTablesMain {
  import opened Collections
  import opened Markdown
  import opened Tables
  import opened DiceLabels

  /** The `[preprocessor.rolltables]` options this variant reads. */
  datatype Config = Config(labelSeparator: string, separator: string, allowUnusualDice: bool)

  /** The values used for options that are absent. */
  const DefaultConfig := Config(" d", ".", false)

  // ---------------------------------------------------------------------------
  // MarkdownTable
  // ---------------------------------------------------------------------------

  /** One arm of the loop in `MarkdownTable::new`: what the next event does to
      the rows read so far. The steps themselves are defined once, by
      `Tables.StepOn`; this method restates them as statements so that the
      loop in `New` reasons about one event at a time, which keeps its proof
      small. */
  method Push(content: seq<Row>, ev: Event) returns (step: Step)
    ensures step == StepOn(content, ev)
  {
    match ev {
      case HeadStart =>
        return Continue(content + [[]]);
      case RowStart =>
        return Continue(content + [[]]);
      case CellStart =>
        if |content| == 0 {
          return Fail(NoOpenRow);
        }
        return Continue(content[|content| - 1 := content[|content| - 1] + [[]]]);
      case HeadEnd =>
        return Continue(content);
      case RowEnd =>
        return Continue(content);
      case CellEnd =>
        return Continue(content);
      case TableEnd(_) =>
        return Stop;
      case _ =>
        if |content| == 0 {
          return Fail(NoOpenRow);
        }
        var row := content[|content| - 1];
        if |row| == 0 {
          return Fail(NoOpenCell);
        }
        return Continue(content[|content| - 1 := row[|row| - 1 := row[|row| - 1] + [ev]]]);
    }
  }

  /** `MarkdownTable::new`: reads events after a table-start event, pushing rows,
      cells and cell events onto the table until the table-end event. */
  method New(alignment: seq<Alignment>, stream: seq<Event>) returns (r: Result<Extracted>)
    ensures r == Extract(alignment, stream)
  {
    var content: seq<Row> := [];
    var i := 0;
    while i < |stream|
      invariant 0 <= i <= |stream|
      invariant ExtractFrom(alignment, content, stream[i..]) == Extract(alignment, stream)
      decreases |stream| - i
    {
      assert stream[i..][0] == stream[i] && stream[i..][1..] == stream[i + 1..];
      var step := Push(content, stream[i]);
      match step {
        case Stop =>
          return Ok(Extracted(Table(alignment, content), stream[i + 1..]));
        case Fail(err) =>
          return Err(err);
        case Continue(next) =>
          content := next;
      }
      i := i + 1;
    }
    return Err(UnexpectedEndOfStream);
  }

  // ---------------------------------------------------------------------------
  // MarkdownTableIterator
  // ---------------------------------------------------------------------------

  /** The cursor positions `next` can reach: each index is at most one past
      the end of what it indexes, and a deeper cursor is set only while the
      shallower one points inside. */
  predicate CursorOk(t: Table, row: Option<nat>, cell: Option<nat>, cellEvent: Option<nat>, finished: bool)
  {
    && (finished ==> row.None?)
    && (row.None? ==> cell.None?)
    && (cell.None? ==> cellEvent.None?)
    && (row.Some? ==> row.value <= |t.content|)
    && (cell.Some? ==> row.Some? && row.value < |t.content| && cell.value <= |t.content[row.value]|)
    && (cellEvent.Some? ==>
          cell.Some? && cell.value < |t.content[row.value]|
          && cellEvent.value <= |t.content[row.value][cell.value]|)
  }

  /** The events still to come from a cursor, written in terms of the eager
      serialisation. */
  function RemainingAt(t: Table, row: Option<nat>, cell: Option<nat>, cellEvent: Option<nat>, finished: bool): seq<Event>
    requires CursorOk(t, row, cell, cellEvent, finished)
  {
    if finished then []
    else if row.None? then Serialize(t)
    else if row.value == |t.content| then [TableEnd(t.alignment)]
    else RestOfRow(t, row.value, cell, cellEvent) + RowsFrom(t.content, row.value + 1) + [TableEnd(t.alignment)]
  }

  /** The events still to come from row `r`. */
  function RestOfRow(t: Table, r: nat, cell: Option<nat>, cellEvent: Option<nat>): seq<Event>
    requires CursorOk(t, Some(r), cell, cellEvent, false) && r < |t.content|
  {
    var cells := t.content[r];
    if cell.None? then RowEvents(t.content, r)
    else
      var c := cell.value;
      if cellEvent.None? then FlatMap(CellEvents, cells[c..]) + [Close(r)]
      else cells[c][cellEvent.value..] + [CellEnd] + FlatMap(CellEvents, cells[c + 1..]) + [Close(r)]
  }

  // One lemma per transition of `next`: the event it gives is the first
  // remaining one, and the cursor it moves to has the rest remaining.

  lemma NextStartsTable(t: Table)
    ensures CursorOk(t, Some(0), None, None, false)
    ensures RemainingAt(t, None, None, None, false) == [TableStart(t.alignment)] + RemainingAt(t, Some(0), None, None, false)
  {
  }

  lemma NextOpensRow(t: Table, r: nat)
    requires r < |t.content|
    ensures CursorOk(t, Some(r), Some(0), None, false)
    ensures RemainingAt(t, Some(r), None, None, false) == [Open(r)] + RemainingAt(t, Some(r), Some(0), None, false)
  {
    assert t.content[r][0..] == t.content[r];
  }

  lemma NextOpensCell(t: Table, r: nat, c: nat)
    requires r < |t.content| && c < |t.content[r]|
    ensures CursorOk(t, Some(r), Some(c), Some(0), false)
    ensures RemainingAt(t, Some(r), Some(c), None, false) == [CellStart] + RemainingAt(t, Some(r), Some(c), Some(0), false)
  {
    var cells := t.content[r];
    assert cells[c..] == [cells[c]] + cells[c + 1..];
    assert cells[c][0..] == cells[c];
  }

  lemma NextGivesCellEvent(t: Table, r: nat, c: nat, k: nat)
    requires r < |t.content| && c < |t.content[r]| && k < |t.content[r][c]|
    ensures CursorOk(t, Some(r), Some(c), Some(k + 1), false)
    ensures RemainingAt(t, Some(r), Some(c), Some(k), false) == [t.content[r][c][k]] + RemainingAt(t, Some(r), Some(c), Some(k + 1), false)
  {
    var cell := t.content[r][c];
    assert cell[k..] == [cell[k]] + cell[k + 1..];
  }

  lemma NextClosesCell(t: Table, r: nat, c: nat)
    requires r < |t.content| && c < |t.content[r]|
    ensures CursorOk(t, Some(r), Some(c + 1), None, false)
    ensures RemainingAt(t, Some(r), Some(c), Some(|t.content[r][c]|), false) == [CellEnd] + RemainingAt(t, Some(r), Some(c + 1), None, false)
  {
    var cell := t.content[r][c];
    assert cell[|cell|..] == [];
  }

  lemma NextClosesRow(t: Table, r: nat)
    requires r < |t.content|
    ensures CursorOk(t, Some(r + 1), None, None, false)
    ensures RemainingAt(t, Some(r), Some(|t.content[r]|), None, false) == [Close(r)] + RemainingAt(t, Some(r + 1), None, None, false)
  {
    var cells := t.content[r];
    assert cells[|cells|..] == [];
  }

  lemma NextEndsTable(t: Table)
    ensures CursorOk(t, None, None, None, true)
    ensures RemainingAt(t, Some(|t.content|), None, None, false) == [TableEnd(t.alignment)] + RemainingAt(t, None, None, None, true)
  {
  }

  /** A cursor over a table: which row, which cell of it and which event of
      that cell comes next, and whether the table-end event has been given. */
  class MarkdownTableIterator {
    const table: Table
    var row: Option<nat>
    var cell: Option<nat>
    var cellEvent: Option<nat>
    var finished: bool

    ghost predicate Valid()
      reads this
    {
      CursorOk(table, row, cell, cellEvent, finished)
    }

    /** The events still to come. */
    ghost function Remaining(): seq<Event>
      reads this
      requires Valid()
    {
      RemainingAt(table, row, cell, cellEvent, finished)
    }

    /** `MarkdownTable::into_iter`: a cursor before the table-start event. */
    constructor (table: Table)
      ensures this.table == table
      ensures Valid() && !finished
      ensures Remaining() == Serialize(table)
    {
      this.table := table;
      row := None;
      cell := None;
      cellEvent := None;
      finished := false;
    }

    /** `Iterator::next`: gives exactly the first of the remaining events and
        moves the cursor past it; once the table-end event is given, nothing. */
    method Next() returns (e: Option<Event>)
      requires Valid()
      modifies this
      ensures Valid()
      ensures e.None? <==> old(finished)
      ensures e.None? ==> finished   // so every later call gives nothing too
      ensures old(Remaining()) == (if e.None? then [] else [e.value] + Remaining())
      ensures finished <==> Remaining() == []
    {
      if finished {
        return None;
      }
      if row.Some? {
        if row.value < |table.content| {
          var ev := NextInRow();
          return Some(ev);
        } else {
          NextEndsTable(table);
          row := None;
          finished := true;
          return Some(TableEnd(table.alignment));
        }
      } else {
        NextStartsTable(table);
        row := Some(0);
        return Some(TableStart(table.alignment));
      }
    }

    /** The branch of `next` inside row `r`: open the row, then the cells one
        by one, then close the row. */
    method NextInRow() returns (e: Event)
      requires Valid() && !finished && row.Some? && row.value < |table.content|
      modifies this
      ensures Valid() && !finished && Remaining() != []
      ensures old(Remaining()) == [e] + Remaining()
    {
      var r := row.value;
      if cell.Some? {
        if cell.value < |table.content[r]| {
          e := NextInCell();
        } else {
          NextClosesRow(table, r);
          cell := None;
          row := Some(r + 1);
          if r == 0 {
            return HeadEnd;
          } else {
            return RowEnd;
          }
        }
      } else {
        NextOpensRow(table, r);
        cell := Some(0);
        if r == 0 {
          return HeadStart;
        } else {
          return RowStart;
        }
      }
    }

    /** The branch of `next` inside cell `c` of row `r`: open the cell, give
        its events one by one, then close it. */
    method NextInCell() returns (e: Event)
      requires Valid() && !finished && row.Some? && row.value < |table.content|
      requires cell.Some? && cell.value < |table.content[row.value]|
      modifies this
      ensures Valid() && !finished && Remaining() != []
      ensures old(Remaining()) == [e] + Remaining()
    {
      var r := row.value;
      var c := cell.value;
      var events := table.content[r][c];
      if cellEvent.Some? {
        var k := cellEvent.value;
        if k < |events| {
          NextGivesCellEvent(table, r, c, k);
          cellEvent := Some(k + 1);
          return events[k];
        } else {
          NextClosesCell(table, r, c);
          cellEvent := None;
          cell := Some(c + 1);
          return CellEnd;
        }
      } else {
        NextOpensCell(table, r, c);
        cellEvent := Some(0);
        return CellStart;
      }
    }
  }

  /** One drained event moves from what remains to what was collected. */
  lemma DrainOne(all: seq<Event>, evs: seq<Event>, before: seq<Event>, e: Event, after: seq<Event>)
    requires evs + before == all && before == [e] + after
    ensures (evs + [e]) + after == all
  {
    assert (evs + [e]) + after == evs + ([e] + after);
  }

  /** What the markdown writer receives from `table.into_iter()`: `next` is
      called until it gives nothing. The events are exactly the eager
      serialisation, one per step, so the iteration ends after
      2 + (row tags and cell events) steps. */
  method CollectEvents(t: Table) returns (evs: seq<Event>)
    ensures evs == Serialize(t)
    ensures |evs| == 2 + RowsSize(t.content)
  {
    var it := new MarkdownTableIterator(t);
    ghost var all := it.Remaining();
    evs := [];
    while true
      invariant it.Valid()
      invariant evs + it.Remaining() == all
      decreases |it.Remaining()|
    {
      ghost var before := it.Remaining();
      var e := it.Next();
      if e.None? {
        break;
      }
      DrainOne(all, evs, before, e.value, it.Remaining());
      evs := evs + [e.value];
    }
    assert evs + [] == evs;
    SerializeLength(t);
  }

  // ---------------------------------------------------------------------------
  // get_dice_iterator
  // ---------------------------------------------------------------------------

  /** The `combined_dice(a, b)` closure. */
  function CombinedDice(a: nat, b: nat, labelSeparator: string, separator: string): (d: Dice)
    ensures |d.labels| == a * b && !d.warns
    ensures IsDieNotation(d.head)
    ensures forall l :: l in d.labels ==> IsLabel(l)
  {
    Dice(TextCell("d" + NatToString(a) + labelSeparator + NatToString(b)), PairLabels(a, b, separator), false)
  }

  /** `get_dice_iterator`: exactly one label per data row, a header in die
      notation, and the warning for an unusual single die unless allowed. */
  function GetDiceIterator(count: nat, labelSeparator: string, separator: string, allowUnusualDice: bool): (d: Dice)
    ensures |d.labels| == count
    ensures IsDieNotation(d.head)
    ensures forall l :: l in d.labels ==> IsLabel(l)
    ensures d.warns <==> !allowUnusualDice && !IsCombined(count) && !IsUsualDie(count)
  {
    if IsCombined(count) then
      var (a, b) := CombinedSizes(count);
      CombinedDice(a, b, labelSeparator, separator)
    else
      Dice(TextCell("d" + NatToString(count)), SingleDie(count), !allowUnusualDice && !IsUsualDie(count))
  }

  /** Combined counts: header "d" a label-separator b, and a * b labels
      "n0" separator "n1" in die-major order. */
  lemma GetDiceCombined(count: nat, labelSeparator: string, separator: string, allowUnusualDice: bool, n0: nat, n1: nat)
    requires IsCombined(count)
    requires 1 <= n0 <= CombinedSizes(count).0 && 1 <= n1 <= CombinedSizes(count).1
    ensures var (a, b) := CombinedSizes(count);
      var d := GetDiceIterator(count, labelSeparator, separator, allowUnusualDice);
      && d.head == TextCell("d" + NatToString(a) + labelSeparator + NatToString(b))
      && d.labels[(n0 - 1) * b + (n1 - 1)] == PairLabel(n0, n1, separator)
  {
    var (a, b) := CombinedSizes(count);
    PairLabelsAt(a, b, separator, n0, n1);
  }

  /** Every other count, three included: a single die "d" count, labelled 1..count. */
  lemma GetDiceSingle(count: nat, labelSeparator: string, separator: string, allowUnusualDice: bool)
    requires !IsCombined(count)
    ensures var d := GetDiceIterator(count, labelSeparator, separator, allowUnusualDice);
      && d.head == TextCell("d" + NatToString(count))
      && forall i :: 0 <= i < count ==> d.labels[i] == TextCell(NatToString(i + 1))
  {
  }

  /** The warning is an observation only: the flag never changes the labels. */
  lemma WarningKeepsLabels(count: nat, labelSeparator: string, separator: string)
    ensures var quiet := GetDiceIterator(count, labelSeparator, separator, true);
      var loud := GetDiceIterator(count, labelSeparator, separator, false);
      loud.head == quiet.head && loud.labels == quiet.labels && !quiet.warns
  {
  }

  // ---------------------------------------------------------------------------
  // handle_chapter
  // ---------------------------------------------------------------------------

  /** What `handle_chapter` writes for one extracted table: the table with its
      first column relabelled if it matches the roll-table pattern, otherwise
      the table unchanged. */
  function RewriteTable(cfg: Config, t: Table): (r: Result<seq<Event>>)
  {
    match Detect(t)
    case Err(e) => Err(e)
    case Ok(isRollTable) =>
      if isRollTable then
        var dice := GetDiceIterator(|t.content| - 1, cfg.labelSeparator, cfg.separator, cfg.allowUnusualDice);
        Ok(Serialize(Relabelled(t, dice.head, dice.labels)))
      else
        Ok(Serialize(t))
  }

  /** The assignments of `handle_chapter`: `content[0][0]`, then each data
      row's cell 0 from the labels, in order. */
  method RelabelInPlace(t: Table, head: Cell, labels: seq<Cell>) returns (r: Table)
    requires HasFirstColumn(t)
    ensures r == Relabelled(t, head, labels)
  {
    var content := t.content;
    content := content[0 := content[0][0 := head]];
    var i := 0;
    while i < |content| - 1 && i < |labels|
      invariant 0 <= i <= |content| - 1 == |t.content| - 1 && i <= |labels|
      invariant content[0] == t.content[0][0 := head]
      invariant forall k :: 1 <= k <= i ==> content[k] == t.content[k][0 := labels[k - 1]]
      invariant forall k :: i < k < |content| ==> content[k] == t.content[k]
    {
      content := content[i + 1 := content[i + 1][0 := labels[i]]];
      i := i + 1;
    }
    r := Table(t.alignment, content);
    assert r.content == Relabelled(t, head, labels).content;
  }

  /** The body of `handle_chapter` for one table: detect, generate, assign
      in place, drain `into_iter`. */
  method HandleTable(cfg: Config, t: Table) returns (r: Result<seq<Event>>)
    ensures r == RewriteTable(cfg, t)
  {
    var detected := Detect(t);
    if detected.Err? {
      return Err(detected.error);
    }
    var table := t;
    if detected.value {
      var dice := GetDiceIterator(|t.content| - 1, cfg.labelSeparator, cfg.separator, cfg.allowUnusualDice);
      table := RelabelInPlace(t, dice.head, dice.labels);
    }
    var evs := CollectEvents(table);
    return Ok(evs);
  }

  /** The events written for a chapter: each event outside a table passes
      through, and each table is replaced by what `RewriteTable` writes. */
  function Transform(cfg: Config, s: seq<Event>): Result<seq<Event>>
    decreases |s|
  {
    if s == [] then Ok([])
    else if s[0].TableStart? then
      match Extract(s[0].alignment, s[1..])
      case Err(e) => Err(e)
      case Ok(x) =>
        match RewriteTable(cfg, x.table)
        case Err(e) => Err(e)
        case Ok(evs) => Prepend(evs, Transform(cfg, x.rest))
    else
      Prepend([s[0]], Transform(cfg, s[1..]))
  }

  /** The loop of `handle_chapter` over the chapter's events. */
  method HandleChapter(cfg: Config, s: seq<Event>) returns (r: Result<seq<Event>>)
    ensures r == Transform(cfg, s)
  {
    var out: seq<Event> := [];
    var i := 0;
    assert s[i..] == s;
    PrependNothing(Transform(cfg, s));
    while i < |s|
      invariant 0 <= i <= |s|
      invariant Transform(cfg, s) == Prepend(out, Transform(cfg, s[i..]))
      decreases |s| - i
    {
      var ev := s[i];
      assert s[i..][0] == ev && s[i..][1..] == s[i + 1..];
      if ev.TableStart? {
        var x := New(ev.alignment, s[i + 1..]);
        if x.Err? {
          return Err(x.error);
        }
        var evs := HandleTable(cfg, x.value.table);
        if evs.Err? {
          return Err(evs.error);
        }
        PrependTwice(out, evs.value, Transform(cfg, x.value.rest));
        out := out + evs.value;
        i := |s| - |x.value.rest|;
        assert s[i..] == x.value.rest;
      } else {
        PrependTwice(out, [ev], Transform(cfg, s[i + 1..]));
        out := out + [ev];
        i := i + 1;
      }
    }
    assert s[i..] == [] && out + [] == out;
    return Ok(out);
  }

  // ---------------------------------------------------------------------------
  // Properties of the rewrite
  // ---------------------------------------------------------------------------

  /** A matching table gets its header and every data row relabelled: the
      generator is asked for one label per data row and each row's first cell
      receives its label in order; all other cells stay. */
  lemma RewriteRelabelsEveryRow(cfg: Config, t: Table)
    requires IsRollTable(t)
    ensures var dice := GetDiceIterator(|t.content| - 1, cfg.labelSeparator, cfg.separator, cfg.allowUnusualDice);
      var t' := Relabelled(t, dice.head, dice.labels);
      && RewriteTable(cfg, t) == Ok(Serialize(t'))
      && t'.content[0][0] == dice.head
      && (forall i :: 1 <= i < |t.content| ==> t'.content[i][0] == dice.labels[i - 1])
      && (forall i :: 0 <= i < |t.content| ==> t'.content[i][1..] == t.content[i][1..])
  {
  }

  /** A table that does not match is written back event for event. */
  lemma PassThroughRejected(cfg: Config, t: Table, tail: seq<Event>)
    requires WellFormed(t.content) && Detect(t) == Ok(false)
    ensures Transform(cfg, Serialize(t) + tail) == Prepend(Serialize(t), Transform(cfg, tail))
  {
    var s := Serialize(t) + tail;
    assert s[0] == TableStart(t.alignment);
    assert s[1..] == Serialize(t)[1..] + tail;
    ExtractSerialize(t, tail);
  }

  /** A chapter without tables is written back unchanged. */
  lemma {:induction false} NoTablesPassThrough(cfg: Config, s: seq<Event>)
    requires forall i :: 0 <= i < |s| ==> !s[i].TableStart?
    ensures Transform(cfg, s) == Ok(s)
    decreases |s|
  {
    if s != [] {
      NoTablesPassThrough(cfg, s[1..]);
      assert [s[0]] + s[1..] == s;
    }
  }

  /** What is written for a table is written back unchanged by a second pass. */
  lemma RewriteIsFixed(cfg: Config, t: Table, tail: seq<Event>)
    requires WellFormed(t.content) && RewriteTable(cfg, t).Ok?
    ensures var evs := RewriteTable(cfg, t).value;
      Transform(cfg, evs + tail) == Prepend(evs, Transform(cfg, tail))
  {
    if Detect(t) == Ok(true) {
      var dice := GetDiceIterator(|t.content| - 1, cfg.labelSeparator, cfg.separator, cfg.allowUnusualDice);
      var t' := Relabelled(t, dice.head, dice.labels);
      assert CellOk(dice.head);
      assert forall l :: l in dice.labels ==> CellOk(l);
      RelabelledWellFormed(t, dice.head, dice.labels);
      assert t'.content[0][0] != [Text("d")];
      PassThroughRejected(cfg, t', tail);
    } else {
      PassThroughRejected(cfg, t, tail);
    }
  }

  /** Idempotence: running the rewrite on its own output changes nothing,
      because a rewritten header is no longer the bare "d". */
  lemma {:induction false} TransformIdempotent(cfg: Config, s: seq<Event>)
    requires Transform(cfg, s).Ok?
    ensures Transform(cfg, Transform(cfg, s).value) == Transform(cfg, s)
    decreases |s|
  {
    if s == [] {
    } else if s[0].TableStart? {
      var x := Extract(s[0].alignment, s[1..]).value;
      ExtractWellFormed(s[0].alignment, [], s[1..]);
      TransformIdempotent(cfg, x.rest);
      RewriteIsFixed(cfg, x.table, Transform(cfg, x.rest).value);
    } else {
      var out := Transform(cfg, s).value;
      TransformIdempotent(cfg, s[1..]);
      assert out[0] == s[0] && out[1..] == Transform(cfg, s[1..]).value;
    }
  }
}
