/** The library variant of the roll-table rewriter (src/lib.rs): its option
    set, its table reader, its eager re-serialisation, its dice generator
    (with the special three-row table) and the per-chapter rewrite loop. */
module RollTablesLib {
  import opened Collections
  import opened Markdown
  import opened Tables
  import opened DiceLabels

  /** The `[preprocessor.rolltables]` options this variant reads. */
  datatype Config = Config(headSeparator: string, separator: string, warnUnusualDice: bool)

  /** The values used for options that are absent. */
  const DefaultConfig := Config("", ".", false)

  // ---------------------------------------------------------------------------
  // MarkdownTable
  // ---------------------------------------------------------------------------

  /** One arm of the loop in `MarkdownTable::new`: what the next event does to
      the rows read so far. The steps themselves are defined once, by
      `Tables.StepOn`; this method restates them as statements so that the
      loop in `New` reasons about one event at a time, which keeps its proof
      small. */
  method Push(content: seq<Row>, ev: Event) returns (step: Step)
    ensures step == StepOn(content, ev)
  {
    match ev {
      case HeadStart =>
        return Continue(content + [[]]);
      case RowStart =>
        return Continue(content + [[]]);
      case CellStart =>
        if |content| == 0 {
          return Fail(NoOpenRow);
        }
        return Continue(content[|content| - 1 := content[|content| - 1] + [[]]]);
      case HeadEnd =>
        return Continue(content);
      case RowEnd =>
        return Continue(content);
      case CellEnd =>
        return Continue(content);
      case TableEnd(_) =>
        return Stop;
      case _ =>
        if |content| == 0 {
          return Fail(NoOpenRow);
        }
        var row := content[|content| - 1];
        if |row| == 0 {
          return Fail(NoOpenCell);
        }
        return Continue(content[|content| - 1 := row[|row| - 1 := row[|row| - 1] + [ev]]]);
    }
  }

  /** `MarkdownTable::new`: reads events after a table-start event, pushing rows,
      cells and cell events onto `content` until the table-end event. */
  method New(alignment: seq<Alignment>, stream: seq<Event>) returns (r: Result<Extracted>)
    ensures r == Extract(alignment, stream)
  {
    var content: seq<Row> := [];
    var i := 0;
    while i < |stream|
      invariant 0 <= i <= |stream|
      invariant ExtractFrom(alignment, content, stream[i..]) == Extract(alignment, stream)
      decreases |stream| - i
    {
      assert stream[i..][0] == stream[i] && stream[i..][1..] == stream[i + 1..];
      var step := Push(content, stream[i]);
      match step {
        case Stop =>
          return Ok(Extracted(Table(alignment, content), stream[i + 1..]));
        case Fail(err) =>
          return Err(err);
        case Continue(next) =>
          content := next;
      }
      i := i + 1;
    }
    return Err(UnexpectedEndOfStream);
  }

  /** `head()`: the header row. */
  function Head(t: Table): Row
    requires |t.content| > 0
  {
    t.content[0]
  }

  /** `rows()`: the data rows, which follow the header row. */
  function Rows(t: Table): (rows: seq<Row>)
    requires |t.content| > 0
    ensures [Head(t)] + rows == t.content
    ensures |rows| == |t.content| - 1
  {
    t.content[1..]
  }

  /** The events of one data row in `events_iter`. */
  function RowEventsIter(row: Row): seq<Event>
  {
    [RowStart] + FlatMap(CellEvents, row) + [RowEnd]
  }

  lemma {:induction false} DataRowsAsFlatMap(content: seq<Row>, r: nat)
    requires 1 <= r <= |content|
    ensures RowsFrom(content, r) == FlatMap(RowEventsIter, content[r..])
    decreases |content| - r
  {
    if r < |content| {
      DataRowsAsFlatMap(content, r + 1);
      assert content[r..][0] == content[r];
      assert content[r..][1..] == content[r + 1..];
    } else {
      assert content[r..] == [];
    }
  }

  /** `events_iter`: the table start, the header row's cells between head
      tags, each data row's cells between row tags, and the table end; the
      same nesting the reader consumes. */
  function EventsIter(t: Table): (evs: seq<Event>)
    requires |t.content| > 0
    ensures evs == Serialize(t)
  {
    DataRowsAsFlatMap(t.content, 1);
    [TableStart(t.alignment)]
    + [HeadStart] + FlatMap(CellEvents, Head(t)) + [HeadEnd]
    + FlatMap(RowEventsIter, Rows(t))
    + [TableEnd(t.alignment)]
  }

  // ---------------------------------------------------------------------------
  // get_dice_iterator
  // ---------------------------------------------------------------------------

  /** `combined_dice(a, b)`. */
  function CombinedDice(a: nat, b: nat, headSeparator: string, separator: string): (d: Dice)
    ensures |d.labels| == a * b && !d.warns
    ensures IsDieNotation(d.head)
    ensures forall l :: l in d.labels ==> IsLabel(l)
  {
    Dice(TextCell("d" + NatToString(a) + headSeparator + NatToString(b)), PairLabels(a, b, separator), false)
  }

  /** `get_dice_iterator`: exactly one label per data row, a header in die
      notation, and the warning only for an unusual single die when asked for. */
  function GetDiceIterator(count: nat, headSeparator: string, separator: string, warnUnusualDice: bool): (d: Dice)
    ensures |d.labels| == count
    ensures IsDieNotation(d.head)
    ensures forall l :: l in d.labels ==> IsLabel(l)
    ensures d.warns <==> warnUnusualDice && !IsCombined(count) && count != 3 && !IsUsualDie(count)
  {
    if IsCombined(count) then
      var (a, b) := CombinedSizes(count);
      CombinedDice(a, b, headSeparator, separator)
    else if count == 3 then
      Dice(TextCell("d6"), [TextCell("1, 2"), TextCell("3, 4"), TextCell("5, 6")], false)
    else
      Dice(TextCell("d" + NatToString(count)), SingleDie(count), warnUnusualDice && !IsUsualDie(count))
  }

  /** Combined counts: header "d" a head-separator b, and a * b labels
      "n0" separator "n1" in die-major order. */
  lemma GetDiceCombined(count: nat, headSeparator: string, separator: string, warnUnusualDice: bool, n0: nat, n1: nat)
    requires IsCombined(count)
    requires 1 <= n0 <= CombinedSizes(count).0 && 1 <= n1 <= CombinedSizes(count).1
    ensures var (a, b) := CombinedSizes(count);
      var d := GetDiceIterator(count, headSeparator, separator, warnUnusualDice);
      && d.head == TextCell("d" + NatToString(a) + headSeparator + NatToString(b))
      && d.labels[(n0 - 1) * b + (n1 - 1)] == PairLabel(n0, n1, separator)
  {
    var (a, b) := CombinedSizes(count);
    PairLabelsAt(a, b, separator, n0, n1);
  }

  /** Every other count except 3: a single die "d" count, labelled 1..count. */
  lemma GetDiceSingle(count: nat, headSeparator: string, separator: string, warnUnusualDice: bool)
    requires !IsCombined(count) && count != 3
    ensures var d := GetDiceIterator(count, headSeparator, separator, warnUnusualDice);
      && d.head == TextCell("d" + NatToString(count))
      && forall i :: 0 <= i < count ==> d.labels[i] == TextCell(NatToString(i + 1))
  {
  }

  /** The three-row table is read with a d6, two faces per row. */
  lemma GetDiceThree(headSeparator: string, separator: string, warnUnusualDice: bool)
    ensures GetDiceIterator(3, headSeparator, separator, warnUnusualDice)
         == Dice(TextCell("d6"), [TextCell("1, 2"), TextCell("3, 4"), TextCell("5, 6")], false)
  {
  }

  /** The warning is an observation only: the flag never changes the labels. */
  lemma WarningKeepsLabels(count: nat, headSeparator: string, separator: string)
    ensures var loud := GetDiceIterator(count, headSeparator, separator, true);
      var quiet := GetDiceIterator(count, headSeparator, separator, false);
      loud.head == quiet.head && loud.labels == quiet.labels && !quiet.warns
  {
  }

  // ---------------------------------------------------------------------------
  // handle_chapter
  // ---------------------------------------------------------------------------

  /** What `handle_chapter` writes for one extracted table: the table with its
      first column relabelled if it matches the roll-table pattern, otherwise
      the table unchanged. */
  function RewriteTable(cfg: Config, t: Table): (r: Result<seq<Event>>)
  {
    match Detect(t)
    case Err(e) => Err(e)
    case Ok(isRollTable) =>
      if isRollTable then
        var dice := GetDiceIterator(|Rows(t)|, cfg.headSeparator, cfg.separator, cfg.warnUnusualDice);
        Ok(EventsIter(Relabelled(t, dice.head, dice.labels)))
      else
        Ok(EventsIter(t))
  }

  /** The assignments of `handle_chapter`: the header's cell 0 through
      `head_mut()`, then each data row's cell 0 from the labels, in order,
      through `rows_mut()`. */
  method RelabelInPlace(t: Table, head: Cell, labels: seq<Cell>) returns (r: Table)
    requires HasFirstColumn(t)
    ensures r == Relabelled(t, head, labels)
  {
    var content := t.content;
    content := content[0 := content[0][0 := head]];
    var i := 0;
    while i < |content| - 1 && i < |labels|
      invariant 0 <= i <= |content| - 1 == |t.content| - 1 && i <= |labels|
      invariant content[0] == t.content[0][0 := head]
      invariant forall k :: 1 <= k <= i ==> content[k] == t.content[k][0 := labels[k - 1]]
      invariant forall k :: i < k < |content| ==> content[k] == t.content[k]
    {
      content := content[i + 1 := content[i + 1][0 := labels[i]]];
      i := i + 1;
    }
    r := Table(t.alignment, content);
    assert r.content == Relabelled(t, head, labels).content;
  }

  /** The body of `handle_chapter` for one table: detect, generate, assign
      in place, write the events with `events_iter`. */
  method HandleTable(cfg: Config, t: Table) returns (r: Result<seq<Event>>)
    ensures r == RewriteTable(cfg, t)
  {
    var detected := Detect(t);
    if detected.Err? {
      return Err(detected.error);
    }
    var table := t;
    if detected.value {
      var dice := GetDiceIterator(|Rows(t)|, cfg.headSeparator, cfg.separator, cfg.warnUnusualDice);
      table := RelabelInPlace(t, dice.head, dice.labels);
    }
    return Ok(EventsIter(table));
  }

  /** The events written for a chapter: each event outside a table passes
      through, and each table is replaced by what `RewriteTable` writes. */
  function Transform(cfg: Config, s: seq<Event>): Result<seq<Event>>
    decreases |s|
  {
    if s == [] then Ok([])
    else if s[0].TableStart? then
      match Extract(s[0].alignment, s[1..])
      case Err(e) => Err(e)
      case Ok(x) =>
        match RewriteTable(cfg, x.table)
        case Err(e) => Err(e)
        case Ok(evs) => Prepend(evs, Transform(cfg, x.rest))
    else
      Prepend([s[0]], Transform(cfg, s[1..]))
  }

  /** The loop of `handle_chapter` over the chapter's events. */
  method HandleChapter(cfg: Config, s: seq<Event>) returns (r: Result<seq<Event>>)
    ensures r == Transform(cfg, s)
  {
    var out: seq<Event> := [];
    var i := 0;
    assert s[i..] == s;
    PrependNothing(Transform(cfg, s));
    while i < |s|
      invariant 0 <= i <= |s|
      invariant Transform(cfg, s) == Prepend(out, Transform(cfg, s[i..]))
      decreases |s| - i
    {
      var ev := s[i];
      assert s[i..][0] == ev && s[i..][1..] == s[i + 1..];
      if ev.TableStart? {
        var x := New(ev.alignment, s[i + 1..]);
        if x.Err? {
          return Err(x.error);
        }
        var evs := HandleTable(cfg, x.value.table);
        if evs.Err? {
          return Err(evs.error);
        }
        PrependTwice(out, evs.value, Transform(cfg, x.value.rest));
        out := out + evs.value;
        i := |s| - |x.value.rest|;
        assert s[i..] == x.value.rest;
      } else {
        PrependTwice(out, [ev], Transform(cfg, s[i + 1..]));
        out := out + [ev];
        i := i + 1;
      }
    }
    assert s[i..] == [] && out + [] == out;
    return Ok(out);
  }

  // ---------------------------------------------------------------------------
  // Properties of the rewrite
  // ---------------------------------------------------------------------------

  /** A matching table gets its header and every data row relabelled: the
      generator is asked for one label per data row and each row's first cell
      receives its label in order; all other cells stay. */
  lemma RewriteRelabelsEveryRow(cfg: Config, t: Table)
    requires IsRollTable(t)
    ensures var dice := GetDiceIterator(|t.content| - 1, cfg.headSeparator, cfg.separator, cfg.warnUnusualDice);
      var t' := Relabelled(t, dice.head, dice.labels);
      && RewriteTable(cfg, t) == Ok(Serialize(t'))
      && t'.content[0][0] == dice.head
      && (forall i :: 1 <= i < |t.content| ==> t'.content[i][0] == dice.labels[i - 1])
      && (forall i :: 0 <= i < |t.content| ==> t'.content[i][1..] == t.content[i][1..])
  {
  }

  /** The three-row class table: its header becomes "d6" and its rows "1, 2",
      "3, 4" and "5, 6"; the class column is untouched. */
  lemma ThreeRowExample(cfg: Config)
    ensures var al := [Center, Left];
      var t := Table(al, [[TextCell("d"), TextCell("Class")], [[], TextCell("Warrior")],
                          [[], TextCell("Thief")], [[], TextCell("Wizard")]]);
      RewriteTable(cfg, t)
      == Ok(Serialize(Table(al, [[TextCell("d6"), TextCell("Class")], [TextCell("1, 2"), TextCell("Warrior")],
                                 [TextCell("3, 4"), TextCell("Thief")], [TextCell("5, 6"), TextCell("Wizard")]])))
  {
    var al := [Center, Left];
    var t := Table(al, [[TextCell("d"), TextCell("Class")], [[], TextCell("Warrior")],
                        [[], TextCell("Thief")], [[], TextCell("Wizard")]]);
    var want := Table(al, [[TextCell("d6"), TextCell("Class")], [TextCell("1, 2"), TextCell("Warrior")],
                           [TextCell("3, 4"), TextCell("Thief")], [TextCell("5, 6"), TextCell("Wizard")]]);
    assert IsRollTable(t);
    var dice := GetDiceIterator(3, cfg.headSeparator, cfg.separator, cfg.warnUnusualDice);
    assert dice.labels == [TextCell("1, 2"), TextCell("3, 4"), TextCell("5, 6")];
    var got := Relabelled(t, dice.head, dice.labels);
    assert got.content[0] == want.content[0];
    assert got.content[1] == want.content[1];
    assert got.content[2] == want.content[2];
    assert got.content[3] == want.content[3];
    assert got == want;
  }

  /** A table that does not match is written back event for event. */
  lemma PassThroughRejected(cfg: Config, t: Table, tail: seq<Event>)
    requires WellFormed(t.content) && Detect(t) == Ok(false)
    ensures Transform(cfg, Serialize(t) + tail) == Prepend(Serialize(t), Transform(cfg, tail))
  {
    var s := Serialize(t) + tail;
    assert s[0] == TableStart(t.alignment);
    assert s[1..] == Serialize(t)[1..] + tail;
    ExtractSerialize(t, tail);
  }

  /** A chapter without tables is written back unchanged. */
  lemma {:induction false} NoTablesPassThrough(cfg: Config, s: seq<Event>)
    requires forall i :: 0 <= i < |s| ==> !s[i].TableStart?
    ensures Transform(cfg, s) == Ok(s)
    decreases |s|
  {
    if s != [] {
      NoTablesPassThrough(cfg, s[1..]);
      assert [s[0]] + s[1..] == s;
    }
  }

  /** What is written for a table is written back unchanged by a second pass. */
  lemma RewriteIsFixed(cfg: Config, t: Table, tail: seq<Event>)
    requires WellFormed(t.content) && RewriteTable(cfg, t).Ok?
    ensures var evs := RewriteTable(cfg, t).value;
      Transform(cfg, evs + tail) == Prepend(evs, Transform(cfg, tail))
  {
    if Detect(t) == Ok(true) {
      var dice := GetDiceIterator(|Rows(t)|, cfg.headSeparator, cfg.separator, cfg.warnUnusualDice);
      var t' := Relabelled(t, dice.head, dice.labels);
      assert CellOk(dice.head);
      assert forall l :: l in dice.labels ==> CellOk(l);
      RelabelledWellFormed(t, dice.head, dice.labels);
      assert t'.content[0][0] != [Text("d")];
      PassThroughRejected(cfg, t', tail);
    } else {
      PassThroughRejected(cfg, t, tail);
    }
  }

  /** Idempotence: running the rewrite on its own output changes nothing,
      because a rewritten header is no longer the bare "d". */
  lemma {:induction false} TransformIdempotent(cfg: Config, s: seq<Event>)
    requires Transform(cfg, s).Ok?
    ensures Transform(cfg, Transform(cfg, s).value) == Transform(cfg, s)
    decreases |s|
  {
    if s == [] {
    } else if s[0].TableStart? {
      var x := Extract(s[0].alignment, s[1..]).value;
      ExtractWellFormed(s[0].alignment, [], s[1..]);
      var evs := RewriteTable(cfg, x.table).value;
      TransformIdempotent(cfg, x.rest);
      RewriteIsFixed(cfg, x.table, Transform(cfg, x.rest).value);
    } else {
      var out := Transform(cfg, s).value;
      TransformIdempotent(cfg, s[1..]);
      assert out[0] == s[0] && out[1..] == Transform(cfg, s[1..]).value;
    }
  }
}
