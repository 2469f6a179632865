/** The label vocabulary both dice generators share: label cells, die
    notation, the usual dice, the combined row counts and their dice, and the
    label sequences of the range maps. */
module DiceLabels {
  import opened Markdown

  /** The header label and one label per data row, and whether the
      unusual-die warning is printed. */
  datatype Dice = Dice(head: Cell, labels: seq<Cell>, warns: bool)

  /** A label cell holds a single text event. */
  function TextCell(s: string): Cell
  {
    [Text(s)]
  }

  predicate IsLabel(cell: Cell)
  {
    |cell| == 1 && cell[0].Text?
  }

  /** Die notation: "d" followed by a digit, so never the bare "d" of the pattern. */
  predicate IsDieNotation(cell: Cell)
  {
    IsLabel(cell) && |cell[0].text| >= 2 && cell[0].text[0] == 'd' && IsDigit(cell[0].text[1])
  }

  predicate IsUsualDie(count: nat)
  {
    count in {4, 6, 8, 10, 12, 20, 100}
  }

  /** The row counts read as two dice. */
  predicate IsCombined(count: nat)
  {
    count in {16, 24, 32, 36, 48, 64}
  }

  /** The pair of dice preferred for each combined row count. */
  function CombinedSizes(count: nat): (ab: (nat, nat))
    requires IsCombined(count)
    ensures ab.0 * ab.1 == count && ab.0 >= ab.1 >= 4
  {
    match count
    case 16 => (4, 4)
    case 24 => (6, 4)
    case 32 => (8, 4)
    case 36 => (6, 6)
    case 48 => (8, 6)
    case _ => (8, 8)
  }

  function PairLabel(n0: nat, n1: nat, separator: string): Cell
  {
    TextCell(NatToString(n0) + separator + NatToString(n1))
  }

  /** The labels of first-die value `n0`, second die running 1..=b. */
  function DieRow(n0: nat, b: nat, separator: string): (row: seq<Cell>)
    ensures |row| == b
    ensures forall n1 :: 1 <= n1 <= b ==> row[n1 - 1] == PairLabel(n0, n1, separator)
  {
    seq(b, j requires 0 <= j < b => PairLabel(n0, j + 1, separator))
  }

  /** The combined-dice labels: `(1..=a).flat_map(|die| repeat(die).zip(1..=b))`
      mapped to "n0" separator "n1". */
  function PairLabels(a: nat, b: nat, separator: string): (labels: seq<Cell>)
    ensures |labels| == a * b
    ensures forall l :: l in labels ==> IsLabel(l)
  {
    if a == 0 then [] else PairLabels(a - 1, b, separator) + DieRow(a, b, separator)
  }

  /** Die-major order: the label of (n0, n1) sits at (n0 - 1) * b + (n1 - 1). */
  lemma {:induction false} PairLabelsAt(a: nat, b: nat, separator: string, n0: nat, n1: nat)
    requires 1 <= n0 <= a && 1 <= n1 <= b
    ensures (n0 - 1) * b + (n1 - 1) < a * b
    ensures PairLabels(a, b, separator)[(n0 - 1) * b + (n1 - 1)] == PairLabel(n0, n1, separator)
    decreases a
  {
    var k := (n0 - 1) * b + (n1 - 1);
    var before := PairLabels(a - 1, b, separator);
    assert |before| == (a - 1) * b;
    if n0 < a {
      PairLabelsAt(a - 1, b, separator, n0, n1);
    } else {
      assert k == |before| + (n1 - 1);
    }
  }

  /** `(1..=count).map(|i| format!("{}", i))` mapped to labels. */
  function SingleDie(count: nat): (labels: seq<Cell>)
    ensures |labels| == count
    ensures forall i :: 0 <= i < count ==> labels[i] == TextCell(NatToString(i + 1))
  {
    if count == 0 then [] else SingleDie(count - 1) + [TextCell(NatToString(count))]
  }
}
