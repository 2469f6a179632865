/** The markdown event stream as the roll-table rewriter sees it: the tokens a
    markdown tokenizer produces and a markdown re-renderer consumes, reduced to
    the table tags the rewriter dispatches on, plain text, and one opaque
    catch-all for every other inline or block event; and the decimal spelling
    of the numbers in dice labels. */
module Markdown {

  /** Per-column alignment of a table, declared by its delimiter row. */
  datatype Alignment = NoAlignment | Left | Center | Right

  datatype Event =
    | TableStart(alignment: seq<Alignment>)
    | TableEnd(alignment: seq<Alignment>)
    | HeadStart
    | HeadEnd
    | RowStart
    | RowEnd
    | CellStart
    | CellEnd
    | Text(text: string)
    | Other(id: nat)   // any event the rewriter preserves without looking inside

  /** A table cell is the sequence of events between its start and end tags. */
  type Cell = seq<Event>
  type Row = seq<Cell>

  // ---------------------------------------------------------------------------
  // Decimal formatting of naturals (`format!("{}", n)` on a `usize`)
  // ---------------------------------------------------------------------------

  predicate IsDigit(c: char)
  {
    '0' <= c <= '9'
  }

  predicate IsDigits(s: string)
  {
    forall i :: 0 <= i < |s| ==> IsDigit(s[i])
  }

  function DigitChar(d: nat): (c: char)
    requires d < 10
    ensures IsDigit(c)
    ensures c as int - '0' as int == d
  {
    ('0' as int + d) as char
  }

  /** The shortest decimal spelling of `n`. */
  function NatToString(n: nat): (s: string)
    ensures 1 <= |s| && IsDigits(s)
    ensures s[0] == '0' ==> s == "0"
    decreases n
  {
    if n < 10 then [DigitChar(n)] else NatToString(n / 10) + [DigitChar(n % 10)]
  }

  /** The value of a string of decimal digits: the reference reading of `NatToString`. */
  function ParseNat(s: string): nat
    requires IsDigits(s)
    decreases |s|
  {
    if s == [] then 0 else ParseNat(s[..|s| - 1]) * 10 + (s[|s| - 1] as int - '0' as int)
  }

  lemma {:induction false} ParseNatToString(n: nat)
    ensures ParseNat(NatToString(n)) == n
    decreases n
  {
    var s := NatToString(n);
    if n >= 10 {
      assert s[..|s| - 1] == NatToString(n / 10);
      ParseNatToString(n / 10);
    }
  }

  /** Different numbers are spelled differently, so a label names its number. */
  lemma NatToStringInjective(m: nat, n: nat)
    ensures NatToString(m) == NatToString(n) <==> m == n
  {
    ParseNatToString(m);
    ParseNatToString(n);
  }
}
