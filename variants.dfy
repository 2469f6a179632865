/** How the two variants of the rewriter relate: the library's eager
    re-serialisation and the command-line variant's cursor write the same
    events, and the two dice generators agree except on three-row tables and
    in their default header separators. */
module Variants {
  import opened Collections
  import opened Markdown
  import opened Tables
  import opened DiceLabels
  import Lib = RollTablesLib
  import Cli = RollTablesMain

  /** The library's option set that makes the same choices as a command-line
      option set: the warning flag has the opposite polarity. */
  function LibConfigFor(cfg: Cli.Config): (lib: Lib.Config)
    ensures lib.headSeparator == cfg.labelSeparator && lib.separator == cfg.separator
    ensures lib.warnUnusualDice != cfg.allowUnusualDice
  {
    Lib.Config(cfg.labelSeparator, cfg.separator, !cfg.allowUnusualDice)
  }

  /** Apart from three rows, the generators give the same header, the same
      labels and the same warning decision. */
  lemma DiceAgree(count: nat, cfg: Cli.Config)
    requires count != 3
    ensures var lib := LibConfigFor(cfg);
      var l := Lib.GetDiceIterator(count, lib.headSeparator, lib.separator, lib.warnUnusualDice);
      var c := Cli.GetDiceIterator(count, cfg.labelSeparator, cfg.separator, cfg.allowUnusualDice);
      l == c
  {
  }

  /** On three rows the library reads a d6 with paired faces, the command-line
      variant a d3. */
  lemma DiceDifferOnThree(cfg: Cli.Config)
    ensures var lib := LibConfigFor(cfg);
      var l := Lib.GetDiceIterator(3, lib.headSeparator, lib.separator, lib.warnUnusualDice);
      var c := Cli.GetDiceIterator(3, cfg.labelSeparator, cfg.separator, cfg.allowUnusualDice);
      && l.head == [Text("d6")] && c.head == [Text("d3")]
      && l.labels[0] == [Text("1, 2")] && c.labels[0] == [Text("1")]
  {
    assert NatToString(3) == "3" && NatToString(1) == "1";
    assert "d" + NatToString(3) == "d3";
    assert Cli.GetDiceIterator(3, cfg.labelSeparator, cfg.separator, cfg.allowUnusualDice).head == TextCell("d3");
  }

  /** With their own defaults, a 16-row table is headed "d44" by the library
      and "d4 d4" by the command-line variant. */
  lemma DefaultHeadsDiffer()
    ensures Lib.GetDiceIterator(16, Lib.DefaultConfig.headSeparator, Lib.DefaultConfig.separator, false).head == [Text("d44")]
    ensures Cli.GetDiceIterator(16, Cli.DefaultConfig.labelSeparator, Cli.DefaultConfig.separator, false).head == [Text("d4 d4")]
  {
    assert NatToString(4) == "4";
    assert CombinedSizes(16) == (4, 4);
    assert "d" + NatToString(4) + "" + NatToString(4) == "d44";
    assert "d" + NatToString(4) + " d" + NatToString(4) == "d4 d4";
  }

  /** Both variants write a table identically unless it is a roll table with
      exactly three data rows: every table that is not rewritten, and every
      rewritten table of any other size. */
  lemma RewriteAgrees(cfg: Cli.Config, t: Table)
    requires |t.content| != 4 || Detect(t) != Ok(true)
    ensures Lib.RewriteTable(LibConfigFor(cfg), t) == Cli.RewriteTable(cfg, t)
  {
    if Detect(t) == Ok(true) {
      DiceAgree(|t.content| - 1, cfg);
    }
  }
}
