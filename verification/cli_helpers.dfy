/** The help table (`cli_app/cli_helpers.py`): padding with spaces and the
    fixed-width layout of one row per command. */
module CliHelpers {
  import opened Results
  import opened Text
  import opened Config

  const NegativeCountMessage: string := "Count must be a non-negative integer."
  const Title: string := "Simple CLI App"
  const CommandsHeading: string := "Commands:"
  const HelpDescription: string := "Show this help message"
  const ExitDescription: string := "Exit the program"

  /** `' ' * n`. */
  function Spaces(n: nat): (r: string)
    ensures |r| == n
    ensures forall i :: 0 <= i < n ==> r[i] == ' '
  {
    if n == 0 then "" else Spaces(n - 1) + " "
  }

  /** `generate_spaces(count)`: a negative count is a `ValueError`; otherwise
      exactly `count` spaces. */
  function GenerateSpaces(count: int): (r: Result<string>)
    ensures r.Err? <==> count < 0
    ensures r.Err? ==> r.error == ValueError(NegativeCountMessage)
    ensures r.Ok? ==> |r.value| == count && forall i :: 0 <= i < |r.value| ==> r.value[i] == ' '
  {
    if count < 0 then Err(ValueError(NegativeCountMessage)) else Ok(Spaces(count))
  }

  /** One record of the list `print_help` expects: `{'name': ..., 'description': ...}`. */
  datatype HelpEntry = HelpEntry(name: string, description: string)

  /** Lines written and, when the table stopped early, the exception. */
  datatype Printed = Printed(lines: seq<string>, error: Option<Error>)

  /** The text of one row once the padding exists. */
  function RowText(name: string, pad: string, description: string): string {
    "  " + name + pad + "- " + description
  }

  /** One table row: two spaces, the name padded with spaces to `MAX`
      columns, `"- "`, the description. A name longer than `MAX` asks
      `generate_spaces` for a negative count. */
  function Row(e: HelpEntry): (r: Result<string>)
    ensures r.Err? <==> |e.name| > MAX
    ensures r.Err? ==> r.error == ValueError(NegativeCountMessage)
    ensures r.Ok? ==> RowLayout(r.value, e)
  {
    var pad :- GenerateSpaces(MAX - |e.name|);
    var line := RowText(e.name, pad, e.description);
    assert line[..2] == "  ";
    assert line[2..2 + |e.name|] == e.name;
    assert line[2 + |e.name|..2 + MAX] == pad;
    assert line[2 + MAX..4 + MAX] == "- ";
    assert line[4 + MAX..] == e.description;
    Ok(line)
  }

  /** The column rule, field by field: the name from column 2, spaces up to
      column `2 + MAX`, the `"- "` separator there, then the description. */
  predicate RowLayout(line: string, e: HelpEntry) {
    && |e.name| <= MAX
    && |line| == 4 + MAX + |e.description|
    && line[..2] == "  "
    && line[2..2 + |e.name|] == e.name
    && (forall i :: 2 + |e.name| <= i < 2 + MAX ==> line[i] == ' ')
    && line[2 + MAX..4 + MAX] == "- "
    && line[4 + MAX..] == e.description
  }

  /** The layout fixes the row: a line laid out for an entry is that entry's
      row. */
  lemma RowLayoutUnique(line: string, e: HelpEntry)
    requires RowLayout(line, e)
    ensures Row(e) == Ok(line)
  {
    SameLayoutSameLine(Row(e).value, line, e);
  }

  lemma SameLayoutSameLine(a: string, b: string, e: HelpEntry)
    requires RowLayout(a, e) && RowLayout(b, e)
    ensures a == b
  {
    forall i | 0 <= i < |a| ensures a[i] == b[i] {
      if i < 2 {
        assert a[i] == a[..2][i] && b[i] == b[..2][i];
      } else if i < 2 + |e.name| {
        assert a[i] == a[2..2 + |e.name|][i - 2] && b[i] == b[2..2 + |e.name|][i - 2];
      } else if i < 2 + MAX {
      } else if i < 4 + MAX {
        assert a[i] == a[2 + MAX..4 + MAX][i - 2 - MAX] && b[i] == b[2 + MAX..4 + MAX][i - 2 - MAX];
      } else {
        assert a[i] == a[4 + MAX..][i - 4 - MAX] && b[i] == b[4 + MAX..][i - 4 - MAX];
      }
    }
  }

  /** The layout lets a reader take the name and the description back out
      of a row: the name is the stripped first `MAX` columns after the
      indent, the description everything after the separator. */
  lemma RowFieldsRecoverable(e: HelpEntry)
    requires |e.name| <= MAX && IsStripped(e.name)
    ensures Row(e).Ok?
    ensures Strip(Row(e).value[2..2 + MAX]) == e.name
    ensures Row(e).value[4 + MAX..] == e.description
  {
    var line := Row(e).value;
    var cell := line[2..2 + MAX];
    var pad := cell[|e.name|..];
    assert cell == e.name + pad;
    assert AllSpace(pad) by {
      forall k | 0 <= k < |pad| ensures IsSpace(pad[k]) {
        assert pad[k] == line[2 + |e.name| + k];
      }
    }
    assert AllSpace([]);
    assert cell == [] + e.name + pad;
    StripUnique([], e.name, pad);
  }

  /** The rows of the commands up to the first name that does not fit. */
  function Rows(cmds: seq<HelpEntry>): (r: Printed)
    ensures r.error.None? <==> forall i :: 0 <= i < |cmds| ==> |cmds[i].name| <= MAX
    ensures r.error.None? ==> |r.lines| == |cmds|
    ensures r.error.Some? ==>
      && r.error == Some(ValueError(NegativeCountMessage))
      && |r.lines| < |cmds| && |cmds[|r.lines|].name| > MAX
    ensures forall i :: 0 <= i < |r.lines| ==> Row(cmds[i]) == Ok(r.lines[i])
  {
    if cmds == [] then Printed([], None)
    else
      match Row(cmds[0])
      case Err(err) => Printed([], Some(err))
      case Ok(line) =>
        var rest := Rows(cmds[1..]);
        RowsStep(cmds, line, rest.lines);
        Printed([line] + rest.lines, rest.error)
  }

  /** The first row in front of the rows of the remaining commands. */
  lemma RowsStep(cmds: seq<HelpEntry>, line: string, rest: seq<string>)
    requires |cmds| > 0 && Row(cmds[0]) == Ok(line)
    requires |rest| < |cmds|
    requires forall i :: 0 <= i < |rest| ==> Row(cmds[1..][i]) == Ok(rest[i])
    ensures forall i :: 0 <= i < |rest| + 1 ==> Row(cmds[i]) == Ok(([line] + rest)[i])
  {
    forall i | 0 <= i < |rest| + 1 ensures Row(cmds[i]) == Ok(([line] + rest)[i]) {
      if i > 0 {
        assert cmds[i] == cmds[1..][i - 1];
      }
    }
  }

  /** `print_help(commands)`: the title and heading, one row per command in
      the given order, then the fixed `help` and `exit` rows. A command name
      longer than `MAX` raises `ValueError` at its row, after the rows
      before it are printed. */
  function PrintHelp(cmds: seq<HelpEntry>): (r: Printed)
    ensures |r.lines| >= 2 && r.lines[0] == Title && r.lines[1] == CommandsHeading
    ensures r.error.None? <==> forall i :: 0 <= i < |cmds| ==> |cmds[i].name| <= MAX
    ensures r.error.Some? ==>
      && r.error == Some(ValueError(NegativeCountMessage))
      && |r.lines| - 2 < |cmds| && |cmds[|r.lines| - 2].name| > MAX
    ensures r.error.None? ==>
      && |r.lines| == |cmds| + 4
      && RowLayout(r.lines[|cmds| + 2], HelpEntry("help", HelpDescription))
      && RowLayout(r.lines[|cmds| + 3], HelpEntry("exit", ExitDescription))
    ensures forall i :: 0 <= i < |r.lines| - 2 && i < |cmds| ==> RowLayout(r.lines[i + 2], cmds[i])
  {
    var rows := Rows(cmds);
    var tail := if rows.error.Some? then [] else FixedRows();
    var lines := [Title, CommandsHeading] + rows.lines + tail;
    RowsLaidOut(cmds, rows.lines, tail);
    assert rows.error.None? ==> lines[|cmds| + 2] == tail[0] && lines[|cmds| + 3] == tail[1];
    Printed(lines, rows.error)
  }

  /** Rows printed after the title and heading keep their layout. */
  lemma RowsLaidOut(cmds: seq<HelpEntry>, rows: seq<string>, tail: seq<string>)
    requires |rows| <= |cmds|
    requires forall i :: 0 <= i < |rows| ==> Row(cmds[i]) == Ok(rows[i])
    ensures forall i :: 0 <= i < |rows| ==> RowLayout(([Title, CommandsHeading] + rows + tail)[i + 2], cmds[i])
  {
    forall i | 0 <= i < |rows| ensures RowLayout(([Title, CommandsHeading] + rows + tail)[i + 2], cmds[i]) {
      assert ([Title, CommandsHeading] + rows + tail)[i + 2] == rows[i];
    }
  }

  /** The `help` and `exit` rows that close the table. */
  function FixedRows(): (r: seq<string>)
    ensures |r| == 2
    ensures RowLayout(r[0], HelpEntry("help", HelpDescription))
    ensures RowLayout(r[1], HelpEntry("exit", ExitDescription))
  {
    var help := Row(HelpEntry("help", HelpDescription));
    var exit := Row(HelpEntry("exit", ExitDescription));
    [help.value, exit.value]
  }

  /** Every row the table prints, the fixed ones included, has its `"- "`
      at column `2 + MAX`. */
  lemma HelpSeparatorColumn(cmds: seq<HelpEntry>, k: nat)
    requires PrintHelp(cmds).error.None?
    requires 2 <= k < |PrintHelp(cmds).lines|
    ensures PrintHelp(cmds).lines[k][2 + MAX..4 + MAX] == "- "
  {
    var p := PrintHelp(cmds);
    if k < |cmds| + 2 {
      assert RowLayout(p.lines[(k - 2) + 2], cmds[k - 2]);
    }
  }
}
