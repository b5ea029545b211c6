/** Dispatch of one input line to a command (`cli_app/command_runner.py`):
    tokenising, finding the folders that hold the command, choosing one
    (automatically, through the numbered menu, or not at all) and running it.

    Dynamic import is a registry from module name to what the module offers;
    the menu's answers are the input lines still unread; printed lines are
    returned as values. */
module CommandRunner {
  import opened Results
  import opened Text
  import opened Dicts
  import opened CommandLoader

  datatype Invocation = Invocation(command: string, args: seq<string>)

  /** What `importlib` finds under a module name: whether it defines `run`. */
  datatype Module = Module(hasRun: bool)

  /** Importable modules by dotted name; a name not in the map is not found. */
  type Registry = map<string, Module>

  /** One call `run(args)` of the module named `moduleName`. */
  datatype Call = Call(moduleName: string, args: seq<string>)

  /** What `run_command` printed and which `run` it called. */
  datatype Ran = Ran(printed: seq<string>, call: Option<Call>)

  /** What `execute_user_input` printed, which `run` it called, how many menu
      answers it read, and the exception that escaped it, if any. */
  datatype Dispatch = Dispatch(printed: seq<string>, call: Option<Call>, used: nat, error: Option<Error>)

  // ---------------------------------------------------------------------
  // parse_input

  /** `parse_input(line)`: the first whitespace-separated token is the
      command and the rest are its arguments, in order. Quotes are ordinary
      characters. A blank line has no `parts[0]`, so it raises `IndexError`. */
  function ParseInput(line: string): (r: Result<Invocation>)
    ensures r.Err? <==> AllSpace(line)
    ensures r.Err? ==> r.error == IndexError
    ensures r.Ok? ==> [r.value.command] + r.value.args == Words(line)
  {
    WordsEmptyIffAllSpace(line);
    var parts := Words(line);
    if |parts| == 0 then Err(IndexError) else Ok(Invocation(parts[0], parts[1..]))
  }

  /** Writing a command and its arguments with single spaces and parsing the
      line gives them back, as long as none is empty or holds whitespace. */
  lemma ParseInputOfJoin(command: string, args: seq<string>)
    requires |command| > 0 && NoSpace(command)
    requires forall i :: 0 <= i < |args| ==> |args[i]| > 0 && NoSpace(args[i])
    ensures ParseInput(Join([command] + args, " ")) == Ok(Invocation(command, args))
  {
    var ws := [command] + args;
    assert forall i :: 0 <= i < |ws| ==> |ws[i]| > 0 && NoSpace(ws[i]) by {
      forall i | 0 <= i < |ws| ensures |ws[i]| > 0 && NoSpace(ws[i]) {
        if i > 0 { assert ws[i] == args[i - 1]; }
      }
    }
    WordsOfJoin(ws);
    WordsEmptyIffAllSpace(Join(ws, " "));
    assert ws[1..] == args;
  }

  /** Surrounding whitespace does not change the parse. */
  lemma ParseInputOfStrip(line: string)
    ensures ParseInput(Strip(line)) == ParseInput(line)
  {
    WordsOfStrip(line);
    WordsEmptyIffAllSpace(line);
    WordsEmptyIffAllSpace(Strip(line));
  }

  /** There is no shell-style quoting: a quoted argument with a space in it
      comes apart into two arguments, quote characters included. */
  lemma QuotedArgumentIsSplit()
    ensures ParseInput("echo \"a b\"") == Ok(Invocation("echo", ["\"a", "b\""]))
  {
    var args := ["\"a", "b\""];
    QuotedLineIsJoin();
    ParseInputOfJoin("echo", args);
  }

  lemma QuotedLineIsJoin()
    ensures Join(["echo"] + ["\"a", "b\""], " ") == "echo \"a b\""
  {
    assert ["echo"] + ["\"a", "b\""] == ["echo", "\"a", "b\""];
    assert Join(["\"a", "b\""], " ") == "\"a b\"";
  }

  // ---------------------------------------------------------------------
  // find_command_in_folders

  /** The keys among `ks` whose folder holds command `name`, in the order of
      `ks`. */
  function FoldersWith(cat: Catalog, name: string, ks: seq<string>): (r: seq<string>)
    ensures forall f :: f in r <==> f in ks && f in cat.entries && name in cat.entries[f].entries
    ensures Distinct(ks) ==> Distinct(r)
    ensures Subsequence(r, ks)
  {
    if ks == [] then []
    else
      var rest := FoldersWith(cat, name, ks[1..]);
      assert forall f :: f in ks <==> f == ks[0] || f in ks[1..];
      assert Distinct(ks) ==> ks[0] !in ks[1..];
      if ks[0] in cat.entries && name in cat.entries[ks[0]].entries then [ks[0]] + rest else rest
  }

  /** One step of the scan: the key at `i` is kept or dropped on its own. */
  lemma FoldersWithStep(cat: Catalog, name: string, ks: seq<string>, i: nat, matches: seq<string>)
    requires i < |ks|
    requires matches + FoldersWith(cat, name, ks[i..]) == FoldersWith(cat, name, ks)
    ensures (if ks[i] in cat.entries && name in cat.entries[ks[i]].entries then matches + [ks[i]] else matches)
            + FoldersWith(cat, name, ks[i + 1..]) == FoldersWith(cat, name, ks)
  {
    assert ks[i..][1..] == ks[i + 1..];
  }

  /** The folders holding `name`, in the catalog's iteration order. */
  function Matches(cat: Catalog, name: string): (r: seq<string>)
    ensures forall f :: f in r <==> f in cat.entries && name in cat.entries[f].entries
    ensures Distinct(r)
    ensures Subsequence(r, cat.keys)
  {
    FoldersWith(cat, name, cat.keys)
  }

  /** `find_command_in_folders(folders, command_name)`: one pass over the
      catalog that collects, in iteration order, each folder whose command
      map contains the name. */
  method FindCommandInFolders(cat: Catalog, name: string) returns (matches: seq<string>)
    ensures matches == Matches(cat, name)
  {
    matches := [];
    var i := 0;
    while i < |cat.keys|
      invariant 0 <= i <= |cat.keys|
      invariant matches + FoldersWith(cat, name, cat.keys[i..]) == FoldersWith(cat, name, cat.keys)
    {
      var folder := cat.keys[i];
      FoldersWithStep(cat, name, cat.keys, i, matches);
      if folder in cat.entries && name in cat.entries[folder].entries {
        matches := matches + [folder];
      }
      i := i + 1;
    }
    assert cat.keys[i..] == [];
  }

  // ---------------------------------------------------------------------
  // display_menu

  /** An answer that selects an option: `int(answer)` succeeds and lies in
      `1..count`. */
  predicate ValidChoice(answer: string, count: nat) {
    InRange(ParseInt(answer), count)
  }

  predicate InRange(k: Option<int>, count: nat) {
    k.Some? && 1 <= k.value <= count
  }

  /** The option chosen and the number of answers read to reach it. */
  datatype Choice = Choice(folder: string, used: nat)

  /** The menu loop over answers already passed through `int()`. */
  function PickFirst(options: seq<string>, picks: seq<Option<int>>): (r: Option<Choice>)
    ensures r.None? ==> forall j :: 0 <= j < |picks| ==> !InRange(picks[j], |options|)
    ensures r.Some? ==>
      && 1 <= r.value.used <= |picks|
      && InRange(picks[r.value.used - 1], |options|)
      && r.value.folder == options[picks[r.value.used - 1].value - 1]
      && (forall j :: 0 <= j < r.value.used - 1 ==> !InRange(picks[j], |options|))
    decreases |picks|
  {
    if picks == [] then None
    else if InRange(picks[0], |options|) then
      Some(Choice(options[picks[0].value - 1], 1))
    else
      match PickFirst(options, picks[1..])
      case None => None
      case Some(c) =>
        assert forall j :: 1 <= j < |picks| ==> picks[j] == picks[1..][j - 1];
        Some(Choice(c.folder, c.used + 1))
  }

  /** `int(a)` for every answer `a`. */
  function ParseAll(answers: seq<string>): (r: seq<Option<int>>)
    ensures |r| == |answers|
    ensures forall j :: 0 <= j < |answers| ==> r[j] == ParseInt(answers[j])
  {
    if answers == [] then [] else [ParseInt(answers[0])] + ParseAll(answers[1..])
  }

  /** `display_menu(options)`, reading `answers`: the first valid answer `k`
      selects `options[k - 1]`; every answer before it was not a number or
      out of range and only re-prompted. `None` when the answers run out, where
      `input()` raises `EOFError`. */
  function Menu(options: seq<string>, answers: seq<string>): (r: Option<Choice>)
    ensures r.None? ==> forall j :: 0 <= j < |answers| ==> !ValidChoice(answers[j], |options|)
    ensures r.Some? ==>
      && 1 <= r.value.used <= |answers|
      && (var k := ParseInt(answers[r.value.used - 1]);
          k.Some? && 1 <= k.value <= |options| && r.value.folder == options[k.value - 1])
      && (forall j :: 0 <= j < r.value.used - 1 ==> !ValidChoice(answers[j], |options|))
    ensures r.Some? ==> r.value.folder in options
  {
    ChosenAnswerParsed(options, answers);
    PickFirst(options, ParseAll(answers))
  }

  lemma ChosenAnswerParsed(options: seq<string>, answers: seq<string>)
    ensures var r := PickFirst(options, ParseAll(answers));
      r.Some? ==> ParseAll(answers)[r.value.used - 1] == ParseInt(answers[r.value.used - 1])
  {
  }

  /** The numbers the menu prints are the numbers it accepts: answering the
      label of option `k` selects option `k` at once. */
  lemma MenuAcceptsPrintedLabel(options: seq<string>, k: nat, rest: seq<string>)
    requires 1 <= k <= |options|
    ensures Menu(options, [NatToString(k)] + rest) == Some(Choice(options[k - 1], 1))
  {
    ParseIntOfNat(k);
  }

  /** A label behind an information separator is no number to `int()`,
      although `strip()` would remove the separator: the menu rejects it as
      non-numeric input and asks again. */
  lemma MenuRejectsSeparatedLabel(options: seq<string>, c: char, k: nat)
    requires IsSeparator(c) && 1 <= k <= |options|
    ensures !ValidChoice([c] + NatToString(k), |options|)
    ensures RetryLine([c] + NatToString(k)) == "Invalid input. Please enter a number."
  {
    SeparatorBlocksParseInt(c, k);
  }

  /** The menu listing: a heading, then `"<i>. <option>"` numbered from 1. */
  function MenuLines(options: seq<string>): (r: seq<string>)
    ensures |r| == |options| + 1
    ensures r[0] == "Multiple folders contain this command:"
    ensures forall i :: 0 <= i < |options| ==> r[i + 1] == NatToString(i + 1) + ". " + options[i]
  {
    ["Multiple folders contain this command:"] + NumberedFrom(1, options)
  }

  function NumberedFrom(first: nat, options: seq<string>): (r: seq<string>)
    ensures |r| == |options|
    ensures forall i :: 0 <= i < |options| ==> r[i] == NatToString(first + i) + ". " + options[i]
    decreases |options|
  {
    if options == [] then []
    else [NatToString(first) + ". " + options[0]] + NumberedFrom(first + 1, options[1..])
  }

  /** The message printed for an answer that selects nothing. */
  function RetryLine(answer: string): string {
    if ParseInt(answer).Some? then "Invalid choice. Try again." else "Invalid input. Please enter a number."
  }

  function RetryLines(answers: seq<string>): (r: seq<string>)
    ensures |r| == |answers|
    ensures forall i :: 0 <= i < |answers| ==> r[i] == RetryLine(answers[i])
  {
    if answers == [] then [] else [RetryLine(answers[0])] + RetryLines(answers[1..])
  }

  // ---------------------------------------------------------------------
  // run_command

  function ModuleName(folder: string, command: string): string {
    folder + "." + command
  }

  function NotFoundMessage(command: string): string {
    "Command '" + command + "' not found."
  }

  function NoRunMessage(command: string): string {
    "Command '" + command + "' does not have a 'run' function."
  }

  /** `run_command(folder, command, args)`: module `<folder>.<command>` is
      looked up; a missing module and a module without `run` each print one
      message and call nothing; otherwise `run(args)` is called once and
      nothing is printed. */
  function RunCommand(reg: Registry, folder: string, command: string, args: seq<string>): (r: Ran)
    ensures var m := ModuleName(folder, command);
      r.call.Some? <==> m in reg && reg[m].hasRun
    ensures r.call.Some? ==> r.call.value == Call(ModuleName(folder, command), args) && r.printed == []
    ensures ModuleName(folder, command) !in reg ==> r.printed == [NotFoundMessage(command)]
    ensures var m := ModuleName(folder, command);
      m in reg && !reg[m].hasRun ==> r.printed == [NoRunMessage(command)]
  {
    var m := ModuleName(folder, command);
    if m !in reg then Ran([NotFoundMessage(command)], None)
    else if reg[m].hasRun then Ran([], Some(Call(m, args)))
    else Ran([NoRunMessage(command)], None)
  }

  // ---------------------------------------------------------------------
  // execute_user_input

  function UnknownMessage(command: string): string {
    "Unknown command '" + command + "'. Type 'help' for a list of commands."
  }

  function AutoSelectMessage(folder: string): string {
    "Automatically selected folder: " + folder
  }

  /** `execute_user_input(line, folders, selected)` with the lookup made over
      the catalog it is given. Zero matches print the unknown-command message;
      one match runs in that folder without a menu; several matches show the
      menu over all of them and run in the folder chosen. `selected` is never
      read. */
  function Execute(line: string, cat: Catalog, selected: Option<string>, reg: Registry, answers: seq<string>): (r: Dispatch)
    ensures r.used <= |answers|
    ensures AllSpace(line) ==> r == Dispatch([], None, 0, Some(IndexError))
    ensures !AllSpace(line) ==>
      var inv := ParseInput(line).value;
      var ms := Matches(cat, inv.command);
      && (|ms| == 0 ==> r == Dispatch([UnknownMessage(inv.command)], None, 0, None))
      && (|ms| == 1 ==>
            && r.used == 0 && r.error == None
            && r.printed == [AutoSelectMessage(ms[0])] + RunCommand(reg, ms[0], inv.command, inv.args).printed
            && r.call == RunCommand(reg, ms[0], inv.command, inv.args).call)
      && (|ms| > 1 && Menu(ms, answers).None? ==>
            r == Dispatch(MenuLines(ms) + RetryLines(answers), None, |answers|, Some(EOFError)))
      && (|ms| > 1 && Menu(ms, answers).Some? ==>
            var c := Menu(ms, answers).value;
            && r.used == c.used && r.error == None
            && r.printed == MenuLines(ms) + RetryLines(answers[..c.used - 1])
                            + RunCommand(reg, c.folder, inv.command, inv.args).printed
            && r.call == RunCommand(reg, c.folder, inv.command, inv.args).call)
    ensures r.call.Some? ==>
      exists f :: f in cat.entries && ParseInput(line).value.command in cat.entries[f].entries
        && r.call.value == Call(ModuleName(f, ParseInput(line).value.command), ParseInput(line).value.args)
  {
    match ParseInput(line)
    case Err(e) => Dispatch([], None, 0, Some(e))
    case Ok(inv) =>
      var ms := Matches(cat, inv.command);
      if |ms| == 1 then
        var ran := RunCommand(reg, ms[0], inv.command, inv.args);
        CallInMatch(cat, reg, ms[0], inv);
        Dispatch([AutoSelectMessage(ms[0])] + ran.printed, ran.call, 0, None)
      else if |ms| > 1 then
        match Menu(ms, answers)
        case None => Dispatch(MenuLines(ms) + RetryLines(answers), None, |answers|, Some(EOFError))
        case Some(c) =>
          var ran := RunCommand(reg, c.folder, inv.command, inv.args);
          CallInMatch(cat, reg, c.folder, inv);
          Dispatch(MenuLines(ms) + RetryLines(answers[..c.used - 1]) + ran.printed, ran.call, c.used, None)
      else
        Dispatch([UnknownMessage(inv.command)], None, 0, None)
  }

  /** A `run` reached through a matching folder is a command of that folder. */
  lemma CallInMatch(cat: Catalog, reg: Registry, f: string, inv: Invocation)
    requires f in Matches(cat, inv.command)
    ensures var ran := RunCommand(reg, f, inv.command, inv.args);
      ran.call.Some? ==>
        exists g :: g in cat.entries && inv.command in cat.entries[g].entries
          && ran.call.value == Call(ModuleName(g, inv.command), inv.args)
  {
  }

  /** A line whose command exactly one folder holds runs there without a
      menu. */
  lemma ExecuteSingleMatch(line: string, cat: Catalog, selected: Option<string>, reg: Registry, answers: seq<string>, inv: Invocation, f: string)
    requires ParseInput(line) == Ok(inv)
    requires Matches(cat, inv.command) == [f]
    ensures var ran := RunCommand(reg, f, inv.command, inv.args);
      Execute(line, cat, selected, reg, answers) == Dispatch([AutoSelectMessage(f)] + ran.printed, ran.call, 0, None)
  {
  }

  /** The incoming selected folder plays no part in dispatch. */
  lemma SelectedFolderIgnored(line: string, cat: Catalog, s1: Option<string>, s2: Option<string>, reg: Registry, answers: seq<string>)
    ensures Execute(line, cat, s1, reg, answers) == Execute(line, cat, s2, reg, answers)
  {
  }

  /** `execute_user_input` exactly as written: after parsing it calls
      `find_command_in_folders(command)` with one argument where two are
      required, so every line either fails to parse or raises `TypeError`. */
  function ExecuteAsWritten(line: string, cat: Catalog, selected: Option<string>, reg: Registry, answers: seq<string>): (r: Dispatch)
    ensures r.call.None? && r.used == 0 && r.printed == []
    ensures r.error == Some(if AllSpace(line) then IndexError else TypeError)
  {
    match ParseInput(line)
    case Err(e) => Dispatch([], None, 0, Some(e))
    case Ok(_) => Dispatch([], None, 0, Some(TypeError))
  }

  /** The catalog `{"infra": {"status": ...}}` with an importable
      `infra.status` that defines `run`. */
  function StatusCatalog(): (cat: Catalog)
    ensures cat.keys == ["infra"]
    ensures "infra" in cat.entries && cat.entries["infra"].keys == ["status"]
  {
    var cmds: Dict<string> := RawDict(["status"], map["status" := Placeholder("status")]);
    var folders: map<string, Dict<string>> := map["infra" := cmds];
    RawDict(["infra"], folders)
  }

  lemma StatusLineParses()
    ensures ParseInput("status") == Ok(Invocation("status", []))
  {
    assert Join(["status"], " ") == "status";
    ParseInputOfJoin("status", []);
  }

  /** Only `infra` holds `status` in that catalog. */
  lemma StatusCatalogMatches()
    ensures Matches(StatusCatalog(), "status") == ["infra"]
  {
    var cat := StatusCatalog();
    var ms := Matches(cat, "status");
    assert "infra" in ms;
    assert forall f :: f in ms ==> f == "infra";
    assert Subsequence(ms, cat.keys);
  }

  /** The line `status` against that catalog: as written it raises
      `TypeError` and runs nothing, while the lookup over the catalog
      selects `infra` by itself and runs `infra.status` with no arguments. */
  lemma StatusLineAsWrittenVersusExecute(reg: Registry)
    requires ModuleName("infra", "status") in reg && reg[ModuleName("infra", "status")].hasRun
    ensures ExecuteAsWritten("status", StatusCatalog(), None, reg, []).error == Some(TypeError)
    ensures ExecuteAsWritten("status", StatusCatalog(), None, reg, []).call == None
    ensures Execute("status", StatusCatalog(), None, reg, []).call == Some(Call(ModuleName("infra", "status"), []))
    ensures Execute("status", StatusCatalog(), None, reg, []).printed == [AutoSelectMessage("infra")]
  {
    StatusLineParses();
    StatusCatalogMatches();
    ExecuteSingleMatch("status", StatusCatalog(), None, reg, [], Invocation("status", []), "infra");
  }
}
