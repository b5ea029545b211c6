/** The read-eval loop of `cli_app/app.py`: the folders are discovered and
    the catalog is built once, then every input line is stripped and routed
    to `exit`, `help`, `set_folder` or command dispatch. The only state is the
    selected folder.

    Input is one stream of lines: the loop and the folder menu both read from
    it, and running out of lines makes `input()` raise `EOFError`. An
    exception that escapes a step ends the program. */
module App {
  import opened Results
  import opened Text
  import opened Dicts
  import opened CommandLoader
  import opened CommandRunner
  import opened CliHelpers
  import opened Config

  const ExitMessage: string := "Exiting the application."
  const SetFolderPrefix: string := "set_folder"

  // ---------------------------------------------------------------------
  // Routing one line

  /** The branch of the loop a line takes. */
  datatype Route = Quit | Help | SetFolder(candidate: string) | Forward(line: string)

  /** The branch for a raw input line. The line is stripped; the keywords
      are compared on its lower-cased form, in the order `exit`, `help`,
      `set_folder` prefix. The folder candidate is the last part of
      `split(maxsplit=1)` of the stripped line, case kept: everything after
      the first word, or that word itself when nothing follows. */
  function Classify(raw: string): (r: Route)
    ensures r.Quit? <==> Lower(Strip(raw)) == "exit"
    ensures r.Help? <==> Lower(Strip(raw)) == "help"
    ensures r.SetFolder? <==> Lower(Strip(raw)) != "exit" && Lower(Strip(raw)) != "help" && StartsWith(Lower(Strip(raw)), SetFolderPrefix)
    ensures r.SetFolder? ==>
      var ws := Words(Strip(raw));
      && |ws| > 0 && |r.candidate| > 0 && IsStripped(r.candidate)
      && (|ws| == 1 ==> r.candidate == ws[0])
      && (|ws| > 1 ==> SuffixAfterSpace(Strip(raw), r.candidate) && Words(r.candidate) == ws[1..])
    ensures r.Forward? ==> r.line == Strip(raw)
  {
    var u := Strip(raw);
    var l := Lower(u);
    if l == "exit" then Quit
    else if l == "help" then Help
    else if StartsWith(l, SetFolderPrefix) then SetFolder(FolderCandidate(u))
    else Forward(u)
  }

  /** The last part of `split(maxsplit=1)` of a stripped line that opens
      with the `set_folder` keyword: the line's only word, or the rest of
      the line from its second word on (see `Text.SplitOnceRestUnique`). */
  function FolderCandidate(u: string): (c: string)
    requires IsStripped(u) && StartsWith(Lower(u), SetFolderPrefix)
    ensures var ws := Words(u);
      && |ws| > 0 && |c| > 0 && IsStripped(c)
      && (|ws| == 1 ==> c == ws[0])
      && (|ws| > 1 ==> SuffixAfterSpace(u, c) && Words(c) == ws[1..])
  {
    SetFolderOpensWord(u);
    CandidateIsStripped(u, SplitOnce(u));
    Last(SplitOnce(u))
  }

  function Last(parts: seq<string>): string
    requires |parts| > 0
  {
    parts[|parts| - 1]
  }

  /** A line whose lower-cased form starts with `set_folder` opens with a
      word, so `split(maxsplit=1)` has at least one part. */
  lemma SetFolderOpensWord(u: string)
    requires StartsWith(Lower(u), SetFolderPrefix)
    ensures Words(u) != []
  {
    assert Lower(u)[0] == 's';
    assert !IsSpace(LowerChar(u[0]));
    WordsEmptyIffAllSpace(u);
  }

  lemma CandidateIsStripped(u: string, parts: seq<string>)
    requires IsStripped(u) && Words(u) != [] && parts == SplitOnce(u)
    ensures |parts| > 0
    ensures |Last(parts)| > 0 && IsStripped(Last(parts))
    ensures |Words(u)| == 1 ==> Last(parts) == Words(u)[0]
    ensures |Words(u)| > 1 ==> SuffixAfterSpace(u, Last(parts)) && Words(Last(parts)) == Words(u)[1..]
  {
    if |parts| == 1 {
      assert Words(u) == [Last(parts)];
    } else {
      RestCandidate(u, parts);
    }
  }

  lemma RestCandidate(u: string, parts: seq<string>)
    requires IsStripped(u) && parts == SplitOnce(u) && |parts| == 2
    ensures |Words(u)| > 1 && IsStripped(Last(parts))
    ensures SuffixAfterSpace(u, Last(parts)) && Words(Last(parts)) == Words(u)[1..]
  {
    var c := parts[1];
    assert c[|c| - 1] == u[|u| - 1];
    WordsEmptyIffAllSpace(c);
  }

  // ---------------------------------------------------------------------
  // The help listing

  /** The catalog as the records `print_help` expects: one per command,
      folder by folder in catalog order, commands in folder order. */
  function HelpEntries(cat: Catalog): (r: seq<HelpEntry>)
    ensures forall e :: e in r <==>
      exists f :: f in cat.entries && e.name in cat.entries[f].entries && e.description == cat.entries[f].entries[e.name]
  {
    FoldersEntries(cat, cat.keys)
  }

  function FoldersEntries(cat: Catalog, fs: seq<string>): (r: seq<HelpEntry>)
    requires forall f :: f in fs ==> f in cat.entries
    ensures forall e :: e in r <==>
      exists f :: f in fs && e.name in cat.entries[f].entries && e.description == cat.entries[f].entries[e.name]
  {
    if fs == [] then []
    else
      var first := FolderEntries(cat.entries[fs[0]], cat.entries[fs[0]].keys);
      var rest := FoldersEntries(cat, fs[1..]);
      assert forall f :: f in fs <==> f == fs[0] || f in fs[1..];
      first + rest
  }

  function FolderEntries(cmds: Dict<string>, cs: seq<string>): (r: seq<HelpEntry>)
    requires forall c :: c in cs ==> c in cmds.entries
    ensures |r| == |cs|
    ensures forall i :: 0 <= i < |cs| ==> r[i] == HelpEntry(cs[i], cmds.entries[cs[i]])
    ensures forall e :: e in r <==> e.name in cs && e.description == cmds.entries[e.name]
  {
    if cs == [] then []
    else
      var rest := FolderEntries(cmds, cs[1..]);
      assert forall c :: c in cs <==> c == cs[0] || c in cs[1..];
      [HelpEntry(cs[0], cmds.entries[cs[0]])] + rest
  }

  /** A catalog `load_commands` accepted never makes the help table fail:
      every name fits the column. */
  lemma HelpFitsCatalog(cat: Catalog)
    requires CatalogFits(cat)
    ensures PrintHelp(HelpEntries(cat)).error.None?
    ensures |PrintHelp(HelpEntries(cat)).lines| == |HelpEntries(cat)| + 4
  {
    var es := HelpEntries(cat);
    forall i | 0 <= i < |es| ensures |es[i].name| <= MAX {
      assert es[i] in es;
    }
  }

  // ---------------------------------------------------------------------
  // One step of the loop

  function FolderSetMessage(f: string): string {
    "Folder context set to: " + f
  }

  /** `repr` of the discovered dict `{name: {}, ...}`, for names without
      quotes, backslashes or unprintable characters. */
  function FoldersRepr(folders: seq<string>): string {
    Braced(Join(ReprItems(folders), ", "))
  }

  function Braced(s: string): string {
    "{" + s + "}"
  }

  /** One `'name': {}` item per folder, in discovery order. */
  function ReprItems(folders: seq<string>): (r: seq<string>)
    ensures |r| == |folders|
    ensures forall i {:trigger r[i]} :: 0 <= i < |folders| ==> r[i] == ReprItem(folders[i])
  {
    if folders == [] then [] else [ReprItem(folders[0])] + ReprItems(folders[1..])
  }

  function ReprItem(f: string): string {
    "'" + f + "': {}"
  }

  /** `x` holds `f` between single quotes at position `o`. */
  predicate QuotedAt(x: string, o: nat, f: string) {
    && o + |f| + 2 <= |x|
    && x[o] == '\'' && x[o + 1..o + 1 + |f|] == f && x[o + 1 + |f|] == '\''
  }

  /** The not-found message lists every discovered folder, quoted, in
      discovery order: folder `i` sits inside the braces at its place in the
      comma-separated list. */
  lemma FoldersReprListsFolders(folders: seq<string>, i: nat)
    requires i < |folders|
    ensures QuotedAt(FoldersRepr(folders), 1 + JoinOffset(ReprItems(folders), ", ", i), folders[i])
  {
    ItemHead(folders, i);
    ReprListed(folders, i);
  }

  lemma ReprListed(folders: seq<string>, i: nat)
    requires i < |folders|
    requires QuotedAt(ReprItems(folders)[i], 0, folders[i])
    ensures QuotedAt(FoldersRepr(folders), 1 + JoinOffset(ReprItems(folders), ", ", i), folders[i])
  {
    QuotedInJoin(ReprItems(folders), i, folders[i]);
  }

  /** A quoted name at the head of item `i` is quoted at that item's place
      in the braced list. */
  lemma QuotedInJoin(ws: seq<string>, i: nat, f: string)
    requires i < |ws| && QuotedAt(ws[i], 0, f)
    ensures QuotedAt(Braced(Join(ws, ", ")), 1 + JoinOffset(ws, ", ", i), f)
  {
    JoinInBraces(ws, i);
    QuotedInside(Braced(Join(ws, ", ")), 1 + JoinOffset(ws, ", ", i), ws[i], f);
  }

  lemma ItemHead(folders: seq<string>, i: nat)
    requires i < |folders|
    ensures QuotedAt(ReprItems(folders)[i], 0, folders[i])
  {
    var f := folders[i];
    var w := ReprItem(f);
    assert w[1..1 + |f|] == f;
  }

  /** What a slice holds at its start, the whole string holds there too. */
  lemma QuotedInside(x: string, a: nat, item: string, f: string)
    requires a + |item| <= |x| && x[a..a + |item|] == item
    requires QuotedAt(item, 0, f)
    ensures QuotedAt(x, a, f)
  {
    var y := x[a..a + |item|];
    assert x[a] == y[0] && x[a + 1 + |f|] == y[1 + |f|];
    var inX := x[a + 1..a + 1 + |f|];
    var inY := y[1..1 + |f|];
    forall k | 0 <= k < |f| ensures inX[k] == inY[k] {
      assert y[1 + k] == x[a + 1 + k];
    }
    assert inX == inY;
  }

  /** Item `i` of a comma-separated list in braces sits one character
      after its offset in the list. */
  lemma JoinInBraces(ws: seq<string>, i: nat)
    requires i < |ws|
    ensures var o := 1 + JoinOffset(ws, ", ", i);
      && o + |ws[i]| <= |Braced(Join(ws, ", "))|
      && Braced(Join(ws, ", "))[o..o + |ws[i]|] == ws[i]
  {
    JoinListsInOrder(ws, ", ", i);
    InBraces(Braced(Join(ws, ", ")), Join(ws, ", "), JoinOffset(ws, ", ", i), ws[i]);
  }

  lemma InBraces(x: string, mid: string, o: nat, item: string)
    requires x == Braced(mid)
    requires o + |item| <= |mid| && mid[o..o + |item|] == item
    ensures 1 + o + |item| <= |x| && x[1 + o..1 + o + |item|] == item
  {
    assert forall k :: 0 <= k < |item| ==> x[1 + o + k] == mid[o + k] == item[k];
  }

  function FolderNotFoundMessage(f: string, folders: seq<string>): string {
    "Folder '" + f + "' not found. Available: " + FoldersRepr(folders)
  }

  /** What one iteration did: the selected folder afterwards, the lines
      printed, the menu answers it read after its own line, whether the loop
      ends, and the exception that ended it, if any. */
  datatype StepResult = StepResult(selected: Option<string>, printed: seq<string>, used: nat, stop: bool, error: Option<Error>)

  /** One iteration of the loop on line `raw`, with `rest` the lines after
      it. `exit` prints the farewell and stops; `help` prints the table of
      the catalog's commands; `set_folder` selects a discovered folder or
      prints the not-found message; anything else is dispatched, stripped,
      over the catalog, and may read menu answers from `rest`. Only an
      accepted `set_folder` changes the selected folder. */
  function Step(selected: Option<string>, folders: seq<string>, cat: Catalog, reg: Registry, raw: string, rest: seq<string>): (r: StepResult)
    ensures r.used <= |rest|
    ensures r.stop && r.error.None? <==> Classify(raw).Quit?
    ensures r.error.Some? ==> r.stop
    ensures !Classify(raw).SetFolder? ==> r.selected == selected
    ensures Classify(raw).SetFolder? ==>
      var c := Classify(raw).candidate;
      && (c in folders ==> r.selected == Some(c) && r.printed == [FolderSetMessage(c)])
      && (c !in folders ==> r.selected == selected && r.printed == [FolderNotFoundMessage(c, folders)])
      && !r.stop && r.used == 0
    ensures Classify(raw).Help? ==>
      r.printed == PrintHelp(HelpEntries(cat)).lines && r.error == PrintHelp(HelpEntries(cat)).error && r.used == 0
    ensures Classify(raw).Forward? ==>
      var d := Execute(Strip(raw), cat, selected, reg, rest);
      r.printed == d.printed && r.used == d.used && r.error == d.error
    ensures Classify(raw).Quit? ==> r.printed == [ExitMessage] && r.used == 0
  {
    match Classify(raw)
    case Quit => StepResult(selected, [ExitMessage], 0, true, None)
    case Help =>
      var p := PrintHelp(HelpEntries(cat));
      StepResult(selected, p.lines, 0, p.error.Some?, p.error)
    case SetFolder(c) =>
      if c in folders then StepResult(Some(c), [FolderSetMessage(c)], 0, false, None)
      else StepResult(selected, [FolderNotFoundMessage(c, folders)], 0, false, None)
    case Forward(line) =>
      var d := Execute(line, cat, selected, reg, rest);
      StepResult(selected, d.printed, d.used, d.error.Some?, d.error)
  }

  /** The loop as written: `print_help(commands, selected_folder)` passes two
      arguments to a one-argument function, and dispatch goes through the
      as-written `execute_user_input`; the other branches are unchanged. */
  function StepAsWritten(selected: Option<string>, folders: seq<string>, cat: Catalog, reg: Registry, raw: string, rest: seq<string>): (r: StepResult)
    ensures Classify(raw).Help? ==> r.printed == [] && r.error == Some(TypeError) && r.stop
    ensures Classify(raw).Forward? ==> r.printed == [] && r.error.Some? && r.stop
    ensures Classify(raw).Quit? || Classify(raw).SetFolder? ==> r == Step(selected, folders, cat, reg, raw, rest)
  {
    match Classify(raw)
    case Help => StepResult(selected, [], 0, true, Some(TypeError))
    case Forward(line) =>
      var d := ExecuteAsWritten(line, cat, selected, reg, rest);
      StepResult(selected, d.printed, d.used, true, d.error)
    case _ => Step(selected, folders, cat, reg, raw, rest)
  }

  /** The line `help` on a catalog `load_commands` built: as written it
      raises `TypeError` before printing anything, while the corrected step
      prints the full table and goes on. */
  lemma HelpLineAsWrittenVersusStep(selected: Option<string>, folders: seq<string>, cat: Catalog, reg: Registry, rest: seq<string>)
    requires CatalogFits(cat)
    ensures StepAsWritten(selected, folders, cat, reg, "help", rest).error == Some(TypeError)
    ensures Step(selected, folders, cat, reg, "help", rest).error == None
    ensures !Step(selected, folders, cat, reg, "help", rest).stop
    ensures |Step(selected, folders, cat, reg, "help", rest).printed| == |HelpEntries(cat)| + 4
  {
    HelpIsHelp();
    HelpFitsCatalog(cat);
  }

  lemma HelpIsHelp()
    ensures Classify("help").Help?
  {
    KeywordIsItself("help");
  }

  /** A lower-case keyword typed as it is reaches its branch. */
  lemma KeywordIsItself(k: string)
    requires |k| > 0 && forall i :: 0 <= i < |k| ==> 'a' <= k[i] <= 'z'
    ensures Lower(Strip(k)) == k
  {
    StrippedIsItself(k);
    LowerOfLowerCase(k);
  }

  lemma StrippedIsItself(k: string)
    requires |k| > 0 && forall i :: 0 <= i < |k| ==> 'a' <= k[i] <= 'z'
    ensures Strip(k) == k
  {
    assert !IsSpace(k[0]) && !IsSpace(k[|k| - 1]);
    assert [] + k + [] == k;
    StripUnique([], k, []);
  }

  lemma LowerOfLowerCase(k: string)
    requires forall i :: 0 <= i < |k| ==> 'a' <= k[i] <= 'z'
    ensures Lower(k) == k
  {
    forall i | 0 <= i < |k| ensures Lower(k)[i] == k[i] {
      assert LowerChar(k[i]) == k[i];
    }
  }

  // ---------------------------------------------------------------------
  // The loop

  /** The whole run of the loop over the input lines `input`. */
  datatype Outcome = Outcome(printed: seq<string>, selected: Option<string>, error: Option<Error>)

  /** The loop from state `selected` over `input`. It ends at an `exit`
      line, at the first exception, or with `EOFError` when the lines run
      out. The selected folder is only ever the starting one or a
      discovered folder. */
  function Session(selected: Option<string>, folders: seq<string>, cat: Catalog, reg: Registry, input: seq<string>): (r: Outcome)
    ensures r.selected == selected || (r.selected.Some? && r.selected.value in folders)
    ensures r.error.None? ==> exists i :: 0 <= i < |input| && Classify(input[i]).Quit?
    ensures input == [] ==> r == Outcome([], selected, Some(EOFError))
    decreases |input|
  {
    if input == [] then Outcome([], selected, Some(EOFError))
    else
      var s := Step(selected, folders, cat, reg, input[0], input[1..]);
      if s.stop then
        Outcome(s.printed, s.selected, s.error)
      else
        var next := Session(s.selected, folders, cat, reg, input[1 + s.used..]);
        QuitLater(input, 1 + s.used);
        Outcome(s.printed + next.printed, next.selected, next.error)
  }

  /** An `exit` line in a suffix of the input is one in the input. */
  lemma QuitLater(input: seq<string>, k: nat)
    requires k <= |input|
    ensures (exists i :: 0 <= i < |input[k..]| && Classify(input[k..][i]).Quit?) ==>
      exists i :: 0 <= i < |input| && Classify(input[i]).Quit?
  {
    if exists i :: 0 <= i < |input[k..]| && Classify(input[k..][i]).Quit? {
      var i :| 0 <= i < |input[k..]| && Classify(input[k..][i]).Quit?;
      assert input[k..][i] == input[k + i];
    }
  }

  /** An `exit` line ends the loop at once: nothing after it is read. */
  lemma ExitStopsSession(selected: Option<string>, folders: seq<string>, cat: Catalog, reg: Registry, raw: string, later: seq<string>)
    requires Classify(raw).Quit?
    ensures Session(selected, folders, cat, reg, [raw] + later) == Outcome([ExitMessage], selected, None)
  {
    assert ([raw] + later)[0] == raw;
  }

  /** `main()`: discovery from the working directory with the default
      ignore list, one `load_commands` with the default ignored subfolders,
      then the loop from no selected folder. A too-long command name ends the
      program before any line is read. The catalog is never rebuilt. The
      call to the undefined `print_current_folder` is left out, together
      with its import. */
  function Main(t: Tree, reg: Registry, input: seq<string>): (r: Outcome)
    ensures var folders := Discover(t, [], DefaultIgnoredFolders);
      r.selected.None? || r.selected.value in folders
    ensures var folders := Discover(t, [], DefaultIgnoredFolders);
      LoadCommands(t, folders, DefaultIgnoredSubfolders).Err? ==>
        r == Outcome([], None, Some(LoadCommands(t, folders, DefaultIgnoredSubfolders).error))
    ensures var folders := Discover(t, [], DefaultIgnoredFolders);
      LoadCommands(t, folders, DefaultIgnoredSubfolders).Ok? ==>
        r == Session(None, folders, LoadCommands(t, folders, DefaultIgnoredSubfolders).value, reg, input)
  {
    var folders := Discover(t, [], DefaultIgnoredFolders);
    match LoadCommands(t, folders, DefaultIgnoredSubfolders)
    case Err(e) => Outcome([], None, Some(e))
    case Ok(cat) => Session(None, folders, cat, reg, input)
  }

  /** The top-level names `cli_helpers.py` defines. */
  const HelperNames: set<string> := {"generate_spaces", "print_help"}

  /** The names `app.py` imports from `cli_app.cli_helpers`. */
  const AppHelperImports: seq<string> := ["print_current_folder", "print_help"]

  /** `from m import a, b, ...`: `ImportError` as soon as one name is not
      defined by the module. */
  function ImportNames(defined: set<string>, wanted: seq<string>): (r: Option<Error>)
    ensures r.None? <==> forall i :: 0 <= i < |wanted| ==> wanted[i] in defined
    ensures r.Some? ==> r == Some(ImportError)
  {
    if forall i :: 0 <= i < |wanted| ==> wanted[i] in defined then None else Some(ImportError)
  }

  /** The program as written: loading `app.py` performs its imports first,
      and one of the names it asks `cli_helpers.py` for is not defined there,
      so the program fails before `main` runs. */
  function MainAsWritten(t: Tree, reg: Registry, input: seq<string>): (r: Outcome)
    ensures r.printed == [] && r.error == Some(ImportError)
  {
    assert AppHelperImports[0] !in HelperNames;
    match ImportNames(HelperNames, AppHelperImports)
    case Some(e) => Outcome([], None, Some(e))
    case None => Main(t, reg, input)
  }

  /** On any file tree whose commands all fit, the program as written fails
      to start, while the corrected one reaches the loop and, given an
      `exit` line, ends normally. */
  lemma StartAsWrittenVersusMain(t: Tree, reg: Registry, later: seq<string>)
    requires LoadCommands(t, Discover(t, [], DefaultIgnoredFolders), DefaultIgnoredSubfolders).Ok?
    ensures MainAsWritten(t, reg, ["exit"] + later).error == Some(ImportError)
    ensures Main(t, reg, ["exit"] + later) == Outcome([ExitMessage], None, None)
  {
    var folders := Discover(t, [], DefaultIgnoredFolders);
    var cat := LoadCommands(t, folders, DefaultIgnoredSubfolders).value;
    ExitIsQuit();
    ExitStopsSession(None, folders, cat, reg, "exit", later);
  }

  lemma ExitIsQuit()
    ensures Classify("exit").Quit?
  {
    KeywordIsItself("exit");
  }
}
