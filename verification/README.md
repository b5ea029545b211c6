# A verified model of the Simple CLI App core

This project models, in Dafny, the command-registry pipeline of the Simple
CLI App and its string validators:

- **Folder discovery and catalog building** (`src/cli_app/command_loader.py`).
  Discovery finds every directory under the root that has an `__init__.py`
  and whose lower-cased name is not in the ignore list, keyed by its base
  name. Loading looks each key up as a directory directly below the working
  directory and turns each `.py` file below it into a command named after
  its stem. Loading fails as a whole on a name longer than `MAX` (20). A
  description manifest is merged into the catalog when it exists and is
  valid JSON.
- **Dispatch** (`src/cli_app/command_runner.py`). The input line is split
  on whitespace. The runner finds the folders that hold the command, in
  catalog order. One match runs at once. Several matches go through a
  1-indexed menu that asks again until the answer is valid. No match prints
  the unknown-command message.
- **The loop** (`src/cli_app/app.py`). Each line is stripped and routed to
  `exit`, `help`, `set_folder` or dispatch. The only state is the selected
  folder.
- **The help table** (`src/cli_app/cli_helpers.py`). A padding function and
  the fixed-width column rule.
- **Validators** (`src/shared/validator/validator.py`,
  `src/shared/validator/validator_enum.py`). Length, character-class,
  word-count and membership checks. Each returns the stripped value or
  raises `ValueError`; the membership checks return the value unchanged.

Everything is a pure function. The outside world is passed in as values:

- The file system is the sequence of entries a recursive glob yields, each a
  path and a directory flag.
- The manifest read is a `ManifestRead`: not found, not valid JSON, another
  exception raised while opening or decoding it, or the parsed manifest.
- `importlib` is a registry from a dotted module name to whether that
  module defines `run`.
- Input is one sequence of lines. The loop and the folder menu both read
  from it, and running out of lines is `EOFError`.
- Printed lines are returned as values.

Raised exceptions become `Err` values or an `error` field.

Python's string primitives are modelled in `text.dfy`: `isspace` (CPython's
whitespace table), `lower`, `strip()`, `split()`, `split(maxsplit=1)`,
`join`, `int()` and `str()`. Python dicts keep insertion order, so they are
modelled in `dicts.dfy` as a map plus the list of keys in insertion order.

The model keeps these behaviours of the code:

- Quotes on the input line are ordinary characters, because the line is cut
  with `split()`.
- An ignored subfolder such as `lib/` is skipped only as an entry. The
  command files beneath it are still registered.
- An empty input line raises `IndexError` in `parse_input`.
- A discovered folder key is looked up as a single component below the
  working directory, so a package nested below another directory is
  discovered under its base name but its commands are not loaded.
- Only a missing manifest and malformed JSON give an empty catalog. Any
  other exception from reading the manifest, such as `PermissionError`,
  `IsADirectoryError` or `UnicodeDecodeError`, propagates.
- `int()` skips whitespace around a number, but not the information
  separators `\x1c`-`\x1f`, which `strip()` and `split()` do treat as
  whitespace.

`cli_app/config.py` is not part of this model. `MAX` is the documented bound
of 20 characters on a command name.

Files: `results.dfy` (errors, `Result`, `Option`), `config.dfy`,
`text.dfy`, `dicts.dfy`, `command_loader.dfy`, `command_runner.dfy`,
`cli_helpers.dfy`, `app.dfy`, `validator.dfy`, `validator_enum.dfy`.

## Model

| member | source | states |
|---|---|---|
| Text.Strip | src/cli_app/app.py:23 | `strip()` returns a stripped slice of its argument, and the cut-off borders are all whitespace |
| Text.StripsToIffStrip | src/shared/validator/validator.py:17 | A string is the strip of `s` if and only if it is stripped and sits in `s` between two all-whitespace borders |
| Text.StripIdempotent | src/shared/validator/validator.py:87 | Stripping a stripped value changes nothing |
| Text.StripUnique | src/shared/validator/validator.py:17 | Stripping `a + m + b`, with `a` and `b` whitespace and `m` stripped, gives `m` |
| Text.WordsEmptyIffAllSpace | src/cli_app/command_runner.py:21-22 | `split()` returns no words if and only if the string is all whitespace |
| Text.WordsOfStrip | src/cli_app/app.py:23 | Splitting the stripped line gives the same words as splitting the raw line |
| Text.Split | src/cli_app/command_runner.py:21 | An imperative scan produces exactly the words `split()` defines |
| Text.WordsOfJoin | src/cli_app/command_runner.py:21 | Joining whitespace-free words with one space and splitting again gives the words back |
| Text.JoinListsInOrder | src/shared/validator/validator_enum.py:16 | `sep.join(ws)` holds every item at its offset, in list order. A separator follows every item but the last, and the last item ends the string |
| Text.SplitOnce | src/cli_app/app.py:35 | `split(maxsplit=1)` gives at most two parts. The first part is the first word. The second part is the suffix of the string that starts at a word right after whitespace, and it holds exactly the remaining words |
| Text.SplitOnceRestUnique | src/cli_app/app.py:35 | Only one suffix starts at a word after whitespace and holds all words but the first, so the second part of `split(maxsplit=1)` is exactly the rest of the string from its second word |
| Text.ParseInt | src/cli_app/command_runner.py:54 | `int()` never reads a number from a string that starts with an information separator, and every number it reads has a digit in the string |
| Text.ParseIntOfStrip | src/cli_app/command_runner.py:54 | On a string without information separators, `int()` ignores surrounding whitespace: parsing the string is parsing the literal left after stripping it |
| Text.SeparatorBlocksParseInt | src/cli_app/command_runner.py:54 | A number behind an information separator strips to the number, but `int()` rejects it |
| Text.ParseIntOfNat | src/cli_app/command_runner.py:51-54 | `int()` reads back every number `str()` prints |
| CommandLoader.Walk | src/cli_app/command_loader.py:57 | The recursive glob under a folder yields exactly the entries below it |
| CommandLoader.PySuffixSplitsName | src/cli_app/command_loader.py:61-62 | A name whose suffix is `.py` is its nonempty stem followed by `.py` |
| CommandLoader.StemOfPyName | src/cli_app/command_loader.py:61-62 | Any nonempty stem plus `.py` has suffix `.py` and gives that stem back |
| CommandLoader.IgnoreSet | src/cli_app/command_loader.py:21 | The ignore set holds exactly the lower-cased names of the ignore list |
| CommandLoader.Discover | src/cli_app/command_loader.py:11-36 | A root that is not a directory gives no folders and no failure. Otherwise a name is a key if and only if some directory below the root has that base name, a lower-cased name outside the ignore set and an `__init__.py`. Keys are distinct, so two such directories with the same name give one key |
| CommandLoader.CommandNames | src/cli_app/command_loader.py:57-62 | The command names are exactly the stems of the non-marker `.py` entries |
| CommandLoader.Register | src/cli_app/command_loader.py:62-69 | Registration succeeds if and only if every name fits in `MAX`. On success it registers exactly those names, each with its placeholder description. On failure the error names the first name that is too long |
| CommandLoader.CollectCommands | src/cli_app/command_loader.py:56-69 | A folder's commands are exactly the stems of its command files. The folder fails if and only if one of them is too long |
| CommandLoader.LoadCommands | src/cli_app/command_loader.py:38-73 | Loading succeeds if and only if every existing listed folder's names fit. Its keys are exactly the listed folders that are directories, kept in the order of the list, so a missing folder is skipped without failing. Every command name has length at most `MAX` |
| CommandLoader.LoadedKeysAreExistingFolders | src/cli_app/command_loader.py:48-52 | For the distinct keys of a dict, the catalog's keys are exactly the listed folders that exist as directories, in the order of the list |
| CommandLoader.LoadedCommandsAreStems | src/cli_app/command_loader.py:57-69 | Every loaded command is the stem of some command file below its folder, at any depth. It carries the placeholder description and fits in `MAX` |
| CommandLoader.CommandFilesAreLoaded | src/cli_app/command_loader.py:57-71 | Every command file below a loaded folder is registered under its stem |
| CommandLoader.IgnoredSubfolderNotPruned | src/cli_app/command_loader.py:57-61 | A `.py` file inside an ignored subfolder such as `lib/` is still registered |
| CommandLoader.NestedPackageNotLoaded | src/cli_app/command_loader.py:23-52 | A package at `a/b` is discovered under the key `b`, but loading looks for `b` below the working directory, so unless that exists the key is not in the catalog |
| CommandLoader.DescribeFolder | src/cli_app/command_loader.py:90-97 | A folder keeps its command names in order. Each description is the manifest's, or "Module not found" when the manifest has none |
| CommandLoader.GenerateCommandDescriptions | src/cli_app/command_loader.py:75-99 | A missing manifest or malformed JSON gives an empty catalog, never a partial one. Any other exception raised while reading the manifest propagates unchanged. Otherwise the folders and command names are the input's, in the same order, and each description comes from the manifest or is the sentinel |
| CommandLoader.DescriptionsIgnoreUnknownEntries | src/cli_app/command_loader.py:89-97 | Manifest entries for folders or commands outside the catalog make no difference to the result |
| CommandLoader.DescriptionsIdempotent | src/cli_app/command_loader.py:79-97 | Merging the same manifest a second time, after a first merge that did not raise, changes nothing |
| CommandRunner.ParseInput | src/cli_app/command_runner.py:20-24 | A blank line raises `IndexError`. Otherwise the command followed by its arguments is exactly the line's whitespace-separated words |
| CommandRunner.ParseInputOfJoin | src/cli_app/command_runner.py:20-24 | A command and arguments joined with spaces parse back to themselves |
| CommandRunner.ParseInputOfStrip | src/cli_app/command_runner.py:20-24 | Parsing the stripped line is parsing the raw line |
| CommandRunner.QuotedArgumentIsSplit | src/cli_app/command_runner.py:21 | `echo "a b"` has the two arguments `"a` and `b"`, because quotes are not honoured |
| CommandRunner.FoldersWith | src/cli_app/command_runner.py:27-31 | The folders kept are exactly those holding the name, in the order given, each once |
| CommandRunner.Matches | src/cli_app/command_runner.py:26-31 | The matches are exactly the catalog folders holding the name, in catalog order, each once |
| CommandRunner.FindCommandInFolders | src/cli_app/command_runner.py:26-31 | The loop builds exactly the matches |
| CommandRunner.PickFirst | src/cli_app/command_runner.py:52-58 | The menu picks the option named by the first in-range answer, and every earlier answer was out of range. With no in-range answer it picks nothing |
| CommandRunner.Menu | src/cli_app/command_runner.py:48-60 | The first answer that `int()` reads as some `k` in `1..n` selects `options[k-1]`. Every earlier answer was not a number or out of range. The chosen folder is one of the options |
| CommandRunner.MenuAcceptsPrintedLabel | src/cli_app/command_runner.py:50-56 | Typing the number printed next to an option selects that option at once |
| CommandRunner.MenuRejectsSeparatedLabel | src/cli_app/command_runner.py:54-60 | A printed label behind an information separator is not a valid answer, and the menu answers it with "Invalid input. Please enter a number." |
| CommandRunner.MenuLines | src/cli_app/command_runner.py:49-51 | The menu prints its heading, then `i. option` for each option, numbered from 1 |
| CommandRunner.RetryLines | src/cli_app/command_runner.py:57-60 | Each rejected answer prints one retry message |
| CommandRunner.RunCommand | src/cli_app/command_runner.py:33-46 | `run(args)` is called if and only if the module exists and defines `run`, and then nothing is printed. A missing module prints "not found". A module without `run` prints "does not have a 'run' function" |
| CommandRunner.Execute | src/cli_app/command_runner.py:4-18 | Zero, one or several matches lead to the unknown message, an automatic run, or the menu followed by a run. Any `run` called is in a folder that holds the command |
| CommandRunner.SelectedFolderIgnored | src/cli_app/command_runner.py:4-5 | The selected folder passed in plays no part in dispatch: any two values give the same outcome |
| CommandRunner.ExecuteAsWritten | src/cli_app/command_runner.py:6-8 | As written, every line either fails to parse or raises `TypeError` at the lookup. Nothing is printed and nothing is run |
| CommandRunner.StatusLineAsWrittenVersusExecute | src/cli_app/command_runner.py:8 | On a one-folder catalog, `status` raises `TypeError` as written, while the corrected dispatch selects the folder and runs the command |
| CliHelpers.GenerateSpaces | src/cli_app/cli_helpers.py:3-15 | A negative count raises `ValueError`. Otherwise the result is exactly `count` spaces |
| CliHelpers.Row | src/cli_app/cli_helpers.py:22 | A row fails if and only if the name is longer than `MAX`. Otherwise the row follows the column layout |
| CliHelpers.RowLayoutUnique | src/cli_app/cli_helpers.py:22 | The column layout determines the row: a line laid out for an entry is that entry's row |
| CliHelpers.RowFieldsRecoverable | src/cli_app/cli_helpers.py:22 | The name and the description can be read back out of a row |
| CliHelpers.Rows | src/cli_app/cli_helpers.py:21-22 | Rows are printed in order until the first name that does not fit |
| CliHelpers.PrintHelp | src/cli_app/cli_helpers.py:17-24 | The table prints the title and the heading, then one row per command in order, then the `help` and `exit` rows. A name that does not fit raises `ValueError` at its own row |
| CliHelpers.FixedRows | src/cli_app/cli_helpers.py:23-24 | The closing `help` and `exit` rows follow the column layout |
| CliHelpers.HelpSeparatorColumn | src/cli_app/cli_helpers.py:20-24 | Every row of a complete table has its `- ` at the same column |
| App.Classify | src/cli_app/app.py:23-49 | The line is stripped and its lower-cased form decides, in order, between `exit`, `help`, the `set_folder` prefix and dispatch. The folder candidate is nonempty and stripped. It is the only word, or the suffix of the stripped line from its second word on, inner whitespace kept |
| App.FolderCandidate | src/cli_app/app.py:35 | The last part of `split(maxsplit=1)` is the lone word, or the suffix of the line from its second word on, which holds exactly the remaining words |
| App.ReprItems | src/cli_app/app.py:45 | The folder dict prints one `'name': {}` item per discovered folder, in discovery order |
| App.FoldersReprListsFolders | src/cli_app/app.py:45 | The not-found message lists every discovered folder, quoted, at its place in the comma-separated list inside the braces |
| App.HelpEntries | src/cli_app/app.py:32 | The help records are exactly the catalog's commands with their descriptions |
| App.HelpFitsCatalog | src/cli_app/app.py:19 | On a catalog that loaded, the help table completes with one row per command plus four lines |
| App.Step | src/cli_app/app.py:23-49 | `exit` prints the farewell and stops. `help` prints the table. `set_folder` selects a discovered folder or prints not-found. Anything else is dispatched. Only an accepted `set_folder` changes the selected folder |
| App.StepAsWritten | src/cli_app/app.py:32 | As written, `help` raises `TypeError` before printing anything |
| App.HelpLineAsWrittenVersusStep | src/cli_app/app.py:32 | On a loaded catalog, `help` raises as written, while the corrected step prints the full table and goes on |
| App.Session | src/cli_app/app.py:21-49 | The selected folder is only ever the initial one or a discovered folder. A normal end needs an `exit` line. Running out of lines is `EOFError` |
| App.ExitStopsSession | src/cli_app/app.py:26-28 | An `exit` line ends the loop at once, and nothing after it is read |
| App.Main | src/cli_app/app.py:10-49 | Discovery, then one load, then the loop from no selection. A load failure ends the program before any line is read |
| App.ImportNames | src/cli_app/app.py:2 | `from m import ...` fails with `ImportError` if and only if one of the names is not defined by `m` |
| App.MainAsWritten | src/cli_app/app.py:2 | As written, one of the names imported from `cli_helpers.py` is not among those it defines, so the program fails with `ImportError` before `main` runs and prints nothing |
| App.StartAsWrittenVersusMain | src/cli_app/app.py:2 | As written the program cannot start, while the corrected one reaches the loop and ends normally on `exit` |
| Validator.ValidateLength | src/shared/validator/validator.py:5-17 | Fails if and only if the raw length is outside `[min_len, max_len]`, with the bounds in the message. Otherwise returns the strip of the value |
| Validator.ValidateFormat | src/shared/validator/validator.py:20-30 | Fails if and only if some character is `\n`, `\t`, `\r`, or not alphanumeric, whitespace, `-` or `_`. Otherwise returns the stripped value |
| Validator.FormatIdempotent | src/shared/validator/validator.py:28-30 | Checking the format of a value the format check returned gives it back unchanged |
| Validator.ValidateWordCount | src/shared/validator/validator.py:33-44 | Fails if and only if the value has fewer than `min_words` words. Otherwise returns the stripped value, which keeps the words |
| Validator.ValidateEnum | src/shared/validator/validator.py:47-58 | Succeeds if and only if the value is present and among the allowed values, and returns it unchanged. Otherwise the message joins the allowed values |
| Validator.ValidateName | src/shared/validator/validator.py:61-72 | Succeeds if and only if the raw length fits, the stripped name's characters are allowed, and there is a word. The first failing check decides the message. The result is the stripped name |
| Validator.ValidateDescription | src/shared/validator/validator.py:75-87 | The maximum length is always 50, so a longer description is rejected whatever `min_len` is. Otherwise format and `min_words` decide. The result is the stripped description |
| Validator.ShortDescriptionRejected | src/shared/validator/validator.py:75-84 | With the default `min_len` of 10, a description shorter than 10 characters fails the length check, with the message for 10 to 50 |
| Validator.WhitespaceNameRejected | src/shared/validator/validator.py:70-72 | A name of whitespace only is rejected |
| Validator.PaddedNameAccepted | src/shared/validator/validator.py:70-72 | A well-formed name surrounded by whitespace is accepted without the whitespace |
| Validator.SymbolNameRejected | src/shared/validator/validator.py:71 | `Invalid@Name` is rejected for its format |
| ValidatorEnum.ValidateByList | src/shared/validator/validator_enum.py:6-17 | Succeeds if and only if the value is in the list, and returns it unchanged. The message lists the allowed values |
| ValidatorEnum.EnumAgreesWithByList | src/shared/validator/validator.py:47-58 | On a present value, `validate_enum` and `validate_enum_by_list` give the same result, message included |
| ValidatorEnum.MemberValues | src/shared/validator/validator_enum.py:29 | The member values are exactly the declared values, each once, listed in the order of their first declaration |
| ValidatorEnum.ValidateByClass | src/shared/validator/validator_enum.py:20-32 | Succeeds if and only if the value is one of the declared values, and returns it unchanged. The message lists the member values |
| ValidatorEnum.ByClassWithoutAliases | src/shared/validator/validator_enum.py:29-32 | Without aliases, the member values are the declared values in declaration order, and checking against the class is checking against that list |
| ValidatorEnum.AliasAcceptsNothingNew | src/shared/validator/validator_enum.py:29 | Declaring a value a second time changes neither the member values nor what is accepted |
| ValidatorEnum.PaddedValueRejected | src/shared/validator/validator_enum.py:15 | Surrounding whitespace is not forgiven |
| ValidatorEnum.UpperCaseValueRejected | src/shared/validator/validator_enum.py:15 | Case is not folded |

## Left out

- Logging, `print` formatting beyond the returned lines, and the `input()` prompts. The prompt text is not part of the printed lines.
- `Path.rglob` order. The entry sequence is an input. With two command files of the same stem under one folder, the model keeps the name once, and which file "wins" is not modelled.
- The `isinstance(folders, dict)` check and its `TypeError` (`command_loader.py:43-44`). The model's types make it impossible to violate.
- Paths are component sequences. A folder key containing `/`, and `str(folder_path)` normalisation, are not modelled.
- `json.load` and the manifest's shape. A manifest whose entries are not dicts, which would raise `AttributeError` in `.get`, is not modelled.
- `importlib.util.find_spec` raising for a missing parent package, and the effects of running a command.
- Unicode `str.isalnum`, `str.lower` and `str.isdigit`. These are modelled on ASCII letters and digits, so `int()` does not accept non-ASCII digits here. `str.isspace`, `strip` and `split` use CPython's full whitespace table. `int()` uses the same table without `\x1c`-`\x1f`.
- The `repr` of folder names that contain quotes, backslashes or unprintable characters in the set_folder not-found message.
- Enum values that are not strings. Joining them would raise `TypeError`.
- Keyboard interrupts and other exceptions from `input()`.
- Text.ParseInt: the limit of 4300 digits that Python 3.11 and later put on `int()` of a decimal string is not modelled. Such an answer to the folder menu gets "Invalid input. Please enter a number." from the code, but "Invalid choice. Try again." here. `str()` refuses numbers that long too, so no printed menu label is affected.
- Text.ParseIntOfStrip: stated only for strings without the information separators `\x1c`-`\x1f`. `strip()` removes them but `int()` does not skip them, so the equation fails there. Text.SeparatorBlocksParseInt states that case.
- Exceptions raised inside a command's `run`. Every `run` is taken to return normally. In the code such an exception is not caught and ends `main`.

## Findings

| source | as written | input that shows it | evidently intended | confidence | as-written member | corrected member |
|---|---|---|---|---|---|---|
| src/cli_app/command_runner.py:8 | `find_command_in_folders(command)` is called with one argument, but the function takes `(folders, command_name)` | the line `status` with a catalog holding `infra/status` | look the command up in the catalog passed in: `find_command_in_folders(folders, command)` | not executed | CommandRunner.ExecuteAsWritten, CommandRunner.StatusLineAsWrittenVersusExecute | CommandRunner.Execute |
| src/cli_app/app.py:32 | `print_help(commands, selected_folder)` passes two arguments to the one-argument `print_help`. Its argument is also the nested catalog rather than `{'name','description'}` records | the line `help` | print the table of the catalog's commands: `print_help(records built from commands)` | not executed | App.StepAsWritten, App.HelpLineAsWrittenVersusStep | App.Step, App.HelpEntries |
| src/cli_app/app.py:2 | `from cli_app.cli_helpers import print_current_folder`, but `cli_helpers.py` defines only `generate_spaces` and `print_help` | starting the program on any file tree | import only what `cli_helpers.py` provides and drop the `print_current_folder()` call at line 13, so the program reaches its loop | not executed | App.MainAsWritten, App.StartAsWrittenVersusMain | App.Main |
