# QConsole command console, modelled in Dafny

QConsole is a REPL object for Qt applications. It keeps a registry of named
commands in a prefix trie (`tsl::htrie_map`). A host timer drives it: on
each tick it reads one line through the replxx line editor and dispatches it.
It also installs three callbacks in the editor (hint, completion and
highlight), and it keeps some session state: the current and default
prompt, the history file path, the terminal echo flag, and a running flag.

This project models that core and proves properties of it:

- `wrappers.dfy` holds `Option`.
- `text.dfy` (module `Text`) models the Qt and `std::string` operations
  used on a submitted line: `trimmed()`, `split(' ')` which keeps empty
  parts, `find(" ")`, and `QTextStream >> QByteArray`, which `readLine`
  uses. Each one is proved against an independent characterisation or an
  inverse.
- `ansi.dfy` (module `Ansi`) models the `Color` and `Style` enums and
  `colorize`, with a decoder and a round trip both ways.
- `registry.dfy` (module `Registry`) models the `Context` and `Command`
  records and the registry as `map<string, Command>`. The callback becomes
  an opaque `CallbackId`. It covers `insert`/`erase`, the exact lookup
  `findCommandByName` (longest prefix plus a length check), the prefix
  range, and sequences of additions and removals. These are checked against
  a reference definition of which names are present.
- `dispatch.dfy` (module `Dispatch`) models `evaluateLine` and
  `invokeCommandByName` as functions on a `Trace`. A `Trace` is the history,
  the list of callback invocations with their argument tokens, and the text
  written to the output stream.
- `editor.dfy` (module `LineEditor`) models the hint callback and the
  highlighter's span as functions of the registry and the input, and
  compares that span with what dispatch runs and with the editor's colour
  buffer.
- `console.dfy` (module `Console`) has the class `QConsole`, whose fields
  are the ones the source updates in place. `AddCommand`,
  `RemoveCommandByName`, `AddDefaultCommands`, `InvokeCommandByName`,
  `EvaluateLine`, `TimerEvent` and `Highlight` are proved against the
  functions of Registry, Dispatch and LineEditor. The other methods (start
  and stop, prompts, echo, `readLine`/`readPass`, the destructor's echo
  restore, the completion loop) state their new state directly. Three client
  methods replay the prompt and non-ASCII tests of the unit test file and
  the start/stop guards.

A Dafny character is a Unicode scalar value, so a key or a line here is a
sequence of code points, while the original's `std::string` holds UTF-8
bytes. Comparing keys is exact equality of those sequences; as UTF-8 encodes
distinct strings as distinct bytes, this agrees with comparing the bytes. Where the count of
positions matters (the highlighter's span against the editor's colour
buffer), `LineEditor.Utf8Length` gives the byte count.

Some behaviour of the code that a reader might not expect:

- `addCommand` calls `htrie_map::insert`. Like `std::map::insert`, that
  leaves an existing record in place. So re-adding a stored name keeps the
  first record (`Registry.InsertExisting`); the last write does not win.
- The hint callback tests replxx's `input_length`, which is the length of
  the word being typed, not the length of the whole input. `LineEditor.Hint`
  takes it as the parameter `contextLen`.
- The order in which an `htrie_map` iterates is not modelled, so the prefix
  range is a set: the hint is some member of it, and completion lists each
  member once.
- `readLine` reads with `QTextStream >> QByteArray`, which skips leading
  whitespace and stops at the next whitespace. It therefore returns one
  word, although its comment in src/qconsole.h:140 says it reads a line;
  `readPass` inherits this, so a password with a space in it is cut short
  (`Text.ReadWordStopsAtSpace`). The model follows the code.

## Model

| member | source | states |
|---|---|---|
| `Ansi.Color.Code` | src/qconsole.h:36-46 | every colour code is one of 0..7 |
| `Ansi.Style.Code` | src/qconsole.h:49-53 | every style code is 0 or 1 |
| `Ansi.ColorOfCode` | src/qconsole.h:36-46 | exactly the integers 0..7 name a colour, and the colour named has that code |
| `Ansi.StyleOfCode` | src/qconsole.h:49-53 | exactly 0 and 1 name a style, and the style named has that code |
| `Ansi.Digit` | src/qconsole.h:80 | a code below 10 is printed as the one decimal digit with that value |
| `Ansi.Colorize` | src/qconsole.h:77-81 | the result is the text plus 11 escape characters, with the text at positions 7 to length-4; the style defaults to Bold |
| `Ansi.UncolorizeColorize` | src/qconsole.h:78-81 | a colorized string reads back as exactly the text, colour and style it was made from |
| `Ansi.ColorizeUncolorize` | src/qconsole.h:78-81 | every string that reads back is the colorized form of what it reads as, so colorize is a bijection onto its image |
| `Ansi.ColorizeExamples` | tests/test-qconsole.cc:69-74 | the three escape sequences of the unit test, and Bold as the default style |
| `Text.Trimmed` | src/qconsole.cc:181 | the result has no whitespace at either end and is no longer than the line |
| `Text.TrimmedIsInfix` | src/qconsole.cc:181 | the result is the infix of the line that starts after its leading whitespace, with only whitespace before and after it |
| `Text.TrimmedUnique` | src/qconsole.cc:181 | whitespace, then a core with no whitespace at its ends, then whitespace, trims to exactly that core |
| `Text.TrimmedEmptyIffBlank` | src/qconsole.cc:181-185 | a line trims to empty if and only if it is all whitespace |
| `Text.TrimmedIdempotent` | src/qconsole.cc:181 | trimming twice equals trimming once |
| `Text.Split` | src/qconsole.cc:187 | split gives at least one token and no token contains a space |
| `Text.JoinSplit` | src/qconsole.cc:187 | joining the tokens with single spaces gives back the line, so nothing is lost or collapsed |
| `Text.SplitJoin` | src/qconsole.cc:187 | splitting a single-space join of space-free tokens gives back those tokens |
| `Text.SplitKeepsEmptyParts` | src/qconsole.cc:187 | consecutive spaces give empty tokens: "cmd  a" splits into "cmd", "", "a" |
| `Text.IndexOf` | src/qconsole.cc:102 | find returns no index exactly when the character is absent; otherwise the first index holding it |
| `Text.FirstPartIsUpToSpace` | src/qconsole.cc:102-111 | the first split token is the text before the first space, or the whole text when it has no space |
| `Text.WordLength` | src/qconsole.cc:424 | the count is of the non-whitespace characters the text starts with: all of them, and it stops at whitespace or the end |
| `Text.ReadWord` | src/qconsole.cc:424 | the word read has no whitespace in it and is no longer than the input |
| `Text.ReadWordUnique` | src/qconsole.cc:424 | after whitespace, a non-empty word followed by whitespace or the end of input is exactly what is read |
| `Text.ReadWordOfBlank` | src/qconsole.cc:424 | whitespace-only input reads as the empty word |
| `Text.ReadWordStopsAtSpace` | src/qconsole.cc:424 | "secret words" reads as "secret": the read stops at the first space |
| `Registry.Insert` | src/qconsole.cc:326-329 | insertion keeps each record stored under its own name |
| `Registry.Erase` | src/qconsole.cc:331-334 | erasure keeps each record stored under its own name |
| `Registry.InsertEffect` | src/qconsole.cc:326-329 | adding a command adds its name to the stored names, keeps an existing record, leaves other names alone, and adds one to the count only for a new name |
| `Registry.EraseEffect` | src/qconsole.cc:331-334 | removal drops exactly that name, subtracts one from the count when it was stored, and changes nothing when it was absent |
| `Registry.InsertThenErase` | src/qconsole.cc:326-334 | adding a new name and then removing it restores the registry, and with it the count and every lookup |
| `Registry.InsertExisting` | src/qconsole.cc:328 | re-adding a stored name changes nothing, so the count does not grow |
| `Registry.LongestPrefixUpTo` | src/qconsole.cc:446 | the result is the longest stored key among the prefixes of the query up to the given length, or none when no such key exists |
| `Registry.LongestPrefix` | src/qconsole.cc:446 | the result is the longest stored key that is a prefix of the query, or none when no stored key is a prefix |
| `Registry.FindCommandByName` | src/qconsole.cc:444-453 | longest prefix plus the length check finds exactly the record stored under the query, and nothing when the query is not stored |
| `Registry.NoPartialMatch` | src/qconsole.cc:444-453 | a stored strict prefix of the query, or a stored extension of it, does not make the lookup succeed; that key is still found under its own name |
| `Registry.PrefixRangeInsert` | src/qconsole.cc:326-329 | adding a command adds its name to the range of every text the name starts with, and leaves every other range alone |
| `Registry.PrefixRangeErase` | src/qconsole.cc:331-334 | removing a name removes it from every range and changes nothing else in them |
| `Registry.PrefixRangeNarrows` | src/qconsole.cc:78-92 | a longer text has a smaller range; the empty text's range is every stored key; a stored key is in its own range |
| `Registry.PrefixScenario` | src/qconsole.cc:92 | with "a", "ab" and "abc" stored, the range of "ab" is {"ab", "abc"} and the exact lookup of "ab" returns the "ab" record |
| `Registry.ApplyKeys` | src/qconsole.cc:326-334 | after any sequence of additions and removals, a name is stored if and only if the last change touching it was an addition, or no change touched it and it was stored before |
| `Registry.CountAfterChanges` | src/qconsole.cc:256-259 | after any sequence of additions and removals, the command count equals the number of distinct names present under that reference definition |
| `Registry.AddAllCount` | tests/test-qconsole.cc:33-41 | adding commands with distinct new names adds their names and raises the count by their number |
| `Registry.RemoveAllEmpties` | tests/test-qconsole.cc:43-47 | removing every stored name leaves the registry empty |
| `Registry.PopulateThenClear` | tests/test-qconsole.cc:29-48 | N commands with distinct names give a count of N, and removing all their names gives 0 |
| `Dispatch.NotFoundMessage` | src/qconsole.cc:196-198 | the message is one line: it ends in a line break, and what comes before it reads back as "Command not found: <name>" in red, normal style |
| `Dispatch.Evaluate` | src/qconsole.cc:179-199 | a blank line changes nothing; any other line adds its trimmed form to the history; at most one invocation is appended; output only grows; and a line either calls a command or writes output, never both |
| `Dispatch.InvokeByName` | src/qconsole.cc:169-177 | reports found if and only if the name is stored; then it records exactly one call of that command's callback with the given context; history and output stay unchanged |
| `Dispatch.EvaluateBlank` | src/qconsole.cc:181-185 | a whitespace-only line leaves no history entry, no invocation and no output |
| `Dispatch.EvaluateRecordsHistory` | src/qconsole.cc:181-190 | any other line appends exactly one history entry, which is the trimmed line, whether or not a command is found |
| `Dispatch.EvaluateDispatches` | src/qconsole.cc:187-198 | if the first token is stored, its callback is called once with the other tokens and nothing is written; otherwise nothing is called and exactly one red "Command not found: <token>" line is written |
| `Dispatch.EvaluateIsInvokeOfFirstToken` | src/qconsole.cc:187-198 | dispatch equals recording the line and then invoking by name on the first token; the not-found line is written exactly when that reports false |
| `Dispatch.EvaluateInvokesOnlySpaceFreeNames` | src/qconsole.cc:181-193 | a line only ever calls a command whose name is non-empty and has no spaces |
| `Dispatch.EvaluateKeepsEmptyArguments` | src/qconsole.cc:187-193 | "cmd  a" calls cmd with the arguments "" and "a" |
| `Dispatch.EvaluateUnknownScenario` | src/qconsole.cc:190-198 | "nosuchcmd x y" with no such command adds one history entry and exactly one not-found line for "nosuchcmd" |
| `LineEditor.Hint` | src/qconsole.cc:76-85 | at most one hint; there is one if and only if the context length is positive and some stored key starts with the input; it is such a key, coloured brown; otherwise the colour is left alone |
| `LineEditor.HintIsInPrefixRange` | src/qconsole.cc:78-80 | the hint is a member of the prefix range that completion lists |
| `LineEditor.HighlightLength` | src/qconsole.cc:100-112 | the span fits in the input and, when non-empty, is a stored name that ends at the end of the input or at a space |
| `LineEditor.HighlightMatchesFirstToken` | src/qconsole.cc:100-112 | the span is the length of the first space-delimited token of the raw input when that token is stored, and 0 otherwise |
| `LineEditor.HighlightIsExact` | src/qconsole.cc:100-112 | a non-empty span is always exactly a stored first word, never a stored prefix of it nor an extension |
| `LineEditor.HighlightAgreesWithEvaluate` | src/qconsole.cc:100-112 | on a line with no whitespace at either end, the span is non-empty if and only if dispatching the line calls a command |
| `LineEditor.HighlightMissesIndentedCommand` | src/qconsole.cc:100-112 | with "help" stored, " help" gets an empty span, yet dispatching it calls help |
| `LineEditor.IntendedHighlight` | src/qconsole.cc:100-112 | the span of the first word of the trimmed line, placed after the leading whitespace, lies inside the input |
| `LineEditor.IntendedHighlightIsStored` | src/qconsole.cc:100-112 | a non-empty span of that kind covers exactly a stored name |
| `LineEditor.IntendedHighlightAgrees` | src/qconsole.cc:100-112 | on every input, that span is non-empty if and only if dispatching the input calls a command |
| `LineEditor.Utf8Width` | src/qconsole.cc:100-116 | a character takes one to four bytes, and one exactly when it is ASCII |
| `LineEditor.Utf8Length` | src/qconsole.cc:100-116 | the byte length is at least the character length, and equal to it exactly when every character is ASCII |
| `LineEditor.HighlightBytes` | src/qconsole.cc:100-116 | the span counted in bytes, as `find` and `length()` count it, is at least the span in characters |
| `LineEditor.HighlightBytesOverrunColors` | src/qconsole.cc:100-116 | with the one-character name "é" stored, the input "é" has a byte span of 2, while it is one character long |
| `Console.DefaultCommandsCount` | src/qconsole.cc:261-324 | the five default commands have distinct names, so on an empty registry they make a count of 5 |
| `Console.DefaultCommandsPresent` | src/qconsole.cc:261-324 | after the defaults are added to any registry, all five default names are stored |
| `Console.QConsole.constructor` | src/qconsole.cc:56-63 | a new console has no commands, no history, empty prompts and path, echo on, and is not running |
| `Console.QConsole.Start` | src/qconsole.cc:123-130 | afterwards running is true; a new timer is taken only when the console was stopped, so starting a running console is a no-op |
| `Console.QConsole.Stop` | src/qconsole.cc:132-143 | afterwards running is false and nothing else changes, so stopping a stopped console is a no-op |
| `Console.QConsole.AddCommand` | src/qconsole.cc:326-329 | the registry becomes its insert-if-absent update and stays well keyed; nothing else changes |
| `Console.QConsole.RemoveCommandByName` | src/qconsole.cc:331-334 | the registry loses exactly that name; nothing else changes |
| `Console.QConsole.CommandCount` | src/qconsole.cc:256-259 | returns the number of stored names |
| `Console.QConsole.AddDefaultCommands` | src/qconsole.cc:261-324 | the registry becomes the result of adding exit, help, history, clear and version in that order |
| `Console.QConsole.InvokeCommandByName` | src/qconsole.cc:169-177 | the result and new record are those of invoking by name; the context defaults to no arguments; only the invocation list can change; a command found is stored under its own name |
| `Console.QConsole.EvaluateLine` | src/qconsole.cc:179-199 | history, invocations and output become those of dispatching the line; the registry and everything else stay the same |
| `Console.QConsole.TimerEvent` | src/qconsole.cc:201-214 | end of input requests quit and then has no other effect; any other line is dispatched |
| `Console.QConsole.SetPrompt` | src/qconsole.cc:336-339 | only the current prompt changes, and it becomes the given text |
| `Console.QConsole.SetDefaultPrompt` | src/qconsole.cc:341-345 | both prompts become the given text |
| `Console.QConsole.ResetPrompt` | src/qconsole.cc:347-350 | the current prompt becomes the default prompt; the default is unchanged |
| `Console.QConsole.SetHistoryFilePath` | src/qconsole.cc:367-382 | the stored path becomes the given one |
| `Console.QConsole.SetStdinEcho` | src/qconsole.cc:384-414 | the echo flag becomes the given value |
| `Console.QConsole.ReadLine` | src/qconsole.cc:416-428 | the prompt is written to the output, and the first whitespace-delimited word of standard input is returned |
| `Console.QConsole.ReadPass` | src/qconsole.cc:430-437 | echo is on afterwards whatever it was before; the prompt and a line end are written; the first word of standard input is returned |
| `Console.QConsole.Destroy` | src/qconsole.cc:155-157 | echo is restored to on if it was off |
| `Console.QConsole.Complete` | src/qconsole.cc:87-98 | the candidates are exactly the stored keys that start with the input, each once, all coloured brown |
| `Console.QConsole.Highlight` | src/qconsole.cc:100-117 | positions below the span become bright green and every other position keeps its colour |
| `Console.PromptScenario` | tests/test-qconsole.cc:151-172 | the default prompt sets both prompts to "ExamplePrompt"; then setting "NewPrompt" changes only the current prompt; a reset brings back the default |
| `Console.UnicodeScenario` | tests/test-qconsole.cc:76-112 | with the test's Latin Extended-A and Hangul names, each command is found under its exact name and runs its own callback: first the one that sets the flag, then the one that clears it |
| `Console.TwoCommandsScenario` | tests/test-qconsole.cc:76-112 | for any two different names, adding and invoking each in turn finds both and runs their two callbacks in that order |
| `Console.RunningScenario` | src/qconsole.cc:123-143 | a second start keeps the first timer and the console running; a second stop leaves it stopped |

## Left out

- The replxx line editor's internals are a foreign library: line reading, key bindings, history deduplication and maximum size, `history_save`/`history_load`, `clear_screen`, the window-change handler, and the configuration setters that only forward to it (`setMaxHistorySize`, `setWordBreakCharacters`, `setCompletionCountCutoff`, `setDoubleTabCompletion`, `setCompleteOnEmpty`, `setBeepOnAmbiguousCompletion`, `setNoColor`, `setUniqueHistory`). History is only the sequence that `evaluateLine` appends to.
- Qt timers and application control are host scheduling. `startTimer` becomes a timer id passed to `Start`. `killTimer` is not recorded. `QCoreApplication::quit` becomes the `quitRequested` flag.
- Terminal echo control (`termios`, `GetConsoleMode`) is OS I/O. Only the `m_echo` flag is kept. `ReadPass` turns echo off for the read and on again, but the model states only the final value.
- Stream and file I/O are left out. Standard input is a parameter: the text `readLine` reads from is given to `ReadLine`/`ReadPass` as `stdin`. `setOutputDevice` and `ostream()` are not modelled. The output stream is the text appended to `output`. `setHistoryFilePath` only sets the path; the directory and file creation are not modelled. The destructor's screen clear and history save are not modelled.
- The callbacks are opaque identities. Invoking one is recorded and has no other effect. The default commands' own behaviour is therefore not modelled: `help`, `history` and `version` printing, `clear`, and `exit` quitting. Nor is a callback that changes the registry while it runs.
- The trie's iteration order is not modelled. So the model does not say which key the hint shows, or in which order completion lists the keys.
- LineEditor.Hint: the hint is `pr.first.key()`, the first key in iteration order. The model says only that it is some key of the prefix range.
- Console.QConsole.Highlight: requires the editor's colour buffer to hold the span, which it does when the span is counted in characters. The original counts it in bytes, and `colors.at` then throws for a non-ASCII name; that case is under "## Findings", and the method models the span in characters.
- Unicode whitespace is not modelled: `trimmed()` and `QTextStream` skip only ASCII whitespace here, while Qt also skips other Unicode spaces.
- The repository's two example applications are demonstrations, and the test file's benchmarks measure speed only. The getters `running()`, `prompt()`, `defaultPrompt()` and `historyFilePath()` are read as the fields themselves. In the model the initial timer id is 0; the original leaves `m_timerID` uninitialised until `start`, which does not matter because it is never read before then.

## Findings

| source | as written | input that shows it | evidently intended | confidence | as-written member | corrected member |
|---|---|---|---|---|---|---|
| src/qconsole.cc:100-112 | the highlighter looks at the raw input, while `evaluateLine` (src/qconsole.cc:181) trims the line before it finds the command name | with "help" stored, the input " help": dispatch runs help, the span is empty | the command that Enter would run is highlighted | not executed | `LineEditor.HighlightMissesIndentedCommand` | `LineEditor.IntendedHighlight`, with `LineEditor.IntendedHighlightAgrees` |
| src/qconsole.cc:100-116 | the span is computed with `std::string::find` and `length()`, that is in UTF-8 bytes, and `colors.at(i)` is written for each byte position, while replxx's colour buffer has one entry per code point | with "é" stored, the input "é": a span of 2 over a one-entry buffer, so `colors.at(1)` throws `std::out_of_range` | the span is counted in code points, the unit of the colour buffer | not executed | `LineEditor.HighlightBytesOverrunColors` | `LineEditor.HighlightLength`, which `Console.QConsole.Highlight` uses |
