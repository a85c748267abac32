# smart-log-analyser, modelled in Dafny

The analyser reads a log file line by line. It keeps every line that contains
one of the keywords `ERROR`, `FATAL`, `Exception` or `CRITICAL`, stripped of
surrounding whitespace. It asks a local language model (`ollama run llama3.2`)
to explain each kept line. Then it asks the model once more for a summary of
all of them.

The model has three modules:

- `Wrappers` (`wrappers.dfy`): the `Option` datatype.
- `Text` (`text.dfy`): Python's substring test `pattern in text` (`Contains`)
  and `str.strip()` with no argument (`Strip`), written as CPython's two index scans (`SkipSpaceForward`, `SkipSpaceBackward`). Both are characterised by
  independent definitions: an occurrence at some position (`OccursAt`), and a
  whitespace / kept middle / whitespace split of the line (`IsStripOf`).
- `Analyser` (`analyser.dfy`):
  - the keyword filter of `main` as the method `CollectErrors`, with a loop
    over the lines. It is proved equal to the pure filter-and-map `KeptLines`.
  - `MatchingIndices`, a second description of the filter by the positions
    of the matching lines.
  - the two prompts (`ExplainPrompt`, `SummaryPrompt`), and whether
    `subprocess.run` can pass a prompt to the model process at all
    (`Passable`).
  - one run of `main` (`AnalyseLog`, specified by `IsRunOf`): which prompts
    go to the model, in what order, where each answer ends up, and where the
    run stops when a call raises.

The log file is given as its sequence of lines, each still ending in its
newline if it had one (what `for line in file` yields). The model process
is given as a function `launch(n, p)`: the text the model prints when prompt
`p` is the `n`-th call of the run, or `None` when `subprocess.run` raises for
a reason that depends on the machine rather than on the log. Two calls with
the same prompt may therefore get different answers. Python's rendering of a
list of strings, used inside the summary prompt, is the parameter
`listRepr`.

A call also raises for two reasons that depend on the prompt, and these
are modelled (`Passable`, `CallModel`). The first is a prompt holding a NUL
character (`ValueError: embedded null byte`), on every platform. The second
is a prompt whose UTF-8 encoding with its terminating NUL byte is over the
platform's limit on one argument (`OSError: Argument list too long`). That
limit is the parameter `argLimit`. On Linux it is MAX_ARG_STRLEN, 32 pages:
131072 bytes with 4 KiB pages (`LinuxMaxArgStrLen`), more with larger pages.
It is `None` where no per-argument limit exists, as on macOS. Nothing catches
the exception, so the first call that raises ends the run. The analyses printed before it stay
printed, and no summary is produced.

Notes on the code:

- Lines are stripped at both ends (`line.strip()`), not only at the end.
- The per-line prompt asks only for an explanation "in simple terms". It does
  not ask for a severity.
- The code has no severity highlighting and writes no report file. It prints
  to the console.
- `subprocess.run` is called without `check=True`. A non-zero exit of the
  model process is therefore not an error: its standard output is used as it
  is.

## Model

| member | source | states |
|---|---|---|
| `Text.Contains` | analyser.py:49 | `keyword in line`: a left-to-right search for the keyword as a contiguous substring of the line |
| `Text.ContainsIffOccurs` | analyser.py:49 | `pattern in text` holds exactly when the pattern occurs at some position of the text (case-sensitive, contiguous, no word boundaries) |
| `Text.CharAbsent` | analyser.py:49 | a pattern with a character that never appears in the text does not occur in it |
| `Text.SkipSpaceForward` | analyser.py:51 | the scan from the front stops at the first non-whitespace character: everything it passes over is whitespace |
| `Text.SkipSpaceBackward` | analyser.py:51 | the scan from the back, never past the front position, stops just after the last non-whitespace character: everything it passes over is whitespace |
| `Text.IsSpace` | analyser.py:51 | the characters `str.strip()` removes, namely those `str.isspace` accepts, written out |
| `Text.Strip` | analyser.py:51 | `line.strip()`: the line between the two scans |
| `Text.StripBounds` | analyser.py:51 | `line.strip()` keeps a contiguous slice of the line, removes only whitespace on either side, and neither starts nor ends with whitespace |
| `Text.StripCharacterised` | analyser.py:51 | a string is the stripped line if and only if it is the middle part of a whitespace / middle / whitespace split of the line and neither starts nor ends with whitespace |
| `Text.StripIdempotent` | analyser.py:51 | stripping an already stripped line changes nothing |
| `Text.StripKeepsOccurrence` | analyser.py:49-51 | a non-empty pattern without whitespace that occurs in a line still occurs in the stripped line |
| `Text.StripKeepsOccurrenceAt` | analyser.py:49-51 | each occurrence of such a pattern in the line is an occurrence at some position of the stripped line |
| `Text.OccursInSlice` | analyser.py:49-51 | an occurrence lying inside a slice of a line is an occurrence of that slice |
| `Text.Utf8Length` | analyser.py:10-11 | the number of bytes the prompt takes once `subprocess.run` encodes it as a UTF-8 argument: at least one and at most four per character |
| `Text.Utf8LengthAppend` | analyser.py:10-11 | the encoding of a concatenation takes the bytes of both parts |
| `Text.Utf8LengthAscii` | analyser.py:8 | a string takes one byte per character if and only if it is ASCII |
| `Analyser.ErrorKeywords` | analyser.py:44 | the four keywords, in the source's order |
| `Analyser.AnyOccurs` | analyser.py:49 | `any(keyword in line for keyword in keywords)` is true exactly when some keyword of the list occurs in the line |
| `Analyser.IsErrorLine` | analyser.py:49 | the test applied to each raw line: some keyword occurs in it |
| `Analyser.IsErrorLineIff` | analyser.py:44-49 | a raw line is an error line if and only if it contains `ERROR`, `FATAL`, `Exception` or `CRITICAL` |
| `Analyser.KeptLines` | analyser.py:47-51 | the filter never produces more lines than it reads |
| `Analyser.CollectErrors` | analyser.py:46-51 | the loop over the file's lines returns exactly `KeptLines` of the lines: the stripped matching lines in file order |
| `Analyser.MatchingIndices` | analyser.py:47-49 | the positions of the matching lines: strictly increasing, each one matches, and every matching position is among them |
| `Analyser.KeptLinesSelect` | analyser.py:47-51 | entry `j` of the result is the stripped `j`-th matching line, and there are exactly as many entries as matching lines. So order is preserved, the count is exact and duplicates are all kept |
| `Analyser.KeptLinesAppend` | analyser.py:48-51 | filtering two consecutive parts of a file gives the concatenation of their results |
| `Analyser.KeptLinesSingle` | analyser.py:48-51 | a single line is kept, stripped, exactly when it matches |
| `Analyser.KeptLinesEmptyIff` | analyser.py:47-49 | the result is empty if and only if no line matches; an empty file gives an empty result |
| `Analyser.StrippedErrorLineStillMatches` | analyser.py:44-51 | stripping a matching line leaves a keyword in it |
| `Analyser.KeptLinesStillMatch` | analyser.py:44-51 | every entry of the result still contains a keyword |
| `Analyser.KeptLinesIdempotent` | analyser.py:47-51 | filtering the result again gives the result back |
| `Analyser.NoCapitalsNoMatch` | analyser.py:44-49 | every keyword starts with a capital letter and the match is case-sensitive, so a line without capital letters, such as `error: disk full`, is not an error line |
| `Analyser.KeptAsIs` | analyser.py:47-51 | a trimmed line that starts with a keyword, read with its newline, is kept without the newline |
| `Analyser.ThreeLineScenario` | analyser.py:44-51 | `INFO: ok`, `ERROR: disk full`, `CRITICAL: node down` yield exactly the last two, in order |
| `Analyser.StrippedNewline` | analyser.py:51 | stripping a trimmed line followed by a newline gives the line |
| `Analyser.ExplainPrompt` | analyser.py:8 | the per-line prompt is the fixed prefix `Explain this log error in simple terms: ` followed by the error text, unchanged |
| `Analyser.ErrorTextOf` | analyser.py:8 | reading an error text back from a prompt succeeds exactly when the prompt starts with the fixed prefix |
| `Analyser.ExplainPromptRoundTrip` | analyser.py:8 | a prompt reads back as an error text if and only if it is that text's prompt, so different error texts give different prompts |
| `Analyser.SummaryPrompt` | analyser.py:19-21 | the summary prompt: the fixed header, two newlines, then the rendering of the list of errors |
| `Analyser.SummaryPromptShape` | analyser.py:19-21 | the summary prompt starts with the fixed header and a blank line, and the rendering of the list follows unchanged; the discarded `"\n".join(errors)` plays no part |
| `Analyser.ExplainPromptNul` | analyser.py:8 | a per-line prompt holds a NUL character if and only if its error text does |
| `Analyser.ExplainPromptBytes` | analyser.py:8 | the encoded per-line prompt is the 40 bytes of the prefix plus the encoded error text |
| `Analyser.ExplainPromptPassable` | analyser.py:8-10 | a per-line prompt can be passed to the model process if and only if the error text holds no NUL and, where there is a per-argument limit, its UTF-8 encoding plus the 40-byte prefix and the terminating NUL fits in it |
| `Analyser.LinuxExplainPromptPassable` | analyser.py:8-10 | on Linux with 4 KiB pages, a per-line prompt can be passed if and only if the error text holds no NUL and its UTF-8 encoding is at most 131031 bytes |
| `Analyser.Passable` | analyser.py:10-11 | `subprocess.run` raises for a prompt holding a NUL character, or one whose UTF-8 encoding with its terminating NUL is over the platform's per-argument limit when there is one |
| `Analyser.CallModel` | analyser.py:10-13 | one call of the model: it raises for a prompt that cannot be passed, and otherwise gives what the model process gives |
| `Analyser.IsRunOf` | analyser.py:54-64 | a run of `main`: the kept lines, one prompt per kept line in file order, then the summary prompt; every tried call but the last has its answer; the last tried call is the one that raised or the summary call; a raised call before the summary leaves no summary |
| `Analyser.AnalyseLog` | analyser.py:46-64 | one run of `main` over the log's lines produces a session satisfying `IsRunOf` |
| `Analyser.RaisedRun` | analyser.py:56-58 | when the call about the next kept line raises, the session stopped there satisfies `IsRunOf` |
| `Analyser.FinishedRun` | analyser.py:56-63 | once every kept line has its answer, the session ending in the summary call satisfies `IsRunOf` |
| `Analyser.RunIsDetermined` | analyser.py:46-64 | two sessions satisfying `IsRunOf` for the same log, model process and list rendering are equal: the specification leaves nothing open |
| `Analyser.RunStopsAtNul` | analyser.py:8-58 | a kept line holding a NUL character is never explained, and the run ends without a summary |
| `Analyser.RunCompletes` | analyser.py:56-63 | when every per-line call goes through, every kept line gets its answer in order, and the summary is the answer to call number `kept`; there are `kept + 1` calls even for a log with no error line |

## Left out

- Argument parsing (analyser.py:36-42): the model starts from the file's lines.
- Opening the file (analyser.py:46): a missing or unreadable file raises an exception and ends the run. The model starts from lines already read.
- Console output (analyser.py:54-64): the `print` calls only display the kept lines, the answers and the summary, which `AnalyseLog` returns.
- The model process (analyser.py:10-13, 23-26): it is the `launch` parameter. Failures that depend on the machine are `None` answers of `launch`, not derived: no `ollama` executable, all arguments and the environment together over the system's total limit (ARG_MAX), output that does not decode under `text=True`.
- `Analyser.Passable`: the argument is taken to be encoded as UTF-8 (the file-system encoding on Linux under a UTF-8 or C locale). Under another locale encoding the byte count differs, or the encoding itself raises. The limit is on the bytes of one argument, as on Linux. Windows instead limits the whole command line to 32767 UTF-16 units; that is not modelled, and there such a failure is only a `None` answer of `launch`.
- `Analyser.ExplainPromptPassable`: the length bound applies only where `argLimit` is a per-argument byte limit. The 131031-byte figure of `LinuxExplainPromptPassable` holds only for Linux with 4 KiB pages. With 16 KiB or 64 KiB pages the limit is 512 KiB or 2 MiB, macOS has none (`argLimit == None`), and Windows is as described above.
- `Analyser.AnalyseLog`: the log is given as lines already decoded. A byte sequence the locale encoding cannot decode raises `UnicodeDecodeError` while the lines are read (analyser.py:48). That happens before any model call, so the run then produces no session at all; this is not modelled.
- Python's rendering of a list of strings inside the summary prompt (analyser.py:21) is the `listRepr` parameter; only the fixed header and the two newlines are stated.
- `Text.IsSpace`: the whitespace set is the one Python's `str.isspace` accepts (tab, line feed, vertical tab, form feed, carriage return, U+001C to U+001F, space, U+0085, U+00A0, U+1680, U+2000 to U+200A, U+2028, U+2029, U+202F, U+205F, U+3000). It is written out as a fixed list, not derived from the Unicode database.
- Text-mode newline translation done by `open` (for example `\r\n` read as `\n`) happens before the lines reach the model.
