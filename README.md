# exiftool stay-open wrapper, modelled in Dafny

The repository wraps one long-lived `exiftool -stay_open True -@ -` child process. Each
`Execute` call writes its parameters to the child's standard input, one `WriteLine` each,
then the trigger line `-execute`. It then collects the child's stdout lines until one
contains the marker `{ready}`, strips the marker and returns what it collected together
with the stderr lines. `Dispose` writes the directive `-stay_open\nFalse` once and waits for
the child to exit. After that, `Execute` throws `ObjectDisposedException`.

There are two copies of this wrapper, and they treat the marker differently:

- `Wrapper/ExifTool.cs` (module `ExifTool`, class `Wrapper`) keeps a list of lines. It waits
  until the last line contains `{ready}` and deletes every `{ready}` from that line with
  `String.Replace`. It then drops the line with `List.Remove` when nothing is left.
- `ExiftoolUtils/StayOpenWrapper.cs` (module `ExifToolUtils`, class `StayOpenWrapper`) cuts
  each stdout line at the first `{ready}` (`IndexOf`/`Substring`). It appends the kept text
  to a `StringBuilder` with no separator and completes at the first line that holds the
  marker. Stderr is appended the same way.

How the model is built:

- The child process is an oracle: `output: seq<Event>` is the interleaved sequence of stdout
  and stderr lines it delivers. The reader threads and the waiting thread become one
  sequential loop. It handles one event at a time and tests for completion after each
  event.
- Standard input is the field `stdin: string`, the raw text written so far. `WriteLine(t)`
  appends `t + "\n"`. `Sent()` is the list of wire lines in that text, split at each line break.
  Because of this, the model shows that the one `WriteLine("-stay_open\nFalse")` produces two
  wire lines. It also shows that a parameter holding a line break produces more than one
  line.
- The return values are datatypes. `ExifTool.ExecuteResult` is the class `ExecuteResult` with its
  two line lists (`Wrapper/ExifTool.cs` lines 13-30). `ExifToolUtils.Output` is the tuple
  `(StdOut, StdErr)` that `StayOpenWrapper.Execute` returns (`ExiftoolUtils/StayOpenWrapper.cs` line 43). `ExifToolUtils.MarkerSearch`
  is the tuple `(foundMarker, cleaned)` of `TryRemoveEndOfOutputMarker` (line 61).
- `disposed` is `disposedValue`. `exited` records that `Dispose` waited for the child to
  exit. `Valid()` states that the stream always ends at a line boundary and that a disposed
  wrapper's last output is the shutdown directive.
- The .NET string operations are modelled in module `Text` with ordinal comparison:
  `Contains`, `IndexOf`, `Replace(m, "")` as `ReplaceAll`, and `StringBuilder.Append` as
  `Concat`. Module `StayOpen` holds what both files share: the constants, the stdin line
  framing and the event stream. Module `Variants` compares the two wrappers. Module
  `Scenarios` proves properties of whole sessions against an echoing stand-in for the child.

The code does some things a reader might not expect; the model follows the code:

- A text after the marker on the marker line is kept by `Wrapper` but dropped by
  `StayOpenWrapper`. `Variants.VariantsDisagreeOnTrailingText` shows this, and
  `Variants.VariantsAgreeIff` gives the exact condition under which the two agree.
- The returned stdout can still contain `{ready}`. `Replace` makes one left-to-right pass,
  so `{re{ready}ady}` cleans to `{ready}` (`ExifTool.CleanedLineCanKeepMarker`). Also,
  `StayOpenWrapper` joins its pieces without separators, so `{rea` followed by `dy}{ready}`
  returns `{ready}` (`ExifToolUtils.JoinedPiecesCanFormMarker`). Each single piece is
  marker-free.
- `StayOpenWrapper` returns one string per stream, not a list of lines. Line boundaries are
  lost.
- Closing the session is reported as `ObjectDisposedException` (`Error.ObjectDisposed`). No
  write is made first. A write to a dead child is not handled by either file.

## Model

| member | source | states |
|---|---|---|
| `Text.Contains` | Wrapper/ExifTool.cs:97 | ordinal `String.Contains`: some position where the marker starts; what follows from it is stated by `Text.IndexOf` and `StayOpen.CompletionIndex` |
| `Text.Concat` | ExiftoolUtils/StayOpenWrapper.cs:76 | the StringBuilder's text after appending the pieces in order with no separator; `Text.ConcatSnoc` and `ExifToolUtils.JoinStdOutStep` state one append, `Text.ConcatAppend` any split of the pieces |
| `Text.ConcatAppend` | ExiftoolUtils/StayOpenWrapper.cs:76 | appending two runs of pieces gives the two joined texts one after the other, wherever the pieces are split |
| `Text.IndexOf` | ExiftoolUtils/StayOpenWrapper.cs:63-64 | -1 exactly when the marker is absent; otherwise an occurrence with none before it |
| `Text.ReplaceAll` | Wrapper/ExifTool.cs:106 | `Replace(flag, "")` never lengthens the line |
| `Text.ReplaceAllAbsent` | Wrapper/ExifTool.cs:106 | a line without the marker is left unchanged |
| `Text.ReplaceAllAtFirst` | Wrapper/ExifTool.cs:106 | the text before the first marker is kept, that marker is deleted, and the scan carries on after it |
| `Text.ReplaceAllShrinks` | Wrapper/ExifTool.cs:106 | a line that holds the marker loses at least the marker's length |
| `Text.ReplaceAllEmpty` | Wrapper/ExifTool.cs:106-107 | the cleaned line is empty exactly when the line is nothing but repeated markers |
| `StayOpen.LineEnd` | Wrapper/ExifTool.cs:76 | the position where the reader of standard input ends the current line: within the text, and at a line break unless the text ends first |
| `StayOpen.LineEndSkipsText` | Wrapper/ExifTool.cs:76 | no line break lies between the start of a line and its end |
| `StayOpen.LineEndIsFirstBreak` | Wrapper/ExifTool.cs:76 | a break with none before it is where the line ends |
| `StayOpen.Lines` | Wrapper/ExifTool.cs:76 | splits the text written by `WriteLine` into wire lines, at each line break (exiftool's own filtering of those lines is not modelled); its behaviour is stated by `LinesOfLine`, `LinesAppend`, `CommandLines` and `ShutdownLines` |
| `StayOpen.LinesOfLine` | Wrapper/ExifTool.cs:76 | one `WriteLine` of a break-free text is read as exactly that line, ahead of whatever follows |
| `StayOpen.LinesAppend` | Wrapper/ExifTool.cs:74-77 | writing after a complete line adds lines after the earlier ones and changes none of them |
| `StayOpen.ParameterLines` | Wrapper/ExifTool.cs:74-77 | the foreach loop sends each break-free parameter as one line, in the given order |
| `StayOpen.CommandLines` | Wrapper/ExifTool.cs:120 | one call is read as the parameters in order and then `-execute`, with nothing in between |
| `StayOpen.ShutdownLines` | Wrapper/ExifTool.cs:159 | the one shutdown `WriteLine` is read as the two lines `-stay_open` and `False` |
| `StayOpen.ParameterWithBreakSplits` | Wrapper/ExifTool.cs:76 | for any `x` and `y` without line breaks, the parameter `x\ny` reaches exiftool as the two lines `x` and `y`, then `-execute` |
| `StayOpen.CompletionIndex` | Wrapper/ExifTool.cs:97-100 | the wait ends at a stdout line with the marker, and no stdout line before it has one |
| `StayOpen.MarkerAfterCleanText` | ExiftoolUtils/StayOpenWrapper.cs:63 | after marker-free text, the first `{ready}` is the one that follows that text |
| `ExifTool.RemoveFirst` | Wrapper/ExifTool.cs:109 | `List.Remove` leaves the list unchanged when the item is absent, and otherwise makes it one element shorter |
| `ExifTool.RemoveFirstIsFirst` | Wrapper/ExifTool.cs:109 | `List.Remove` deletes the first element equal to the item and keeps all other elements in order |
| `ExifTool.RemoveFirstOfLast` | Wrapper/ExifTool.cs:109 | when the item occurs only at the end, `Remove` deletes the end |
| `ExifTool.RemoveEndOutputFlag` | Wrapper/ExifTool.cs:103-115 | the local function as written: replace the last line by its cleaned text, or `Remove` it by value when that text is empty; its effect is stated by `RemoveEndOutputFlagDropsOnlyLast` |
| `ExifTool.RemoveEndOutputFlagDropsOnlyLast` | Wrapper/ExifTool.cs:103-115 | when only the last line has the marker, the earlier lines are kept and the last is replaced by its cleaned text, or dropped if that text is empty |
| `ExifTool.RemoveFirstHitsEarlierCopy` | Wrapper/ExifTool.cs:105-109 | if the marker line occurred earlier too, `Remove` would delete the earlier copy |
| `ExifTool.ReceivedIsShortestMarkedPrefix` | Wrapper/ExifTool.cs:84-100 | the collected list is the shortest prefix of the stdout lines whose last line has the marker |
| `ExifTool.ExpectedResultShape` | Wrapper/ExifTool.cs:84-129 | the lines before the marker line come back verbatim and in order; the marker line adds one line or none; stderr lines come back verbatim and in order |
| `ExifTool.MarkerLineDroppedIffBare` | Wrapper/ExifTool.cs:106-110 | the marker line is dropped exactly when it is only markers, such as the bare `{ready}` |
| `ExifTool.CleanedMarkerLine` | Wrapper/ExifTool.cs:106 | a line `text{ready}` whose text has no marker cleans to that text |
| `ExifTool.CleanedLineCanKeepMarker` | Wrapper/ExifTool.cs:106 | `{re{ready}ady}` cleans to `{ready}` |
| `ExifTool.WaitForExecuteComplete` | Wrapper/ExifTool.cs:84-100 | the loop of event handlers stops at the first marker line; it returns the shortest marked prefix of stdout and the stderr lines that arrived before that line |
| `ExifTool.Wrapper.constructor` | Wrapper/ExifTool.cs:52-55 | a new wrapper is not disposed and has written nothing |
| `ExifTool.Wrapper.WriteLine` | Wrapper/ExifTool.cs:76 | `StandardInput.WriteLine` appends the text and one line break to the input and keeps it line-terminated |
| `ExifTool.Wrapper.WriteCommand` | Wrapper/ExifTool.cs:74-77 | appends each parameter line and then `-execute` to the input, and nothing else |
| `ExifTool.Wrapper.Execute` | Wrapper/ExifTool.cs:66-132 | after Dispose it fails with ObjectDisposed and writes nothing; otherwise it writes exactly the command and returns the expected result |
| `ExifTool.Wrapper.Dispose` | Wrapper/ExifTool.cs:155-169 | the first call writes the two-line directive and sets disposed and exited; later calls change nothing |
| `ExifToolUtils.TryRemoveEndOfOutputMarker` | ExiftoolUtils/StayOpenWrapper.cs:61-69 | returns (false, input) when the marker is absent; otherwise returns (true, p), where p has no marker and p followed by the marker starts the input |
| `ExifToolUtils.MarkerLineDiscardsTail` | ExiftoolUtils/StayOpenWrapper.cs:68 | for marker-free text, `text{ready}anything` cleans to the text: whatever follows the marker is dropped |
| `ExifToolUtils.StdOutIsPrefixOfStream` | ExiftoolUtils/StayOpenWrapper.cs:73-77 | the returned stdout followed by the marker is a prefix of the joined stdout lines up to the marker line |
| `ExifToolUtils.JoinedPiecesCanFormMarker` | ExiftoolUtils/StayOpenWrapper.cs:76 | pieces joined without a separator can spell `{ready}` |
| `ExifToolUtils.JoinStdOutStep` | ExiftoolUtils/StayOpenWrapper.cs:71-77 | one more stdout line appends its text to the joined stdout and leaves the stderr lines unchanged |
| `ExifToolUtils.JoinStdErrStep` | ExiftoolUtils/StayOpenWrapper.cs:84-87 | one more stderr line appends its text to the joined stderr and leaves the stdout lines unchanged |
| `ExifToolUtils.CollectUntilMarker` | ExiftoolUtils/StayOpenWrapper.cs:71-94 | handling events up to the completion signal yields the joined stdout lines before the marker line plus that line's prefix, and the joined stderr lines before it; skipping empty pieces changes nothing |
| `ExifToolUtils.StayOpenWrapper.constructor` | ExiftoolUtils/StayOpenWrapper.cs:29-32 | a new wrapper is not disposed and has written nothing |
| `ExifToolUtils.StayOpenWrapper.WriteLine` | ExiftoolUtils/StayOpenWrapper.cs:53 | `StandardInput.WriteLine` appends the text and one line break to the input and keeps it line-terminated |
| `ExifToolUtils.StayOpenWrapper.WriteCommand` | ExiftoolUtils/StayOpenWrapper.cs:51-54 | appends each parameter line and then `-execute` to the input, and nothing else |
| `ExifToolUtils.StayOpenWrapper.Execute` | ExiftoolUtils/StayOpenWrapper.cs:43-102 | after Dispose it fails with ObjectDisposed and writes nothing; otherwise it writes exactly the command and returns the expected output |
| `ExifToolUtils.StayOpenWrapper.Dispose` | ExiftoolUtils/StayOpenWrapper.cs:125-139 | the first call writes the two-line directive and sets disposed and exited; later calls change nothing |
| `Variants.ListVariantExtendsTextVariant` | Wrapper/ExifTool.cs:103-115 | joined, the list variant's stdout equals the text variant's stdout plus the cleaned rest of the marker line; the stderr is the same |
| `Variants.VariantsAgreeIff` | Wrapper/ExifTool.cs:106 | the two variants return the same text exactly when the rest of the marker line is only markers |
| `Variants.VariantsDisagreeOnTrailingText` | ExiftoolUtils/StayOpenWrapper.cs:68 | on the line `{ready}x`, the list variant returns `x` and the text variant returns nothing |
| `Scenarios.EchoRoundTrip` | Wrapper/ExifTool.cs:117-129 | with a child that echoes each parameter and then sends `{ready}`, the call returns exactly the echoes and no stderr |
| `Scenarios.WrapperSession` | wrpper_test/Program.cs:9-11 | the client's two calls each get their own echo; if Dispose then runs twice, a later call fails, and the child has read command, command, directive, in that order |
| `Scenarios.WrapperEcho` | Wrapper/ExifTool.cs:66-132 | one call on a live Wrapper against the echo stand-in returns the echoes and sends the command lines |
| `Scenarios.StayOpenEcho` | ExiftoolUtils/StayOpenWrapper.cs:43-102 | one call on a live StayOpenWrapper against the echo stand-in returns the joined echoes and sends the command lines |
| `Scenarios.WrapperClose` | Wrapper/ExifTool.cs:155-169 | Dispose twice, then a call: the call fails, and the child has read one shutdown directive more |
| `Scenarios.StayOpenClose` | ExiftoolUtils/StayOpenWrapper.cs:125-139 | Dispose twice, then a call: the call fails, and the child has read one shutdown directive more |
| `Scenarios.StayOpenSession` | wrapper_test/Program.cs:9-14 | the client makes three calls and disposes once through `using`; the model makes two calls, disposes twice and calls once more: each call gets its joined echo, the last call fails, and the child has read command, command, directive |

## Left out

- Process launch (`StartExifTool`) and the executable path are left out. They are operating-system I/O. The model starts from a running child with nothing written.
- The `lock`, the `AutoResetEvent` waits and the subscription to the output events are replaced by one sequential loop.
- The race where `Set()` calls coalesce and the waiter sees only `Last()` of a longer list is left out. So is unsynchronised access to the `List` from the reader thread.
- Lines that arrive after the marker line but before the handlers are removed are not modelled, on either stream. In the source they are added to the result by both wrappers (`Wrapper/ExifTool.cs` lines 86 and 92, removed at 124-125; `StayOpenWrapper.cs` lines 76 and 86, removed at 96-97). A late stdout line in `Wrapper` would also become the `Last()` line that is cleaned. In the model, completion happens at the marker event.
- The indefinite block when no marker ever arrives is excluded by the precondition `Completes(output)`.
- `Execute` after disposal is modelled for every output, because the real code throws before it waits.
- A null `args.Data` at end of stream is not modelled: Dafny strings are never null. A null parameter is not modelled either; .NET would write an empty line for it.
- An `IOException` from writing to a child that has exited is not modelled. The model's standard input always accepts text.
- `WaitForExit` is modelled only as the `exited` flag. `GC.SuppressFinalize`, the finalizer pattern, `_exiftoolproc.Dispose()` and the `disposing` argument are runtime resource management.
- `WriteLine` ends lines with `"\n"`. On Windows, `Environment.NewLine` is `"\r\n"`, and that is not modelled.
- `Text.IndexOf` is ordinal. `String.IndexOf(string)` in `StayOpenWrapper.cs` uses culture-sensitive comparison, which can ignore zero-width characters inside a marker. `Contains` and `Replace` in `ExifTool.cs` are ordinal already.
- `Text.ReplaceAll`: its contract bounds only the length. Its meaning is stated by the lemmas `ReplaceAllAbsent`, `ReplaceAllAtFirst` and `ReplaceAllEmpty`.
- exiftool's own handling of the arguments it receives is left out. The child is an oracle. `Sent()` and `Lines` are the wire lines. exiftool's `-@` reader also skips blank lines and lines that start with `#`, and strips leading white space. So the wire lines are not always the arguments exiftool acts on. For example, the parameter `a\n` gives the wire lines `a` and an empty line, but only one argument.
