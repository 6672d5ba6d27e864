/** Wrapper/ExifTool.cs: the wrapper that collects stdout lines in a list, waits until the
    last line holds `{ready}`, then deletes every `{ready}` from that line with
    String.Replace and drops the line if nothing is left. */
module ExifTool {
  import opened Text
  import opened StayOpen

  /** What Execute returns: the captured stdout and stderr lines. */
  datatype ExecuteResult = ExecuteResult(stdOutLines: seq<string>, stdErrLines: seq<string>)

  /** List<T>.Remove(item): deletes the first element equal to `x`, if there is one. */
  function RemoveFirst(xs: seq<string>, x: string): (r: seq<string>)
    ensures x !in xs ==> r == xs
    ensures x in xs ==> |r| == |xs| - 1
  {
    if xs == [] then []
    else if xs[0] == x then xs[1..]
    else [xs[0]] + RemoveFirst(xs[1..], x)
  }

  /** The marker line after String.Replace, kept only when something is left. */
  function CleanedTail(line: string): seq<string> {
    var cleaned := ReplaceAll(line, Marker);
    if cleaned == "" then [] else [cleaned]
  }

  /** RemoveEndOutputFlag as written: clean the last line in place, or, when it cleans to
      nothing, Remove(lastLine), which deletes the first element equal to the last line. */
  function RemoveEndOutputFlag(lines: seq<string>): seq<string>
    requires |lines| > 0
  {
    var lastLine := lines[|lines| - 1];
    var cleaned := ReplaceAll(lastLine, Marker);
    if cleaned == "" then RemoveFirst(lines, lastLine)
    else lines[..|lines| - 1] + [cleaned]
  }

  /** What a call returns when the child delivers `events`: the stdout lines before the
      first marker line verbatim, then that line with its markers deleted unless that
      leaves it empty; the stderr lines that arrived before the marker line, verbatim. */
  function ExpectedResult(events: seq<Event>): ExecuteResult
    requires Completes(events)
  {
    var c := CompletionIndex(events);
    ExecuteResult(StdOutLines(events[..c]) + CleanedTail(events[c].data), StdErrLines(events[..c]))
  }

  /** The list the wait loop leaves behind: stdout lines up to the first marker line. */
  function Received(events: seq<Event>): seq<string>
    requires Completes(events)
  {
    StdOutLines(events[..CompletionIndex(events) + 1])
  }

  /** List<T>.Remove deletes the first equal element and keeps every other one in order. */
  lemma {:induction false} RemoveFirstIsFirst(xs: seq<string>, x: string, i: nat)
    requires i < |xs| && xs[i] == x && x !in xs[..i]
    ensures RemoveFirst(xs, x) == xs[..i] + xs[i + 1..]
    decreases i
  {
    if i > 0 {
      assert xs[0] in xs[..i];
      assert xs[1..][..i - 1] == xs[1..i];
      assert x !in xs[1..][..i - 1];
      RemoveFirstIsFirst(xs[1..], x, i - 1);
      assert xs[..i] == [xs[0]] + xs[1..][..i - 1];
    }
  }

  /** Removing an element that occurs only at the end removes the end. */
  lemma {:induction false} RemoveFirstOfLast(xs: seq<string>, x: string)
    requires x !in xs
    ensures RemoveFirst(xs + [x], x) == xs
    decreases |xs|
  {
    if xs != [] {
      assert (xs + [x])[1..] == xs[1..] + [x];
      RemoveFirstOfLast(xs[1..], x);
    }
  }

  /** With no earlier line holding the marker, Remove(lastLine) deletes the last element
      and no earlier equal one: the list shrinks by one when the last line cleans to
      nothing, and otherwise only its last element changes. */
  lemma RemoveEndOutputFlagDropsOnlyLast(lines: seq<string>)
    requires |lines| > 0 && Contains(lines[|lines| - 1], Marker)
    requires forall l <- lines[..|lines| - 1] :: !Contains(l, Marker)
    ensures RemoveEndOutputFlag(lines) == lines[..|lines| - 1] + CleanedTail(lines[|lines| - 1])
  {
    var n := |lines| - 1;
    if ReplaceAll(lines[n], Marker) == "" {
      assert lines[n] !in lines[..n];
      assert lines == lines[..n] + [lines[n]];
      RemoveFirstOfLast(lines[..n], lines[n]);
    }
  }

  /** Remove deletes the first equal element: were the marker line to appear twice in the
      list, the earlier copy would go and the marker line would stay. */
  lemma RemoveFirstHitsEarlierCopy()
    ensures RemoveEndOutputFlag([Marker, "a", Marker]) == ["a", Marker]
  {
    assert Marker[..|Marker|] == Marker;
    assert ReplaceAll(Marker, Marker) == ReplaceAll("", Marker) == "";
  }

  /** With the check made after every line, the wait ends on the shortest prefix of the
      stdout lines whose last line contains the marker. */
  lemma ReceivedIsShortestMarkedPrefix(events: seq<Event>)
    requires Completes(events)
    ensures var raw := Received(events);
      |raw| > 0 && raw <= StdOutLines(events)
      && Contains(raw[|raw| - 1], Marker)
      && forall j :: 0 <= j < |raw| - 1 ==> !Contains(raw[j], Marker)
  {
    var c := CompletionIndex(events);
    LinesSnoc(events, c);
    MarkerFreeLines(events[..c]);
    StdOutLinesAppend(events[..c + 1], events[c + 1..]);
    assert events[..c + 1] + events[c + 1..] == events;
    var raw := Received(events);
    forall j | 0 <= j < |raw| - 1
      ensures !Contains(raw[j], Marker)
    {
      assert raw[j] in StdOutLines(events[..c]);
    }
  }

  /** Every stdout line before the marker line is returned verbatim and in order; the
      result has one line more only when the cleaned marker line is not empty; the lines
      before the last contain no marker; stderr is the stderr lines up to the marker line. */
  lemma ExpectedResultShape(events: seq<Event>)
    requires Completes(events)
    ensures var r := ExpectedResult(events); var c := CompletionIndex(events);
      var before := StdOutLines(events[..c]); var cleaned := ReplaceAll(events[c].data, Marker);
      before <= StdOutLines(events)
      && r.stdOutLines[..|before|] == before
      && |r.stdOutLines| == |before| + (if cleaned == "" then 0 else 1)
      && (forall l <- before :: !Contains(l, Marker))
      && r.stdErrLines <= StdErrLines(events)
  {
    var c := CompletionIndex(events);
    MarkerFreeLines(events[..c]);
    assert events[..c] + events[c..] == events;
    StdOutLinesAppend(events[..c], events[c..]);
    StdErrLinesAppend(events[..c], events[c..]);
  }

  /** The marker line is dropped exactly when it is nothing but markers, as the bare
      `{ready}` line that exiftool prints is. */
  lemma MarkerLineDroppedIffBare(line: string)
    ensures CleanedTail(line) == [] <==> Repeats(line, Marker)
  {
    ReplaceAllEmpty(line, Marker);
  }

  /** On a marker line of the usual shape, text then one `{ready}` with no marker in the
      text, the cleaned line is that text. */
  lemma CleanedMarkerLine(p: string)
    requires !Contains(p, Marker)
    ensures ReplaceAll(p + Marker, Marker) == p
  {
    MarkerAfterCleanText(p, "");
    assert p + Marker + "" == p + Marker;
    ReplaceAllAtFirst(p + Marker, Marker, |p|);
    assert (p + Marker)[..|p|] == p;
    assert (p + Marker)[|p| + |Marker|..] == "";
  }

  /** Replace works in one left-to-right pass, so a marker split by another marker
      survives the cleaning: a returned line can still contain `{ready}`. */
  lemma CleanedLineCanKeepMarker()
    ensures ReplaceAll("{re{ready}ady}", Marker) == Marker
  {
    var s := "{re{ready}ady}";
    assert OccursAt(s, Marker, 3) by { assert s[3..10] == Marker; }
    forall j | 0 <= j < 3 ensures !OccursAt(s, Marker, j) {
      assert s[j + 6] != '}';
    }
    ReplaceAllAtFirst(s, Marker, 3);
    assert s[..3] == "{re" && s[10..] == "ady}";
    ReplaceAllAbsent("ady}", Marker);
    assert "{re" + "ady}" == Marker;
  }

  /** StdOutAction and StdErrAction run for one event at a time, with the check of
      WaitForExecuteComplete after each: the stdout lines are collected up to the first
      one that contains the marker, the stderr lines that arrive before it alongside. */
  method WaitForExecuteComplete(output: seq<Event>) returns (stdOutLines: seq<string>, stdErrLines: seq<string>)
    requires Completes(output)
    ensures stdOutLines == Received(output)
    ensures |stdOutLines| > 0 && Contains(stdOutLines[|stdOutLines| - 1], Marker)
    ensures forall l <- stdOutLines[..|stdOutLines| - 1] :: !Contains(l, Marker)
    ensures stdErrLines == StdErrLines(output[..CompletionIndex(output)])
  {
    stdOutLines, stdErrLines := [], [];
    ghost var c := CompletionIndex(output);
    var k := 0;
    while |stdOutLines| == 0 || !Contains(stdOutLines[|stdOutLines| - 1], Marker)
      invariant k <= c + 1
      invariant stdOutLines == StdOutLines(output[..k])
      invariant stdErrLines == StdErrLines(output[..k])
      invariant k <= c ==> forall l <- stdOutLines :: !Contains(l, Marker)
      invariant k == c + 1 ==> |stdOutLines| > 0 && Contains(stdOutLines[|stdOutLines| - 1], Marker)
      decreases c + 1 - k
    {
      assert k <= c;
      LinesSnoc(output, k);
      match output[k] {
        case StdOut(line) =>
          assert Contains(line, Marker) <==> k == c;
          stdOutLines := stdOutLines + [line];
        case StdErr(line) =>
          assert k < c;
          stdErrLines := stdErrLines + [line];
      }
      k := k + 1;
    }
    LinesSnoc(output, c);
    MarkerFreeLines(output[..c]);
  }

  class Wrapper {
    /** disposedValue */
    var disposed: bool
    /** Set once Dispose has waited for the child to exit. */
    var exited: bool
    /** Everything written to the child's standard input, in order. */
    var stdin: string

    ghost predicate Valid()
      reads this
    {
      Terminated(stdin) && exited == disposed && (disposed ==> EndsWithShutdown(stdin))
    }

    /** The lines exiftool has read from its standard input. */
    function Sent(): seq<string>
      reads this
    {
      Lines(stdin)
    }

    /** The constructor starts exiftool; nothing is written to it yet. */
    constructor ()
      ensures Valid() && !disposed && stdin == ""
    {
      disposed, exited, stdin := false, false, "";
    }

    /** StandardInput.WriteLine(text). */
    method WriteLine(text: string)
      requires Valid() && !disposed
      modifies this`stdin
      ensures Valid() && stdin == old(stdin) + LineText(text)
    {
      stdin := stdin + LineText(text);
    }

    /** The foreach loop over the parameters, then the `-execute` trigger. */
    method WriteCommand(parameters: seq<string>)
      requires Valid() && !disposed
      modifies this`stdin
      ensures Valid() && stdin == old(stdin) + CommandText(parameters)
      ensures NoLineBreaks(parameters) ==> Sent() == old(Sent()) + parameters + [ExecuteTrigger]
    {
      for i := 0 to |parameters|
        invariant Valid() && !disposed
        invariant stdin == old(stdin) + ParameterText(parameters[..i])
      {
        assert parameters[..i + 1][..i] == parameters[..i];
        WriteLine(parameters[i]);
      }
      assert parameters[..|parameters|] == parameters;
      WriteLine(ExecuteTrigger);
      if NoLineBreaks(parameters) {
        CommandLines(parameters);
        LinesAppend(old(stdin), CommandText(parameters));
      }
    }

    /** Sends the parameters and `-execute`, then collects the child's output up to the
        first stdout line holding the marker. After Dispose it throws without writing. */
    method Execute(parameters: seq<string>, output: seq<Event>) returns (r: Result<ExecuteResult>)
      requires Valid()
      requires !disposed ==> Completes(output)
      modifies this`stdin
      ensures Valid()
      ensures old(disposed) ==> r == Err(ObjectDisposed) && stdin == old(stdin)
      ensures !old(disposed) ==> r == Ok(ExpectedResult(output))
      ensures !old(disposed) ==> stdin == old(stdin) + CommandText(parameters)
      ensures !old(disposed) && NoLineBreaks(parameters) ==>
        Sent() == old(Sent()) + parameters + [ExecuteTrigger]
    {
      if disposed {
        return Err(ObjectDisposed);
      }
      WriteCommand(parameters);
      var stdOutLines, stdErrLines := WaitForExecuteComplete(output);
      RemoveEndOutputFlagDropsOnlyLast(stdOutLines);
      ghost var c := CompletionIndex(output);
      LinesSnoc(output, c);
      assert stdOutLines == StdOutLines(output[..c]) + [output[c].data];
      r := Ok(ExecuteResult(RemoveEndOutputFlag(stdOutLines), stdErrLines));
    }

    /** The first call writes the two-line `-stay_open`/`False` directive, waits for the
        child to exit and marks the wrapper disposed; later calls do nothing. */
    method Dispose()
      requires Valid()
      modifies this
      ensures Valid() && disposed && exited
      ensures stdin == if old(disposed) then old(stdin) else old(stdin) + LineText(ShutdownDirective)
      ensures !old(disposed) ==> Sent() == old(Sent()) + ["-stay_open", "False"]
    {
      if !disposed {
        WriteLine(ShutdownDirective);
        ShutdownLines();
        LinesAppend(old(stdin), LineText(ShutdownDirective));
        exited := true;
        disposed := true;
      }
    }
  }
}
