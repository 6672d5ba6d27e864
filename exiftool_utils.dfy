/** ExiftoolUtils/StayOpenWrapper.cs: the wrapper that cuts each stdout line at the first
    `{ready}`, appends the kept text to a StringBuilder without separators and completes
    at the first line that holds the marker. */
module ExifToolUtils {
  import opened Text
  import opened StayOpen

  /** The named tuple (foundMarker, cleaned). */
  datatype MarkerSearch = MarkerSearch(foundMarker: bool, cleaned: string)

  /** What Execute returns: the two StringBuilders' text. */
  datatype Output = Output(stdOut: string, stdErr: string)

  /** TryRemoveEndOfOutputMarker: without the marker the line comes back unchanged;
      with it, the text before its first occurrence comes back, which holds no marker and
      which, followed by the marker, starts the line. */
  function TryRemoveEndOfOutputMarker(input: string): (r: MarkerSearch)
    ensures r.foundMarker <==> Contains(input, Marker)
    ensures !r.foundMarker ==> r.cleaned == input
    ensures r.foundMarker ==> r.cleaned + Marker <= input && !Contains(r.cleaned, Marker)
  {
    var index := IndexOf(input, Marker);
    if index == -1 then MarkerSearch(false, input)
    else
      assert !Contains(input[..index], Marker) by {
        forall j | 0 <= j <= index - |Marker|
          ensures !OccursAt(input[..index], Marker, j)
        {
          if OccursAt(input[..index], Marker, j) {
            OccursInPrefix(input, Marker, index, j);
          }
        }
      }
      assert input[..index] + Marker == input[..index + |Marker|];
      MarkerSearch(true, input[..index])
  }

  /** What a call returns when the child delivers `events`: the stdout lines before the
      first marker line joined with no separator, then the text before the marker on that
      line; the stderr lines that arrived before the marker line, joined likewise. */
  function ExpectedOutput(events: seq<Event>): Output
    requires Completes(events)
  {
    var c := CompletionIndex(events);
    Output(Concat(StdOutLines(events[..c])) + TryRemoveEndOfOutputMarker(events[c].data).cleaned,
           Concat(StdErrLines(events[..c])))
  }

  /** Text after the marker on the marker line is discarded: a line made of marker-free
      text, the marker and anything at all cleans to that text, and completes the call. */
  lemma MarkerLineDiscardsTail(p: string, t: string)
    requires !Contains(p, Marker)
    ensures TryRemoveEndOfOutputMarker(p + Marker + t) == MarkerSearch(true, p)
  {
    MarkerAfterCleanText(p, t);
    assert (p + Marker + t)[..|p|] == p;
  }

  /** Nothing is invented or reordered: the returned stdout, followed by the marker, is a
      prefix of everything the child wrote to stdout up to the marker line. */
  lemma StdOutIsPrefixOfStream(events: seq<Event>)
    requires Completes(events)
    ensures var c := CompletionIndex(events);
      ExpectedOutput(events).stdOut + Marker <= Concat(StdOutLines(events[..c + 1]))
  {
    var c := CompletionIndex(events);
    JoinStdOutStep(events, c);
    var before := Concat(StdOutLines(events[..c]));
    var line := events[c].data;
    var p := TryRemoveEndOfOutputMarker(line).cleaned;
    assert p + Marker <= line;
    var after := line[|p + Marker|..];
    assert line == (p + Marker) + after;
    assert before + line == (before + p + Marker) + after;
  }

  /** Each piece appended to stdout is free of the marker, yet pieces joined without a
      separator can spell it: the returned text is not guaranteed marker-free. */
  lemma JoinedPiecesCanFormMarker()
    ensures var events := [StdOut("{rea"), StdOut("dy}" + Marker)];
      Completes(events) && ExpectedOutput(events).stdOut == Marker
  {
    var events := [StdOut("{rea"), StdOut("dy}" + Marker)];
    assert !IsMarkerLine(events[0]);
    MarkerLineDiscardsTail("dy}", "");
    assert events[1].data == "dy}" + Marker + "";
    assert CompletionIndex(events) == 1;
    JoinStdOutStep(events, 0);
    assert events[..0] == [];
  }

  /** One more stdout event appends its line to the joined stdout and leaves stderr. */
  lemma JoinStdOutStep(output: seq<Event>, k: nat)
    requires k < |output| && output[k].StdOut?
    ensures Concat(StdOutLines(output[..k + 1])) == Concat(StdOutLines(output[..k])) + output[k].data
    ensures StdErrLines(output[..k + 1]) == StdErrLines(output[..k])
  {
    LinesSnoc(output, k);
    ConcatSnoc(StdOutLines(output[..k]), output[k].data);
  }

  /** One more stderr event appends its line to the joined stderr and leaves stdout. */
  lemma JoinStdErrStep(output: seq<Event>, k: nat)
    requires k < |output| && output[k].StdErr?
    ensures Concat(StdErrLines(output[..k + 1])) == Concat(StdErrLines(output[..k])) + output[k].data
    ensures StdOutLines(output[..k + 1]) == StdOutLines(output[..k])
  {
    LinesSnoc(output, k);
    ConcatSnoc(StdErrLines(output[..k]), output[k].data);
  }

  /** StdOutAction and StdErrAction run for one event at a time until one of them
      signals completion: stdout pieces are appended only when not empty, and stderr
      lines are appended as they are. */
  method CollectUntilMarker(output: seq<Event>) returns (stdOut: string, stdErr: string)
    requires Completes(output)
    ensures Output(stdOut, stdErr) == ExpectedOutput(output)
  {
    stdOut, stdErr := "", "";
    ghost var c := CompletionIndex(output);
    var execComplete := false;
    var k := 0;
    while !execComplete
      invariant k <= c + 1
      invariant execComplete <==> k == c + 1
      invariant k <= c ==> stdOut == Concat(StdOutLines(output[..k]))
      invariant k == c + 1 ==>
        stdOut == Concat(StdOutLines(output[..c])) + TryRemoveEndOfOutputMarker(output[c].data).cleaned
      invariant k <= c ==> stdErr == Concat(StdErrLines(output[..k]))
      invariant k == c + 1 ==> stdErr == Concat(StdErrLines(output[..c]))
      decreases c + 1 - k
    {
      match output[k] {
        case StdOut(data) =>
          JoinStdOutStep(output, k);
          var MarkerSearch(detectedMarker, clean) := TryRemoveEndOfOutputMarker(data);
          assert detectedMarker <==> k == c;
          if clean != "" {
            stdOut := stdOut + clean;
          } else {
            assert stdOut + clean == stdOut;
          }
          if detectedMarker {
            execComplete := true;
          }
        case StdErr(data) =>
          JoinStdErrStep(output, k);
          stdErr := stdErr + data;
      }
      k := k + 1;
    }
  }

  class StayOpenWrapper {
    /** disposedValue */
    var disposed: bool
    /** Set once Dispose has waited for the child to exit. */
    var exited: bool
    /** Everything written to the child's standard input, in order. */
    var stdin: string

    ghost predicate Valid()
      reads this
    {
      Terminated(stdin) && exited == disposed && (disposed ==> EndsWithShutdown(stdin))
    }

    /** The lines exiftool has read from its standard input. */
    function Sent(): seq<string>
      reads this
    {
      Lines(stdin)
    }

    /** The constructor starts exiftool; nothing is written to it yet. */
    constructor ()
      ensures Valid() && !disposed && stdin == ""
    {
      disposed, exited, stdin := false, false, "";
    }

    /** StandardInput.WriteLine(text). */
    method WriteLine(text: string)
      requires Valid() && !disposed
      modifies this`stdin
      ensures Valid() && stdin == old(stdin) + LineText(text)
    {
      stdin := stdin + LineText(text);
    }

    /** The foreach loop over the parameters, then the `-execute` trigger. */
    method WriteCommand(parameters: seq<string>)
      requires Valid() && !disposed
      modifies this`stdin
      ensures Valid() && stdin == old(stdin) + CommandText(parameters)
      ensures NoLineBreaks(parameters) ==> Sent() == old(Sent()) + parameters + [ExecuteTrigger]
    {
      for i := 0 to |parameters|
        invariant Valid() && !disposed
        invariant stdin == old(stdin) + ParameterText(parameters[..i])
      {
        assert parameters[..i + 1][..i] == parameters[..i];
        WriteLine(parameters[i]);
      }
      assert parameters[..|parameters|] == parameters;
      WriteLine(ExecuteTrigger);
      if NoLineBreaks(parameters) {
        CommandLines(parameters);
        LinesAppend(old(stdin), CommandText(parameters));
      }
    }

    /** Sends the parameters and `-execute`, then returns the joined stdout text up to the
        marker and the joined stderr text. After Dispose it throws without writing. */
    method Execute(parameters: seq<string>, output: seq<Event>) returns (r: Result<Output>)
      requires Valid()
      requires !disposed ==> Completes(output)
      modifies this`stdin
      ensures Valid()
      ensures old(disposed) ==> r == Err(ObjectDisposed) && stdin == old(stdin)
      ensures !old(disposed) ==> r == Ok(ExpectedOutput(output))
      ensures !old(disposed) ==> stdin == old(stdin) + CommandText(parameters)
      ensures !old(disposed) && NoLineBreaks(parameters) ==>
        Sent() == old(Sent()) + parameters + [ExecuteTrigger]
    {
      if disposed {
        return Err(ObjectDisposed);
      }
      WriteCommand(parameters);
      var stdOut, stdErr := CollectUntilMarker(output);
      r := Ok(Output(stdOut, stdErr));
    }

    /** The first call writes the two-line `-stay_open`/`False` directive, waits for the
        child to exit and marks the wrapper disposed; later calls do nothing. */
    method Dispose()
      requires Valid()
      modifies this
      ensures Valid() && disposed && exited
      ensures stdin == if old(disposed) then old(stdin) else old(stdin) + LineText(ShutdownDirective)
      ensures !old(disposed) ==> Sent() == old(Sent()) + ["-stay_open", "False"]
    {
      if !disposed {
        WriteLine(ShutdownDirective);
        ShutdownLines();
        LinesAppend(old(stdin), LineText(ShutdownDirective));
        exited := true;
        disposed := true;
      }
    }
  }
}
