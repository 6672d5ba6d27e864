/** How the two wrappers' answers relate on the same child output. Wrapper/ExifTool.cs
    deletes every marker from the marker line and keeps what follows the first one;
    ExiftoolUtils/StayOpenWrapper.cs keeps only what precedes the first one. */
module Variants {
  import opened Text
  import opened StayOpen
  import ExifTool
  import ExifToolUtils

  /** The part of the marker line after its first `{ready}`. */
  function AfterMarker(line: string): string
    requires Contains(line, Marker)
  {
    line[IndexOf(line, Marker) + |Marker|..]
  }

  /** Joined without separators, the list variant's stdout is the text variant's stdout
      followed by the rest of the marker line with its markers deleted; both return the
      same stderr lines. */
  lemma {:induction false} ListVariantExtendsTextVariant(events: seq<Event>)
    requires Completes(events)
    ensures var line := events[CompletionIndex(events)].data;
      Concat(ExifTool.ExpectedResult(events).stdOutLines)
        == ExifToolUtils.ExpectedOutput(events).stdOut + ReplaceAll(AfterMarker(line), Marker)
    ensures Concat(ExifTool.ExpectedResult(events).stdErrLines) == ExifToolUtils.ExpectedOutput(events).stdErr
  {
    var c := CompletionIndex(events);
    var line := events[c].data;
    var i := IndexOf(line, Marker);
    var before := StdOutLines(events[..c]);
    ReplaceAllAtFirst(line, Marker, i);
    assert ExifToolUtils.TryRemoveEndOfOutputMarker(line).cleaned == line[..i];
    var cleaned := ReplaceAll(line, Marker);
    if cleaned == "" {
      assert before + ExifTool.CleanedTail(line) == before;
    } else {
      ConcatSnoc(before, cleaned);
    }
    assert Concat(before) + (line[..i] + ReplaceAll(AfterMarker(line), Marker))
      == Concat(before) + line[..i] + ReplaceAll(AfterMarker(line), Marker);
  }

  /** The two variants return the same text exactly when whatever follows the first
      marker on the marker line is itself only markers, as when the line ends with its
      one `{ready}`. */
  lemma VariantsAgreeIff(events: seq<Event>)
    requires Completes(events)
    ensures var line := events[CompletionIndex(events)].data;
      (Concat(ExifTool.ExpectedResult(events).stdOutLines) == ExifToolUtils.ExpectedOutput(events).stdOut)
      <==> Repeats(AfterMarker(line), Marker)
  {
    var line := events[CompletionIndex(events)].data;
    ListVariantExtendsTextVariant(events);
    ReplaceAllEmpty(AfterMarker(line), Marker);
    var t := ExifToolUtils.ExpectedOutput(events).stdOut;
    var x := ReplaceAll(AfterMarker(line), Marker);
    assert t + x == t ==> |x| == 0;
  }

  /** Text after the marker on the same line: the list variant returns it, the text
      variant drops it. */
  lemma VariantsDisagreeOnTrailingText()
    ensures var events := [StdOut(Marker + "x")];
      Completes(events)
      && ExifTool.ExpectedResult(events).stdOutLines == ["x"]
      && ExifToolUtils.ExpectedOutput(events).stdOut == ""
  {
    var events := [StdOut(Marker + "x")];
    ExifToolUtils.MarkerLineDiscardsTail("", "x");
    assert "" + Marker + "x" == Marker + "x";
    assert IsMarkerLine(events[0]);
    assert CompletionIndex(events) == 0;
    assert events[..0] == [];
    ListVariantExtendsTextVariant(events);
    assert AfterMarker(Marker + "x") == "x";
    ReplaceAllAbsent("x", Marker);
    assert Concat(ExifTool.ExpectedResult(events).stdOutLines) == "x";
  }
}
