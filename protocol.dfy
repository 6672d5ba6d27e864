/** The exiftool `-stay_open True -@ -` protocol shared by both wrappers: the text written
    to the child's standard input, the lines that text carries, and the interleaved stream
    of stdout and stderr lines the child delivers back, which ends one command at the
    first stdout line that contains the `{ready}` marker. */
module StayOpen {
  import opened Text

  /** endOutputFlag: exiftool prints it after the output of each `-execute`. */
  const Marker: string := "{ready}"

  /** The line that makes exiftool run the parameters sent before it. */
  const ExecuteTrigger: string := "-execute"

  /** The argument Dispose passes to one WriteLine call; it holds a line break. */
  const ShutdownDirective: string := "-stay_open\nFalse"

  /** One line the child delivered through OutputDataReceived or ErrorDataReceived. */
  datatype Event = StdOut(data: string) | StdErr(data: string)

  /** ObjectDisposedException, thrown by Execute once the wrapper is disposed. */
  datatype Error = ObjectDisposed

  datatype Result<T> = Ok(value: T) | Err(error: Error)

  // ---------------------------------------------------------------------------------
  // Outbound: the text on standard input and the lines it carries
  // ---------------------------------------------------------------------------------

  /** What one TextWriter.WriteLine(t) call puts on the stream. */
  function LineText(t: string): string {
    t + "\n"
  }

  /** The foreach loop of Execute: one WriteLine per parameter, in order. */
  function ParameterText(parameters: seq<string>): string {
    if parameters == [] then ""
    else ParameterText(parameters[..|parameters| - 1]) + LineText(parameters[|parameters| - 1])
  }

  /** Everything one Execute call writes: the parameters, then the trigger. */
  function CommandText(parameters: seq<string>): string {
    ParameterText(parameters) + LineText(ExecuteTrigger)
  }

  /** A stream written only by WriteLine ends at a line boundary. */
  predicate Terminated(s: string) {
    s == "" || s[|s| - 1] == '\n'
  }

  predicate NoLineBreaks(parameters: seq<string>) {
    forall p <- parameters :: '\n' !in p
  }

  /** The index of the first line break at or after `k`, or |s| when there is none
      (LineEndSkipsText and LineEndIsFirstBreak state that no break comes before it). */
  function LineEnd(s: string, k: nat): (i: nat)
    requires k <= |s|
    ensures k <= i <= |s|
    ensures i < |s| ==> s[i] == '\n'
    decreases |s| - k
  {
    if k == |s| || s[k] == '\n' then k else LineEnd(s, k + 1)
  }

  /** The lines the reader of a stream sees: split at each line break, the break itself
      dropped, a last unterminated fragment kept as a line of its own. */
  function Lines(s: string): seq<string>
    decreases |s|
  {
    if s == "" then []
    else
      var i := LineEnd(s, 0);
      if i == |s| then [s] else [s[..i]] + Lines(s[i + 1..])
  }

  /** No line break lies between `k` and the line end found from `k`. */
  lemma {:induction false} LineEndSkipsText(s: string, k: nat)
    requires k <= |s|
    ensures forall j :: k <= j < LineEnd(s, k) ==> s[j] != '\n'
    decreases |s| - k
  {
    if k < |s| && s[k] != '\n' {
      LineEndSkipsText(s, k + 1);
    }
  }

  /** A break with none before it, from `k` on, is the line end found from `k`. */
  lemma {:induction false} LineEndFrom(s: string, k: nat, i: nat)
    requires k <= i <= |s| && (i < |s| ==> s[i] == '\n')
    requires forall j :: k <= j < i ==> s[j] != '\n'
    ensures LineEnd(s, k) == i
    decreases i - k
  {
    if k < i {
      LineEndFrom(s, k + 1, i);
    }
  }

  /** The first line break is the one before which there is none. */
  lemma LineEndIsFirstBreak(s: string, i: nat)
    requires i <= |s| && (i < |s| ==> s[i] == '\n')
    requires forall j :: 0 <= j < i ==> s[j] != '\n'
    ensures LineEnd(s, 0) == i
  {
    LineEndFrom(s, 0, i);
  }

  /** A stream that starts with a complete line without breaks reads as that line first. */
  lemma LinesOfLine(t: string, rest: string)
    requires '\n' !in t
    ensures Lines(LineText(t) + rest) == [t] + Lines(rest)
  {
    var s := LineText(t) + rest;
    assert forall j | 0 <= j < |t| :: s[j] == t[j];
    LineEndIsFirstBreak(s, |t|);
    assert s[..|t|] == t;
    assert s[|t| + 1..] == rest;
  }

  /** A stream whose first line break is at `i` reads as the text before it, then the rest. */
  lemma LinesAtBreak(s: string, i: nat)
    requires i < |s| && s[i] == '\n'
    requires forall j :: 0 <= j < i ==> s[j] != '\n'
    ensures Lines(s) == [s[..i]] + Lines(s[i + 1..])
  {
    LineEndIsFirstBreak(s, i);
  }

  /** Slicing `a + b` inside `a` slices `a`. */
  lemma SliceOfAppend(a: string, b: string, k: nat)
    requires k <= |a|
    ensures (a + b)[..k] == a[..k]
    ensures (a + b)[k..] == a[k..] + b
  {
    assert forall j | 0 <= j < |a| - k + |b| :: (a + b)[k..][j] == (a[k..] + b)[j];
  }

  /** The first line of a terminated stream is unchanged by what is appended after it. */
  lemma FirstLineOfAppend(a: string, b: string) returns (i: nat)
    requires Terminated(a) && a != ""
    ensures i < |a| && Terminated(a[i + 1..])
    ensures Lines(a) == [a[..i]] + Lines(a[i + 1..])
    ensures Lines(a + b) == [a[..i]] + Lines(a[i + 1..] + b)
  {
    i := LineEnd(a, 0);
    LineEndSkipsText(a, 0);
    assert a[|a| - 1] == '\n';
    var rest := a[i + 1..];
    assert Terminated(rest) by {
      if rest != "" {
        assert rest[|rest| - 1] == a[|a| - 1];
      }
    }
    LinesAtBreak(a, i);
    assert Lines(a + b) == [a[..i]] + Lines(rest + b) by {
      var s := a + b;
      forall j | 0 <= j <= i
        ensures s[j] == a[j]
      {
      }
      LinesAtBreak(s, i);
      SliceOfAppend(a, b, i);
      SliceOfAppend(a, b, i + 1);
    }
  }

  /** Appending to a stream that ends at a line boundary appends lines. */
  lemma {:induction false} LinesAppend(a: string, b: string)
    requires Terminated(a)
    ensures Lines(a + b) == Lines(a) + Lines(b)
    decreases |a|
  {
    if a == "" {
      assert a + b == b;
    } else {
      var i := FirstLineOfAppend(a, b);
      LinesAppend(a[i + 1..], b);
      assert [a[..i]] + (Lines(a[i + 1..]) + Lines(b)) == ([a[..i]] + Lines(a[i + 1..])) + Lines(b);
    }
  }

  /** Parameters without line breaks go out as exactly one line each, in order. */
  lemma {:induction false} ParameterLines(parameters: seq<string>)
    requires NoLineBreaks(parameters)
    ensures Terminated(ParameterText(parameters))
    ensures Lines(ParameterText(parameters)) == parameters
    decreases |parameters|
  {
    if parameters != [] {
      var n := |parameters| - 1;
      var init := parameters[..n];
      assert NoLineBreaks(init) by {
        forall p <- init ensures '\n' !in p {
          assert p in parameters;
        }
      }
      ParameterLines(init);
      LinesAppend(ParameterText(init), LineText(parameters[n]));
      LinesOfLine(parameters[n], "");
      assert LineText(parameters[n]) + "" == LineText(parameters[n]);
      assert init + [parameters[n]] == parameters;
    }
  }

  /** One Execute call: the parameters as separate lines, in order, then `-execute`,
      with nothing in between. */
  lemma CommandLines(parameters: seq<string>)
    requires NoLineBreaks(parameters)
    ensures Terminated(CommandText(parameters))
    ensures Lines(CommandText(parameters)) == parameters + [ExecuteTrigger]
  {
    ParameterLines(parameters);
    LinesAppend(ParameterText(parameters), LineText(ExecuteTrigger));
    LinesOfLine(ExecuteTrigger, "");
    assert LineText(ExecuteTrigger) + "" == LineText(ExecuteTrigger);
  }

  /** The shutdown directive is one WriteLine but two lines on the wire. */
  lemma ShutdownLines()
    ensures Lines(LineText(ShutdownDirective)) == ["-stay_open", "False"]
  {
    assert LineText(ShutdownDirective) == LineText("-stay_open") + (LineText("False") + "");
    LinesOfLine("-stay_open", LineText("False") + "");
    LinesOfLine("False", "");
  }

  /** The last thing written to the stream is the shutdown directive. */
  predicate EndsWithShutdown(s: string) {
    var d := LineText(ShutdownDirective);
    |s| >= |d| && s[|s| - |d|..] == d
  }

  /** A parameter that holds a line break is not one line: exiftool sees two arguments. */
  lemma ParameterWithBreakSplits(x: string, y: string)
    requires '\n' !in x && '\n' !in y
    ensures Lines(CommandText([x + "\n" + y])) == [x, y, ExecuteTrigger]
  {
    var p := x + "\n" + y;
    var trigger := LineText(ExecuteTrigger);
    assert [p][..0] == [];
    assert ParameterText([p]) == LineText(p);
    assert CommandText([p]) == LineText(x) + (LineText(y) + (trigger + ""));
    assert '\n' !in ExecuteTrigger;
    LinesOfLine(ExecuteTrigger, "");
    LinesOfLine(y, trigger + "");
    LinesOfLine(x, LineText(y) + (trigger + ""));
  }

  // ---------------------------------------------------------------------------------
  // Inbound: the events the child delivers and where one command's output ends
  // ---------------------------------------------------------------------------------

  /** The stdout lines among `events`, in arrival order. */
  function StdOutLines(events: seq<Event>): seq<string> {
    if events == [] then []
    else
      var e := events[|events| - 1];
      StdOutLines(events[..|events| - 1]) + (if e.StdOut? then [e.data] else [])
  }

  /** The stderr lines among `events`, in arrival order. */
  function StdErrLines(events: seq<Event>): seq<string> {
    if events == [] then []
    else
      var e := events[|events| - 1];
      StdErrLines(events[..|events| - 1]) + (if e.StdErr? then [e.data] else [])
  }

  /** A stdout line that tells the wrapper the command is complete. */
  predicate IsMarkerLine(e: Event) {
    e.StdOut? && Contains(e.data, Marker)
  }

  /** The child eventually sends the marker; otherwise Execute blocks for ever. */
  predicate Completes(events: seq<Event>) {
    exists i | 0 <= i < |events| :: IsMarkerLine(events[i])
  }

  function CompletionFrom(events: seq<Event>, k: nat): (c: nat)
    requires exists i | k <= i < |events| :: IsMarkerLine(events[i])
    ensures k <= c < |events| && IsMarkerLine(events[c])
    ensures forall j :: k <= j < c ==> !IsMarkerLine(events[j])
    decreases |events| - k
  {
    if IsMarkerLine(events[k]) then k else CompletionFrom(events, k + 1)
  }

  /** The position of the first stdout line that contains the marker: the event at which
      both wrappers stop waiting. */
  function CompletionIndex(events: seq<Event>): (c: nat)
    requires Completes(events)
    ensures c < |events| && IsMarkerLine(events[c])
    ensures forall j :: 0 <= j < c ==> !IsMarkerLine(events[j])
  {
    CompletionFrom(events, 0)
  }

  /** Taking one event more adds its line to the matching stream only. */
  lemma LinesSnoc(events: seq<Event>, k: nat)
    requires k < |events|
    ensures StdOutLines(events[..k + 1]) ==
      StdOutLines(events[..k]) + (if events[k].StdOut? then [events[k].data] else [])
    ensures StdErrLines(events[..k + 1]) ==
      StdErrLines(events[..k]) + (if events[k].StdErr? then [events[k].data] else [])
  {
    assert events[..k + 1][..k] == events[..k];
  }

  /** Splitting the events splits the stdout lines at the same place. */
  lemma {:induction false} StdOutLinesAppend(a: seq<Event>, b: seq<Event>)
    ensures StdOutLines(a + b) == StdOutLines(a) + StdOutLines(b)
    decreases |b|
  {
    if b == [] {
      assert a + b == a;
    } else {
      var n := |b| - 1;
      assert (a + b)[..|a + b| - 1] == a + b[..n];
      StdOutLinesAppend(a, b[..n]);
    }
  }

  /** Splitting the events splits the stderr lines at the same place. */
  lemma {:induction false} StdErrLinesAppend(a: seq<Event>, b: seq<Event>)
    ensures StdErrLines(a + b) == StdErrLines(a) + StdErrLines(b)
    decreases |b|
  {
    if b == [] {
      assert a + b == a;
    } else {
      var n := |b| - 1;
      assert (a + b)[..|a + b| - 1] == a + b[..n];
      StdErrLinesAppend(a, b[..n]);
    }
  }

  /** Events that carry no marker deliver no stdout line that contains one. */
  lemma {:induction false} MarkerFreeLines(events: seq<Event>)
    requires forall i :: 0 <= i < |events| ==> !IsMarkerLine(events[i])
    ensures forall l <- StdOutLines(events) :: !Contains(l, Marker)
    decreases |events|
  {
    if events != [] {
      var n := |events| - 1;
      MarkerFreeLines(events[..n]);
    }
  }

  /** `{ready}` cannot start inside a string free of it and end inside a `{ready}` that
      follows: only its first character is `{`. So after marker-free text the first
      occurrence is the appended marker. */
  lemma MarkerAfterCleanText(p: string, t: string)
    requires !Contains(p, Marker)
    ensures IndexOf(p + Marker + t, Marker) == |p|
  {
    var s := p + Marker + t;
    assert OccursAt(s, Marker, |p|) by {
      assert s[|p|..|p| + |Marker|] == Marker;
    }
    forall j | 0 <= j < |p|
      ensures !OccursAt(s, Marker, j)
    {
      if j + |Marker| <= |p| {
        assert s[j..j + |Marker|] == p[j..j + |Marker|];
        assert !OccursAt(p, Marker, j);
      } else if j + |Marker| <= |s| {
        var d := |p| - j;
        assert 1 <= d < |Marker|;
        assert s[j..j + |Marker|][d] == s[|p|] == '{';
        assert Marker[d] != '{';
      }
    }
  }
}
