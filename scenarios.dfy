/** A session as the test programs drive one: construct, execute in sequence, dispose,
    against a child stand-in that echoes each parameter as `ECHO:<parameter>` and then
    prints `{ready}` on a line of its own. */
module Scenarios {
  import opened Text
  import opened StayOpen
  import ExifTool
  import ExifToolUtils

  /** The echo stand-in's reply to one command. */
  function EchoReply(parameters: seq<string>): (reply: seq<Event>)
    ensures |reply| == |parameters| + 1 && reply[|parameters|] == StdOut(Marker)
  {
    if parameters == [] then [StdOut(Marker)]
    else [StdOut("ECHO:" + parameters[0])] + EchoReply(parameters[1..])
  }

  /** The `ECHO:` prefix holds no `{`, so an echo holds the marker only if the echoed
      parameter does. */
  lemma EchoHasNoMarker(p: string)
    requires !Contains(p, Marker)
    ensures !Contains("ECHO:" + p, Marker)
  {
    var s := "ECHO:" + p;
    forall j | 0 <= j <= |s| - |Marker|
      ensures !OccursAt(s, Marker, j)
    {
      if j < 5 {
        assert s[j..j + |Marker|][0] == s[j] != '{';
      } else {
        assert s[j..j + |Marker|] == p[j - 5..j - 5 + |Marker|];
        assert !OccursAt(p, Marker, j - 5);
      }
    }
  }

  /** Replies of the stand-in never hold the marker before the last line, which does. */
  lemma {:induction false} EchoReplyCompletes(parameters: seq<string>)
    requires forall p <- parameters :: !Contains("ECHO:" + p, Marker)
    ensures Completes(EchoReply(parameters))
    ensures CompletionIndex(EchoReply(parameters)) == |parameters|
    decreases |parameters|
  {
    var es := EchoReply(parameters);
    if parameters == [] {
      assert OccursAt(es[0].data, Marker, 0) by { assert Marker[0..|Marker|] == Marker; }
    } else {
      var rest := parameters[1..];
      assert forall p <- rest :: p in parameters;
      EchoReplyCompletes(rest);
      assert es[1..] == EchoReply(rest);
      assert IsMarkerLine(es[|parameters|]);
      assert forall j :: 0 < j < |parameters| ==> es[j] == EchoReply(rest)[j - 1];
    }
  }

  /** The stdout lines the stand-in echoes, one per parameter. */
  function Echoed(parameters: seq<string>): seq<string> {
    if parameters == [] then [] else ["ECHO:" + parameters[0]] + Echoed(parameters[1..])
  }

  /** Before its marker line the stand-in delivers exactly the echoed lines on stdout and
      nothing on stderr. */
  lemma {:induction false} EchoReplyLines(parameters: seq<string>)
    ensures StdOutLines(EchoReply(parameters)[..|parameters|]) == Echoed(parameters)
    ensures StdErrLines(EchoReply(parameters)[..|parameters|]) == []
    decreases |parameters|
  {
    if parameters != [] {
      var rest := parameters[1..];
      var head := [StdOut("ECHO:" + parameters[0])];
      var tail := EchoReply(rest);
      EchoReplyLines(rest);
      assert EchoReply(parameters) == head + tail;
      assert (head + tail)[..|parameters|] == head + tail[..|rest|];
      StdOutLinesAppend(head, tail[..|rest|]);
      StdErrLinesAppend(head, tail[..|rest|]);
      assert head[..0] == [];
      assert StdOutLines(head) == ["ECHO:" + parameters[0]];
      assert StdErrLines(head) == [];
    }
  }

  /** Both wrappers answer an echo round trip with the echoed lines (the list variant) or
      their separator-free join (the text variant), and with no stderr. */
  lemma EchoRoundTrip(parameters: seq<string>)
    requires forall p <- parameters :: !Contains(p, Marker)
    ensures Completes(EchoReply(parameters))
    ensures ExifTool.ExpectedResult(EchoReply(parameters)) == ExifTool.ExecuteResult(Echoed(parameters), [])
    ensures ExifToolUtils.ExpectedOutput(EchoReply(parameters)) == ExifToolUtils.Output(Concat(Echoed(parameters)), "")
  {
    forall p <- parameters ensures !Contains("ECHO:" + p, Marker) {
      EchoHasNoMarker(p);
    }
    EchoReplyCompletes(parameters);
    EchoReplyLines(parameters);
    var es := EchoReply(parameters);
    ExifToolUtils.MarkerLineDiscardsTail("", "");
    assert "" + Marker + "" == Marker;
    assert !Contains("", Marker);
    ReplaceAllEmpty(Marker, Marker);
    assert Repeats(Marker[|Marker|..], Marker);
  }

  /** One command on a live Wrapper against the echo stand-in. */
  method WrapperEcho(w: ExifTool.Wrapper, parameters: seq<string>)
    returns (r: Result<ExifTool.ExecuteResult>)
    requires w.Valid() && !w.disposed
    requires NoLineBreaks(parameters) && forall p <- parameters :: !Contains(p, Marker)
    modifies w`stdin
    ensures w.Valid() && w.Sent() == old(w.Sent()) + parameters + [ExecuteTrigger]
    ensures r == Ok(ExifTool.ExecuteResult(Echoed(parameters), []))
  {
    EchoRoundTrip(parameters);
    r := w.Execute(parameters, EchoReply(parameters));
  }

  /** One command on a live StayOpenWrapper against the echo stand-in. */
  method StayOpenEcho(w: ExifToolUtils.StayOpenWrapper, parameters: seq<string>)
    returns (r: Result<ExifToolUtils.Output>)
    requires w.Valid() && !w.disposed
    requires NoLineBreaks(parameters) && forall p <- parameters :: !Contains(p, Marker)
    modifies w`stdin
    ensures w.Valid() && w.Sent() == old(w.Sent()) + parameters + [ExecuteTrigger]
    ensures r == Ok(ExifToolUtils.Output(Concat(Echoed(parameters)), ""))
  {
    EchoRoundTrip(parameters);
    r := w.Execute(parameters, EchoReply(parameters));
  }

  /** Dispose twice, then one more command on a Wrapper: the command fails without a
      write, and the child has read one shutdown directive after what it had before. */
  method WrapperClose(w: ExifTool.Wrapper, parameters: seq<string>)
    returns (r: Result<ExifTool.ExecuteResult>)
    requires w.Valid()
    requires !w.disposed
    modifies w
    ensures w.Valid() && w.disposed
    ensures r == Err(ObjectDisposed)
    ensures w.Sent() == old(w.Sent()) + ["-stay_open", "False"]
  {
    w.Dispose();
    ghost var closed := w.Sent();
    w.Dispose();
    r := w.Execute(parameters, []);
    assert w.Sent() == closed;
  }

  /** The same on a StayOpenWrapper. */
  method StayOpenClose(w: ExifToolUtils.StayOpenWrapper, parameters: seq<string>)
    returns (r: Result<ExifToolUtils.Output>)
    requires w.Valid()
    requires !w.disposed
    modifies w
    ensures w.Valid() && w.disposed
    ensures r == Err(ObjectDisposed)
    ensures w.Sent() == old(w.Sent()) + ["-stay_open", "False"]
  {
    w.Dispose();
    ghost var closed := w.Sent();
    w.Dispose();
    r := w.Execute(parameters, []);
    assert w.Sent() == closed;
  }

  /** Two commands in a row on one Wrapper, then Dispose twice, then a third command:
      each command gets exactly its own echo, the command after Dispose fails without a
      write, and the child has read the two commands and one shutdown directive. */
  method WrapperSession(a: seq<string>, b: seq<string>)
    returns (first: Result<ExifTool.ExecuteResult>, second: Result<ExifTool.ExecuteResult>,
             afterDispose: Result<ExifTool.ExecuteResult>, sent: seq<string>)
    requires NoLineBreaks(a) && NoLineBreaks(b)
    requires forall p <- a :: !Contains(p, Marker)
    requires forall p <- b :: !Contains(p, Marker)
    ensures first == Ok(ExifTool.ExecuteResult(Echoed(a), []))
    ensures second == Ok(ExifTool.ExecuteResult(Echoed(b), []))
    ensures afterDispose == Err(ObjectDisposed)
    ensures sent == a + [ExecuteTrigger] + b + [ExecuteTrigger] + ["-stay_open", "False"]
  {
    var w := new ExifTool.Wrapper();
    assert w.Sent() == [];
    first := WrapperEcho(w, a);
    second := WrapperEcho(w, b);
    afterDispose := WrapperClose(w, a);
    sent := w.Sent();
  }

  /** The same session on a StayOpenWrapper: the echoed lines come back joined. */
  method StayOpenSession(a: seq<string>, b: seq<string>)
    returns (first: Result<ExifToolUtils.Output>, second: Result<ExifToolUtils.Output>,
             afterDispose: Result<ExifToolUtils.Output>, sent: seq<string>)
    requires NoLineBreaks(a) && NoLineBreaks(b)
    requires forall p <- a :: !Contains(p, Marker)
    requires forall p <- b :: !Contains(p, Marker)
    ensures first == Ok(ExifToolUtils.Output(Concat(Echoed(a)), ""))
    ensures second == Ok(ExifToolUtils.Output(Concat(Echoed(b)), ""))
    ensures afterDispose == Err(ObjectDisposed)
    ensures sent == a + [ExecuteTrigger] + b + [ExecuteTrigger] + ["-stay_open", "False"]
  {
    var w := new ExifToolUtils.StayOpenWrapper();
    assert w.Sent() == [];
    first := StayOpenEcho(w, a);
    second := StayOpenEcho(w, b);
    afterDispose := StayOpenClose(w, a);
    sent := w.Sent();
  }
}
