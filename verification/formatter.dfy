/** Turning the events of one evaluation into the single reply shown to the
    user (JShellEvaluator.eval after `evalAll`). Printing a stack trace is not
    modelled: `trace` gives the text printed for an exception. */
module Formatter {
  import opened Wrappers
  import opened Text
  import opened Snippets
  import opened Reconstitution
  import opened Diagnostics

  /** An event the reply is built from: it carries an exception, or is a VALID
      variable, method, type or expression snippet, or is REJECTED. */
  predicate Reportable(e: Event) {
    || e.exception.Some?
    || (e.status == Valid && e.snippet.kind in {VarKind, MethodKind, TypeDeclKind, ExpressionKind})
    || e.status == Rejected
  }

  /** The exception that gets printed: an `EvalException` is reconstituted, any
      other `JShellException` is printed as it is. */
  function Shown(x: JShellException, host: Reflection): Live {
    match x
    case EvalException(d) => Convert(d, host)
    case UnresolvedReference(_, _) => Original(x)
  }

  /** The header followed by one indented line per rendered line, as appended
      one by one to the reply. */
  function ErrorText(lines: seq<string>): string {
    if lines == [] then "|  Error:"
    else ErrorText(lines[..|lines| - 1]) + "\n|  " + lines[|lines| - 1]
  }

  /** Each rendered line with the display indentation. */
  function Indented(lines: seq<string>): (r: seq<string>)
    ensures |r| == |lines|
    ensures forall i :: 0 <= i < |lines| ==> r[i] == "|  " + lines[i]
  {
    seq(|lines|, i requires 0 <= i < |lines| => "|  " + lines[i])
  }

  /** The reply for one event, or `None` when the loop moves on to the next event. */
  function Verdict(e: Event, host: Reflection, trace: Live -> string): (r: Option<Result<string, Fault>>)
    ensures r.Some? <==> Reportable(e)
    ensures e.exception.Some? ==> r == Some(Success(trace(Shown(e.exception.value, host))))
    ensures e.exception.None? && e.status == Valid && r.Some? ==> r.value.Success?
    ensures e.exception.None? && e.status == Valid ==>
      && (e.snippet.kind == VarKind ==> r == Some(Success(e.snippet.name + " ==> " + e.value)))
      && (e.snippet.kind == MethodKind ==> r == Some(Success("|  created method " + e.snippet.name + "()")))
      && (e.snippet.kind == TypeDeclKind ==> r == Some(Success("|  created class " + e.snippet.name)))
      && (e.snippet.kind == ExpressionKind ==> r == Some(Success("")))
    ensures e.exception.None? && e.status == Rejected ==>
      (r.value.Failure? <==> |e.diagnostics| == 0 || e.diagnostics[0].startPosition < 0)
  {
    if e.exception.Some? then Some(Success(trace(Shown(e.exception.value, host))))
    else if e.status == Valid && e.snippet.kind == VarKind then
      Some(Success(e.snippet.name + " ==> " + e.value))
    else if e.status == Valid && e.snippet.kind == MethodKind then
      Some(Success("|  created method " + e.snippet.name + "()"))
    else if e.status == Valid && e.snippet.kind == TypeDeclKind then
      Some(Success("|  created class " + e.snippet.name))
    else if e.status == Valid && e.snippet.kind == ExpressionKind then
      Some(Success(""))
    else if e.status == Rejected then
      if |e.diagnostics| == 0 then Some(Failure(NoDiagnosticPresent))
      else
        var d := e.diagnostics[0];
        match Render(d.message, e.snippet.source, d.startPosition, d.endPosition)
        case Failure(f) => Some(Failure(f))
        case Success(lines) => Some(Success(ErrorText(lines)))
    else None
  }

  /** A per-event reply as the reply of the whole call. */
  function Lift(v: Result<string, Fault>): Result<Option<string>, Fault> {
    match v
    case Success(s) => Success(Some(s))
    case Failure(f) => Failure(f)
  }

  /** The reply of a call: that of the first reportable event, or no reply
      (`null`) when no event is reportable. */
  function Format(events: seq<Event>, host: Reflection, trace: Live -> string): (r: Result<Option<string>, Fault>)
    ensures r == Success(None) <==> forall i :: 0 <= i < |events| ==> !Reportable(events[i])
    ensures forall i :: 0 <= i < |events| && Reportable(events[i])
                        && (forall j :: 0 <= j < i ==> !Reportable(events[j])) ==>
      r == Lift(Verdict(events[i], host, trace).value)
  {
    if events == [] then Success(None)
    else match Verdict(events[0], host, trace)
      case Some(v) => Lift(v)
      case None =>
        var r := Format(events[1..], host, trace);
        assert forall i :: 1 <= i < |events| ==> events[i] == events[1..][i - 1];
        r
  }

  /** The error reply, read back line by line, is the header followed by each
      rendered line with the display indentation. */
  lemma {:induction false} ErrorTextLines(lines: seq<string>)
    requires forall i :: 0 <= i < |lines| ==> '\n' !in lines[i]
    ensures SplitAll(ErrorText(lines), '\n') == ["|  Error:"] + Indented(lines)
  {
    ErrorTextIsJoin(lines);
    var pieces := ["|  Error:"] + Indented(lines);
    forall i | 0 <= i < |pieces| ensures '\n' !in pieces[i] {
      if i > 0 {
        assert pieces[i] == "|  " + lines[i - 1];
      }
    }
    SplitAllJoin(pieces, '\n');
  }

  lemma {:induction false} ErrorTextIsJoin(lines: seq<string>)
    ensures ErrorText(lines) == Join(["|  Error:"] + Indented(lines), '\n')
    decreases |lines|
  {
    if lines != [] {
      var init := lines[..|lines| - 1];
      var last := "|  " + lines[|lines| - 1];
      var before := ["|  Error:"] + Indented(init);
      ErrorTextIsJoin(init);
      assert ["|  Error:"] + Indented(lines) == before + [last] by {
        forall i | 0 <= i < |lines| ensures Indented(lines)[i] == (Indented(init) + [last])[i] {
          if i < |init| { assert lines[i] == init[i]; }
        }
      }
      JoinSnoc(before, last, '\n');
      assert ErrorText(lines) == ErrorText(init) + "\n|  " + lines[|lines| - 1];
      assert "\n|  " + lines[|lines| - 1] == ['\n'] + last;
    }
  }

  /** A REJECTED event whose first diagnostic starts at a valid offset is
      reported as the error header followed by one indented line per kept message
      line, then the source line of the error, then its marker. */
  lemma RejectedReplyLines(e: Event, host: Reflection, trace: Live -> string)
    requires e.exception.None? && e.status == Rejected
    requires |e.diagnostics| > 0 && e.diagnostics[0].startPosition >= 0
    ensures var d := e.diagnostics[0];
      var rendered := Render(d.message, e.snippet.source, d.startPosition, d.endPosition);
      && rendered.Success?
      && Verdict(e, host, trace) == Some(Success(ErrorText(rendered.value)))
      && SplitAll(ErrorText(rendered.value), '\n') == ["|  Error:"] + Indented(rendered.value)
  {
    var d := e.diagnostics[0];
    RenderedLinesUnbroken(d.message, e.snippet.source, d.startPosition, d.endPosition);
    ErrorTextLines(Render(d.message, e.snippet.source, d.startPosition, d.endPosition).value);
  }
}
