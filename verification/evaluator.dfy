/** The evaluator's input buffer and evaluation loop (JShellEvaluator.evalAll,
    isHoldingIncompleteScript, eval). The JShell library is not part of this
    model: `analyze` answers its completeness analysis and `exec` evaluates one
    complete unit in the shell state `S`, returning the next state and the
    unit's snippet events. */
module Evaluator {
  import opened Wrappers
  import opened Snippets
  import opened Reconstitution
  import opened Formatter

  /** `analyzeCompletion`: incomplete, or a complete unit and the text after it. */
  datatype Completion = Incomplete | Complete(source: string, remaining: string)

  /** The analysis always consumes something: a non-empty remainder is shorter
      than the text it was split from, so the loop terminates. */
  ghost predicate Progressive(analyze: string -> Completion) {
    forall s :: analyze(s).Complete? && analyze(s).remaining != [] ==> |analyze(s).remaining| < |s|
  }

  /** One evaluator: the buffer of held incomplete text and the shell behind it. */
  datatype Session<S> = Session(buffer: string, shell: S)

  /** The state after a call of `evalAll` and the events it returns. */
  datatype Step<S> = Step(session: Session<S>, events: seq<Event>)

  /** `isHoldingIncompleteScript`: the buffer holds text. */
  predicate IsHoldingIncompleteScript<S>(st: Session<S>) {
    |st.buffer| > 0
  }

  /** The text analysed first: the held text, if any, followed by the input. */
  function Candidate<S>(st: Session<S>, input: string): string {
    if IsHoldingIncompleteScript(st) then st.buffer + input else input
  }

  /** The `while (true)` loop of `evalAll`, with `buffer` the buffer's content
      when the iteration starts. */
  function Loop<S>(shell: S, buffer: string, script: string,
                   analyze: string -> Completion, exec: (S, string) -> (S, seq<Event>)): (r: Step<S>)
    requires Progressive(analyze)
    ensures r.events != [] ==> r.session.buffer == []
    ensures analyze(script).Complete? ==> r.session.buffer == Peel(script, analyze).rest
    decreases |script|
  {
    match analyze(script)
    case Incomplete => Step(Session(buffer + script, shell), [])
    case Complete(source, remaining) =>
      var (next, events) := exec(shell, source);
      if remaining == [] then Step(Session([], next), events)
      else Loop(next, [], remaining, analyze, exec)
  }

  /** The split of a text into its complete units, in order, and the incomplete
      text left after them (empty when everything was consumed). */
  datatype Peeled = Peeled(units: seq<string>, rest: string)

  function Peel(script: string, analyze: string -> Completion): (r: Peeled)
    requires Progressive(analyze)
    ensures r.units == [] <==> analyze(script).Incomplete?
    ensures r.rest == [] || analyze(r.rest).Incomplete?
    ensures |r.rest| <= |script|
    decreases |script|
  {
    match analyze(script)
    case Incomplete => Peeled([], script)
    case Complete(source, remaining) =>
      if remaining == [] then Peeled([source], [])
      else
        var p := Peel(remaining, analyze);
        Peeled([source] + p.units, p.rest)
  }

  /** Evaluating units one after another: the final shell state and the events
      of the last unit. */
  datatype Ran<S> = Ran(shell: S, events: seq<Event>)

  function Run<S>(shell: S, units: seq<string>, exec: (S, string) -> (S, seq<Event>)): Ran<S>
    decreases |units|
  {
    if units == [] then Ran(shell, [])
    else
      var (next, events) := exec(shell, units[0]);
      if |units| == 1 then Ran(next, events) else Run(next, units[1..], exec)
  }

  /** Running units reports exactly the events of the last one, evaluated in
      the state all earlier units left behind. */
  lemma {:induction false} RunReportsLastUnit<S>(shell: S, units: seq<string>, exec: (S, string) -> (S, seq<Event>))
    requires |units| > 0
    ensures var before := Run(shell, units[..|units| - 1], exec).shell;
      var last := exec(before, units[|units| - 1]);
      Run(shell, units, exec) == Ran(last.0, last.1)
    decreases |units|
  {
    if |units| > 1 {
      var next := exec(shell, units[0]).0;
      RunReportsLastUnit(next, units[1..], exec);
      assert units[1..][..|units| - 2] == units[..|units| - 1][1..];
      assert units[1..][|units| - 2] == units[|units| - 1];
    }
  }

  /** Interleaving analysis and evaluation, as the loop does, is the same as
      splitting the whole text into units first and then running them in order:
      the remainder is held, and events are returned only when nothing is held. */
  lemma {:induction false} LoopIsPeelThenRun<S>(shell: S, script: string,
      analyze: string -> Completion, exec: (S, string) -> (S, seq<Event>))
    requires Progressive(analyze)
    ensures var p := Peel(script, analyze);
      var run := Run(shell, p.units, exec);
      Loop(shell, [], script, analyze, exec)
        == Step(Session(p.rest, run.shell), if p.rest == [] then run.events else [])
    decreases |script|
  {
    match analyze(script)
    case Incomplete =>
    case Complete(source, remaining) =>
      if remaining != [] {
        var next := exec(shell, source).0;
        LoopIsPeelThenRun(next, remaining, analyze, exec);
        var p := Peel(remaining, analyze);
        assert ([source] + p.units)[1..] == p.units;
      }
  }

  /** `evalAll`: an incomplete candidate is appended, already prefixed by the
      held text, to the held text, and nothing is returned; otherwise the held
      text is dropped, every complete unit is evaluated in order, an incomplete
      remainder becomes the held text, and only when nothing remains held are the
      last unit's events returned. */
  function EvalAll<S>(st: Session<S>, input: string,
                      analyze: string -> Completion, exec: (S, string) -> (S, seq<Event>)): (r: Step<S>)
    requires Progressive(analyze)
    ensures var c := Candidate(st, input);
      analyze(c).Incomplete? ==> r == Step(Session(st.buffer + c, st.shell), [])
    ensures var c := Candidate(st, input);
      var p := Peel(c, analyze);
      var run := Run(st.shell, p.units, exec);
      analyze(c).Complete? ==>
        && r.session == Session(p.rest, run.shell)
        && r.events == (if p.rest == [] then run.events else [])
    ensures IsHoldingIncompleteScript(r.session) ==> r.events == []
  {
    var c := Candidate(st, input);
    LoopIsPeelThenRun(st.shell, c, analyze, exec);
    Loop(st.shell, st.buffer, c, analyze, exec)
  }

  /** After `evalAll` the evaluator holds text exactly when the text it analysed
      ends in an incomplete fragment that is not empty. */
  lemma HoldingAfterEvalAll<S>(st: Session<S>, input: string,
      analyze: string -> Completion, exec: (S, string) -> (S, seq<Event>))
    requires Progressive(analyze)
    ensures IsHoldingIncompleteScript(EvalAll(st, input, analyze, exec).session)
            <==> Peel(Candidate(st, input), analyze).rest != []
  {
  }

  /** The state after a call of `eval` and its reply: `None` for `null`, or the
      fault that escapes. */
  datatype Answer<S> = Answer(session: Session<S>, reply: Result<Option<string>, Fault>)

  /** `eval`: the reply of a call. While text is held there is no reply, and a
      reply is only ever given with an empty buffer. */
  function Eval<S>(st: Session<S>, input: string,
                   analyze: string -> Completion, exec: (S, string) -> (S, seq<Event>),
                   host: Reflection, trace: Live -> string): (r: Answer<S>)
    requires Progressive(analyze)
    ensures IsHoldingIncompleteScript(r.session) ==> r.reply == Success(None)
    ensures r.reply != Success(None) ==> r.session.buffer == []
    ensures var step := EvalAll(st, input, analyze, exec);
      r.reply == Success(None) <==> forall i :: 0 <= i < |step.events| ==> !Reportable(step.events[i])
  {
    var step := EvalAll(st, input, analyze, exec);
    Answer(step.session, Format(step.events, host, trace))
  }

  /** `evalAll` with the held text replaced by, not extended with, an incomplete
      candidate, as the buffer is evidently meant to hold the pending text once. */
  function EvalAllIntended<S>(st: Session<S>, input: string,
                              analyze: string -> Completion, exec: (S, string) -> (S, seq<Event>)): (r: Step<S>)
    requires Progressive(analyze)
    ensures analyze(Candidate(st, input)).Incomplete? ==>
      r == Step(Session(Candidate(st, input), st.shell), [])
  {
    Loop(st.shell, [], Candidate(st, input), analyze, exec)
  }

  /** With the intended buffer, holding `a` and then entering `b` behaves exactly
      like entering `a + b` at once. */
  lemma BufferMergeEquivalence<S>(shell: S, a: string, b: string,
      analyze: string -> Completion, exec: (S, string) -> (S, seq<Event>))
    requires Progressive(analyze)
    requires analyze(a).Incomplete?
    ensures var first := EvalAllIntended(Session([], shell), a, analyze, exec);
      && first == Step(Session(a, shell), [])
      && EvalAllIntended(first.session, b, analyze, exec)
           == EvalAllIntended(Session([], shell), a + b, analyze, exec)
  {
    if a == [] {
      assert a + b == b;
    }
  }

  /** Under an analysis that finds every text incomplete, entering `a` and then
      `b` leaves `aab` held, while entering `ab` at once leaves `ab`. */
  lemma BufferDoublingCounterexample()
    ensures var analyze := (s: string) => Incomplete;
      var exec := (n: int, src: string) => (n, []);
      && EvalAll(EvalAll(Session([], 0), "a", analyze, exec).session, "b", analyze, exec).session.buffer == "aab"
      && EvalAll(Session([], 0), "ab", analyze, exec).session.buffer == "ab"
  {
    var analyze := (s: string) => Incomplete;
    var exec := (n: int, src: string) => (n, []);
    var first := EvalAll(Session([], 0), "a", analyze, exec);
    assert first.session == Session("a", 0);
    assert "a" + "b" == "ab";
    assert "a" + "ab" == "aab";
  }
}
