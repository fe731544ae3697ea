/** Rebuilding a live exception of the original class from an `EvalException`
    (JShellEvaluator.convertJShellException). Reflection is not modelled: whether a
    class name resolves, whether it is an `Exception`, and whether a constructor of
    a given shape exists and completes are answered by a `Reflection` oracle. */
module Reconstitution {
  import opened Wrappers
  import opened Snippets

  /** Constructor signatures, in the order they are tried. */
  datatype Shape = MessageAndCause | MessageOnly | CauseOnly | NoArgs

  /** Position of a shape in the order of preference. */
  function Rank(s: Shape): nat {
    match s
    case MessageAndCause => 0
    case MessageOnly => 1
    case CauseOnly => 2
    case NoArgs => 3
  }

  /** The host's answers to the reflective questions the conversion asks.
      `constructs(c, s)`: class `c` has a public constructor of shape `s` and
      invoking it with the descriptor's arguments returns normally. */
  datatype Reflection = Reflection(
    resolves: string -> bool,
    isException: string -> bool,
    constructs: (string, Shape) -> bool)

  /** Some constructor shape of class `c` exists and completes. */
  predicate SomeShapeConstructs(c: string, host: Reflection) {
    || host.constructs(c, MessageAndCause)
    || host.constructs(c, MessageOnly)
    || host.constructs(c, CauseOnly)
    || host.constructs(c, NoArgs)
  }

  /** The exception that ends up being printed: either the one JShell reported,
      or a fresh instance of the original class built with `shape`, receiving
      `message` and `cause` as arguments when the shape takes them, and carrying
      the original stack trace. */
  datatype Live =
    | Original(exception: JShellException)
    | Rebuilt(className: string, shape: Shape, message: Option<string>,
              cause: Option<Descriptor>, stackTrace: seq<string>)

  /** The instance a successful constructor call of shape `s` yields, after `setStackTrace`. */
  function Instantiate(d: Descriptor, s: Shape): Live {
    var message := if s == MessageAndCause || s == MessageOnly then d.message else None;
    var cause := if s == MessageAndCause || s == CauseOnly then d.cause else None;
    Rebuilt(d.className, s, message, cause, d.stackTrace)
  }

  /** Best-effort reconstitution: the original is kept unless the class resolves
      to an `Exception` subtype and some constructor shape succeeds, in which case
      the first successful shape in the order of preference is used. */
  function Convert(d: Descriptor, host: Reflection): (r: Live)
    ensures !(host.resolves(d.className) && host.isException(d.className)) ==>
      r == Original(EvalException(d))
    ensures r.Original? <==>
      !(host.resolves(d.className) && host.isException(d.className))
      || !SomeShapeConstructs(d.className, host)
    ensures r.Original? ==> r == Original(EvalException(d))
    ensures r.Rebuilt? ==>
      && host.constructs(d.className, r.shape)
      && (forall s: Shape :: Rank(s) < Rank(r.shape) ==> !host.constructs(d.className, s))
      && r == Instantiate(d, r.shape)
    ensures r.Rebuilt? ==> r.className == d.className && r.stackTrace == d.stackTrace
  {
    var c := d.className;
    if !host.resolves(c) || !host.isException(c) then Original(EvalException(d))
    else if host.constructs(c, MessageAndCause) then Instantiate(d, MessageAndCause)
    else if host.constructs(c, MessageOnly) then Instantiate(d, MessageOnly)
    else if host.constructs(c, CauseOnly) then Instantiate(d, CauseOnly)
    else if host.constructs(c, NoArgs) then Instantiate(d, NoArgs)
    else
      Original(EvalException(d))
  }
}
