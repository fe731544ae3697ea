/** The values the JShell library hands to the evaluator: snippet events, their
    diagnostics and the exceptions user code raised. The library itself is not
    part of this model; every value it would compute on demand (a variable's
    rendered value, a snippet's diagnostics) is carried in the event. */
module Snippets {
  import opened Wrappers

  /** `Snippet.Status`. */
  datatype Status =
    | Valid
    | RecoverableDefined
    | RecoverableNotDefined
    | Dropped
    | Overwritten
    | Rejected
    | Nonexistent

  /** The concrete `Snippet` subclass; the evaluator tests them with `instanceof`. */
  datatype Kind =
    | VarKind
    | MethodKind
    | TypeDeclKind
    | ExpressionKind
    | ImportKind
    | StatementKind
    | ErroneousKind

  datatype Snippet = Snippet(kind: Kind, name: string, source: string)

  /** A compiler diagnostic: `getMessage(null)` and the span's offsets into the snippet source. */
  datatype Diag = Diag(message: string, startPosition: int, endPosition: int)

  /** What an `EvalException` carries across the execution boundary. */
  datatype Descriptor = Descriptor(
    className: string,
    message: Option<string>,
    cause: Option<Descriptor>,
    stackTrace: seq<string>)

  /** The two `JShellException`s a snippet event may carry. */
  datatype JShellException =
    | EvalException(descriptor: Descriptor)
    | UnresolvedReference(snippetName: string, stackTrace: seq<string>)

  /** A `SnippetEvent`, together with the library's answers about its snippet:
      `value` is what `varValue` renders and `diagnostics` what `diagnostics` streams. */
  datatype Event = Event(
    exception: Option<JShellException>,
    status: Status,
    snippet: Snippet,
    value: string,
    diagnostics: seq<Diag>)

  /** Runtime exceptions the evaluator itself lets escape. */
  datatype Fault =
    | NoDiagnosticPresent     // `findAny().get()` on an empty stream
    | NegativeStartPosition   // a negative array size or substring bound
}
