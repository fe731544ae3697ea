# JShell evaluator and class-loading bridge, modelled in Dafny

This project models the core of an in-game Java REPL. The REPL is built on the
JDK's JShell library and runs inside a Spigot server. The model covers two pieces.

- **The evaluator** (`JShellEvaluator`):
  - the buffer that holds incomplete input between calls;
  - the `evalAll` loop, which feeds complete units to the shell one at a time;
  - `eval`, which turns the snippet events of a call into one reply string (or
    `null`);
  - `convertJShellException`, which rebuilds a live exception of the original
    class;
  - `displayDiagnostics`, which renders a compiler diagnostic as message lines,
    then the source line, then a caret/dash marker.
- **The loader bookkeeping** (`SpigotExecutionControlProvider`):
  - the `RemoteClassLoader` registry of name → bytecode and its three-tier
    `findClass`;
  - the delegate's name → class map, filled by the batch operation `load`;
  - `findClass`, `classesRedefined`, and `addToClasspath`, which extends the URL
    search path.

Modules, one file each:

- `Wrappers`: `Option` and `Result`.
- `Text`: the `String` operations used (split, join, `trim`, character runs).
- `Snippets`: the values JShell hands over (events, snippets, diagnostics,
  exception descriptors) and the faults the evaluator lets escape.
- `Reconstitution`, `Diagnostics`, `Formatter`, `Evaluator`: the evaluator.
- `Loader`: the class-loading bridge.

Everything JShell or the JVM would compute is an explicit parameter:

- `analyze`: completeness analysis. It must make progress: a non-empty remainder
  is shorter than its input.
- `exec`: evaluates one unit in an abstract shell state.
- `Reflection`: class lookup and constructor shapes.
- `trace`: the printed stack trace.
- `Jvm`: defining, resolving, loading and preparing classes, and path → URL
  conversion.

A variable's rendered value and a snippet's diagnostics travel inside the event.

The model follows the code as written, including these points:

- The buffer doubling and the marker width are recorded under "Findings".
- A multi-line span whose start is on the last character of its line, or on
  the break after it, covers fewer than two of the line's characters. It gets a
  lone caret, without the continuation `-...`.
- A REJECTED event without diagnostics raises `NoSuchElementException`. This is
  modelled as the fault `NoDiagnosticPresent`.
- `RemoteClassLoader.findClass` defines the class from the registered bytes on
  every call. Any caching belongs to the JVM's `loadClass`.
- The reply comes from the first reportable event among the last unit's events.
  Events of earlier units are never seen.

## Model

| member | source | states |
|---|---|---|
| Evaluator.Loop | src/main/java/com/spleefleague/jshell/JShellEvaluator.java:59-71 | Events come back only with an empty buffer. Once the first analysis finds a complete unit, the text left held is exactly the incomplete tail that splitting the text into units leaves. |
| Evaluator.EvalAll | src/main/java/com/spleefleague/jshell/JShellEvaluator.java:55-72 | An incomplete candidate (held text + input when text is held) is appended to the held text, returns no events and leaves the shell alone. Otherwise the held text is dropped and the units are run in order. An incomplete remainder becomes the held text. Events are returned only when nothing is held, and then they are the last unit's events. |
| Evaluator.HoldingAfterEvalAll | src/main/java/com/spleefleague/jshell/JShellEvaluator.java:51-63 | `isHoldingIncompleteScript` holds after `evalAll` exactly when the analysed text (held text + input) ends in a non-empty incomplete fragment. |
| Evaluator.LoopIsPeelThenRun | src/main/java/com/spleefleague/jshell/JShellEvaluator.java:59-71 | The loop, which alternates analysis and evaluation, equals splitting the text into its complete units first and running them in order afterwards. |
| Evaluator.RunReportsLastUnit | src/main/java/com/spleefleague/jshell/JShellEvaluator.java:66-69 | Only the last unit's events survive: `result` is overwritten on each pass. They are evaluated in the shell state that all earlier units left behind. |
| Evaluator.Peel | src/main/java/com/spleefleague/jshell/JShellEvaluator.java:60-67 | There are no units exactly when the first analysis says incomplete. Any text left over is text the analysis calls incomplete, and it is no longer than the input. |
| Evaluator.Eval | src/main/java/com/spleefleague/jshell/JShellEvaluator.java:74-75 | While text is held (`isHoldingIncompleteScript`, buffer non-empty) the reply is `null`. A non-`null` reply or a fault only ever comes with an empty buffer. The reply is `null` exactly when no returned event is reportable. |
| Evaluator.EvalAllIntended | src/main/java/com/spleefleague/jshell/JShellEvaluator.java:56-63 | Corrected buffer: an incomplete candidate replaces the held text instead of being appended to it. |
| Evaluator.BufferMergeEquivalence | src/main/java/com/spleefleague/jshell/JShellEvaluator.java:56-63 | With the corrected buffer, holding `a` and then entering `b` is exactly entering `a + b` at once. |
| Evaluator.BufferDoublingCounterexample | src/main/java/com/spleefleague/jshell/JShellEvaluator.java:56-62 | As written, entering `a` then `b` under an always-incomplete analysis leaves `aab` held. Entering `ab` at once leaves `ab`. |
| Formatter.Format | src/main/java/com/spleefleague/jshell/JShellEvaluator.java:76-118 | The reply is that of the first reportable event, and later events are ignored. The reply is `null` exactly when no event is reportable. |
| Formatter.Verdict | src/main/java/com/spleefleague/jshell/JShellEvaluator.java:77-116 | An event yields a reply exactly when it is reportable. An exception wins over the status, giving the printed (reconstituted) exception. VALID variable / method / type / expression snippets give `name ==> value`, `\|  created method name()`, `\|  created class name` and `""`. A VALID event never faults. A REJECTED event faults exactly when it has no diagnostic or its first diagnostic starts at a negative offset. |
| Formatter.RejectedReplyLines | src/main/java/com/spleefleague/jshell/JShellEvaluator.java:108-116 | A REJECTED event with a usable diagnostic is answered with the error text built from the rendered lines. Read back line by line, that text is `\|  Error:` followed by each rendered line with the `\|  ` indentation. |
| Formatter.ErrorTextLines | src/main/java/com/spleefleague/jshell/JShellEvaluator.java:113-114 | For lines without breaks, splitting the appended error text at its breaks gives exactly the header and the indented lines: a round trip. |
| Reconstitution.Convert | src/main/java/com/spleefleague/jshell/JShellEvaluator.java:121-163 | The original is kept exactly when the class does not resolve, is not an `Exception`, or no constructor shape succeeds. Otherwise the result is built with the first successful shape in the order (message, cause), (message), (cause), (). It has the original class name and stack trace, and gets the message and cause when the shape takes them. |
| Diagnostics.KeptLines | src/main/java/com/spleefleague/jshell/JShellEvaluator.java:168-173 | A line is shown exactly when it is a line of the message, is non-empty, and does not start with `location:` after trimming. Shown lines contain no break and are never empty. |
| Diagnostics.KeptLinesInOrder | src/main/java/com/spleefleague/jshell/JShellEvaluator.java:168-173 | The shown lines are the message lines at the non-noise indices, in their original order and with their multiplicity. |
| Diagnostics.StripBeforeBreaks | src/main/java/com/spleefleague/jshell/JShellEvaluator.java:168 | Each piece followed by a break loses exactly one `\r` directly before that break, if it has one. The last piece, which no break follows, is kept whole, including a trailing `\r`. |
| Diagnostics.MessageLines | src/main/java/com/spleefleague/jshell/JShellEvaluator.java:168 | The message splits into as many lines as it has `\n`-separated pieces, none containing a break. |
| Diagnostics.TrailingCarriageReturnKept | src/main/java/com/spleefleague/jshell/JShellEvaluator.java:168-172 | The message `x\r` is shown as the one line `x\r`. |
| Diagnostics.LoneCarriageReturnShown | src/main/java/com/spleefleague/jshell/JShellEvaluator.java:168-172 | The message `a\n\r` is shown as `a`, then the line `\r`: it is non-empty and has no `location:` prefix. |
| Diagnostics.CarriageReturnBeforeBreakDropped | src/main/java/com/spleefleague/jshell/JShellEvaluator.java:168-172 | The message `a\r\nb` is shown as `a`, then `b`. |
| Diagnostics.Displayed | src/main/java/com/spleefleague/jshell/JShellEvaluator.java:169-172 | Defined as the general filter with the noise test of lines 169-170. Exactly the non-noise lines are kept, and there are never more of them than input lines. |
| Diagnostics.FilterAtKeptIndices | src/main/java/com/spleefleague/jshell/JShellEvaluator.java:169-172 | Filtering keeps exactly the lines at the increasing indices the filter accepts, in order and with their multiplicity. |
| Diagnostics.NextBreak | src/main/java/com/spleefleague/jshell/JShellEvaluator.java:180-181 | `find(from)` gives the first break at or after `from`, or none when no break follows. |
| Diagnostics.LineStart | src/main/java/com/spleefleague/jshell/JShellEvaluator.java:178-186 | The line start is 0 or follows a break. It lies at or before the offset, with no break between it and the offset. |
| Diagnostics.LineEnd | src/main/java/com/spleefleague/jshell/JShellEvaluator.java:179-190 | The line end is a break or the end of the source. It is the first such position at or after the offset, or the end of the source when the offset lies past it. |
| Diagnostics.LineBounds | src/main/java/com/spleefleague/jshell/JShellEvaluator.java:175-190 | The source's hop-from-break-to-break scan computes exactly the start and end of the line holding `pstart`. |
| Diagnostics.Marker | src/main/java/com/spleefleague/jshell/JShellEvaluator.java:193-216 | The marker has `start` spaces, then a caret. When `end > start` it has dashes up to column `end + 1`, closed by a caret at `end + 2` or by `-...` at columns `end + 2` to `end + 5`. It is `end + 3` or `end + 6` long, or `start + 1` with no span. |
| Diagnostics.Render | src/main/java/com/spleefleague/jshell/JShellEvaluator.java:166-217 | With `\n` as the only line break, rendering faults exactly when `pstart` is negative (negative array size / substring bound). |
| Diagnostics.RenderShape | src/main/java/com/spleefleague/jshell/JShellEvaluator.java:166-217 | A rendering with `pstart` non-negative always succeeds. It is exactly the kept message lines, then the source from the start to the end of the line holding `pstart`, then the marker of the span measured from that line's start. |
| Diagnostics.RenderedLinesUnbroken | src/main/java/com/spleefleague/jshell/JShellEvaluator.java:166-217 | No rendered line contains a break, so each is one displayed line. |
| Diagnostics.MarkerCaret | src/main/java/com/spleefleague/jshell/JShellEvaluator.java:193-198 | The marker has `pstart - lineStart` spaces and then a caret under the error column. |
| Diagnostics.MarkerLine | src/main/java/com/spleefleague/jshell/JShellEvaluator.java:193-216 | Appending a filled run of `start` spaces, the caret, and (when `end > start`) a filled run of `end - start + 1` dashes with the closing caret or `-...`, as the builder does, gives exactly the marker of the span. |
| Diagnostics.Fill | src/main/java/com/spleefleague/jshell/JShellEvaluator.java:195-196 | Filling a fresh array cell by cell, as `Arrays.fill` does on `new char[n]`, gives exactly `n` copies of the character (`Repeat`). |
| Diagnostics.DisplayDiagnostics | src/main/java/com/spleefleague/jshell/JShellEvaluator.java:166-218 | The statement-by-statement rendering agrees with `Render` for every source and diagnostic. |
| Diagnostics.SingleLineMarker | src/main/java/com/spleefleague/jshell/JShellEvaluator.java:193-217 | For a span of two or more characters within one line, the marker covers `pend - pstart + 2` columns from `pstart`: a caret, then dashes, then a closing caret two columns past the span's last character. |
| Diagnostics.NarrowSpanMarker | src/main/java/com/spleefleague/jshell/JShellEvaluator.java:207-217 | A span of at most one character within one line gets a lone caret. |
| Diagnostics.MultiLineMarker | src/main/java/com/spleefleague/jshell/JShellEvaluator.java:199-216 | A span past the end of its line gets dashes up to a closing `-...` when at least two of the line's characters are covered. Otherwise it gets a lone caret. |
| Diagnostics.MarkerOverrunsLine | src/main/java/com/spleefleague/jshell/JShellEvaluator.java:207-215 | For `abc xyz` with span [4, 7), the marker as written is `    ^---^`, longer than the line. The corrected marker is `    ^-^`. |
| Diagnostics.IntendedMarkerCoversSpan | src/main/java/com/spleefleague/jshell/JShellEvaluator.java:207-210 | With `end - start - 1` dashes, the marker of a non-empty single-line span marks exactly the span's columns and ends in a caret under its last character. |
| Loader.Delare | src/main/java/com/spleefleague/jshell/SpigotExecutionControlProvider.java:59-61 | Sets or overwrites the registry entry for the name. Every other registry entry, the class map and the search path are unchanged. |
| Loader.FirstUrl | src/main/java/com/spleefleague/jshell/SpigotExecutionControlProvider.java:73-75 | The search-path fallback picks the first entry holding the class, or reports that none does. |
| Loader.FindClassRemote | src/main/java/com/spleefleague/jshell/SpigotExecutionControlProvider.java:64-79 | Registered bytes are defined as exactly that class, or the definition fails. Otherwise a host class is used. Otherwise the first search-path entry is used, or `ClassNotFoundException` when none holds the class. |
| Loader.DelareThenFind | src/main/java/com/spleefleague/jshell/SpigotExecutionControlProvider.java:59-78 | After `delare(name, bytes)`, finding `name` defines it from exactly `bytes`. |
| Loader.RegisteredShadowsHost | src/main/java/com/spleefleague/jshell/SpigotExecutionControlProvider.java:64-78 | For a registered name, neither the host's classes nor the search path can change the result. |
| Loader.ClasspathGrowthKeepsResolution | src/main/java/com/spleefleague/jshell/SpigotExecutionControlProvider.java:73-84 | Appending to the search path never changes a class the loader already finds. |
| Loader.Declare | src/main/java/com/spleefleague/jshell/SpigotExecutionControlProvider.java:98-100 | After registration, the registered names are exactly the old ones plus the batch's. |
| Loader.DeclareLastWins | src/main/java/com/spleefleague/jshell/SpigotExecutionControlProvider.java:98-100 | A name is registered with the bytecode of its last entry in the batch. |
| Loader.DeclareKeepsOthers | src/main/java/com/spleefleague/jshell/SpigotExecutionControlProvider.java:98-100 | Names outside the batch keep their bytecode. |
| Loader.Register | src/main/java/com/spleefleague/jshell/SpigotExecutionControlProvider.java:98-100 | The registration loop produces the registry that `Declare` describes. |
| Loader.LoadInOrder | src/main/java/com/spleefleague/jshell/SpigotExecutionControlProvider.java:101-108 | Class `i` is recorded exactly when every earlier class was loaded and prepared and `loadClass` succeeded on it. The loop completes exactly when every class is installed. |
| Loader.RecordProperties | src/main/java/com/spleefleague/jshell/SpigotExecutionControlProvider.java:103-105 | Recording only adds or replaces the entries of the recorded classes, each mapped to its loaded class. Every other entry is kept. |
| Loader.Load | src/main/java/com/spleefleague/jshell/SpigotExecutionControlProvider.java:94-112 | The whole batch is registered before any load: every load sees the final registry, with no rollback. `loaded[i]` holds exactly when every earlier class was loaded and prepared and `loadClass` succeeded on class `i`, so it is set even if preparing class `i` throws. It fails exactly when some class does not install. Every loaded class is findable afterwards as the class `loadClass` gave. The class map only grows, entries of names not loaded are untouched, and nothing else enters. |
| Loader.LoadFlagsArePrefix | src/main/java/com/spleefleague/jshell/SpigotExecutionControlProvider.java:101-108 | The `loaded` flags form a true-prefix: once a class is not loaded, no later one is. |
| Loader.FindClass | src/main/java/com/spleefleague/jshell/SpigotExecutionControlProvider.java:127-134 | Succeeds exactly for names in the class map, with their recorded class. Otherwise it raises `ClassNotFoundException`. The bytecode registry is never consulted. |
| Loader.ClassesRedefined | src/main/java/com/spleefleague/jshell/SpigotExecutionControlProvider.java:43-49 | Runs `load` and swallows its exception, so the state is exactly what `load` leaves. The batch stays registered and the search path is unchanged. The class map only grows. Each class `load` reached (every earlier class installed, `loadClass` found it) is findable as the class `loadClass` gave. Entries of names not reached keep their class, and no name outside the old map and the reached classes enters. |
| Loader.SplitPath | src/main/java/com/spleefleague/jshell/SpigotExecutionControlProvider.java:118 | The paths are the separator-free pieces of the class path, in order, with trailing empty pieces dropped. |
| Loader.SplitPathShape | src/main/java/com/spleefleague/jshell/SpigotExecutionControlProvider.java:118 | A class path without the separator is its own single path, even when it is empty. Otherwise the last path, if any, is not empty. |
| Loader.AddUrls | src/main/java/com/spleefleague/jshell/SpigotExecutionControlProvider.java:81-84 | Adding URLs never disturbs the search path already there: the old path stays its prefix. |
| Loader.AddUrlsMembers | src/main/java/com/spleefleague/jshell/SpigotExecutionControlProvider.java:81-84 | Exactly the added URLs join the search path, and nothing else does. A search path without duplicates stays without duplicates. |
| Loader.AddUrlsAppendsFresh | src/main/java/com/spleefleague/jshell/SpigotExecutionControlProvider.java:81-84 | The search path grows by exactly the new URLs: those not already on it, each at its first occurrence, in the order given. |
| Loader.Convertible | src/main/java/com/spleefleague/jshell/SpigotExecutionControlProvider.java:118-122 | Counts the leading paths that convert to URLs. The next path, if any, fails to convert. |
| Loader.ConvertibleStops | src/main/java/com/spleefleague/jshell/SpigotExecutionControlProvider.java:118-122 | A loop over the paths that stops at the first path that does not convert, or after the last one, stops exactly after the convertible prefix. |
| Loader.AddLeading | src/main/java/com/spleefleague/jshell/SpigotExecutionControlProvider.java:118-122 | The loop adds the URLs of the convertible prefix of the paths, in order, and stops at the first path that does not convert. |
| Loader.AddToClasspath | src/main/java/com/spleefleague/jshell/SpigotExecutionControlProvider.java:115-124 | Adds the URLs of the paths in order. It fails exactly when some path does not convert, and the URLs added before that path stay. The registry and class map are untouched. |

## Left out

- The JShell library (`analyzeCompletion`, `eval`, `varValue`, `diagnostics`, `printStackTrace`): it is not code of this system. Its answers are parameters, constrained only by the analysis making progress.
- Formatter.Verdict: the stack-trace text, including the replacement of `System.getProperty("line.seperator") + '\t'`, is an opaque `trace` parameter. The property name is misspelled, so the pattern depends on the environment.
- Diagnostics.Render: the source finds line breaks with `\R` (line 31), which also matches `\r\n` as one break, a lone `\r`, U+2028 and the like. The model treats `\n` as the only break, which differs in three ways.
  - A line ended by `\r\n` keeps a trailing `\r` in the model's excerpt.
  - In the source such a line ends at the `\r` (lines 181-182). That moves the line end, so `multiline` and the marker can differ too.
  - When `pstart` is the offset of the `\n` in a `\r\n` pair, line 185 sets the line start to `pstart + 1`, and `new char[-1]` at line 195 throws `NegativeArraySizeException`. The model has no such fault: it faults only on a negative `pstart`.
- Diagnostics.Render: the `(int)` casts of the `long` diagnostic positions are not modelled. Positions are unbounded integers.
- Offsets and `substring` count UTF-16 code units in Java. The model counts characters (Unicode scalar values), so sources with supplementary characters are not modelled.
- `findAny()` on the diagnostics stream: modelled as the first diagnostic.
- `Class.forName` (line 123) can raise `Error`s such as `ExceptionInInitializerError` or `LinkageError`, which escape `convertJShellException`. The model treats such a class as not resolving. A throwable raised by a constructor reaches the code wrapped in `InvocationTargetException`, a `ReflectiveOperationException`. It is caught, so that shape counts as not succeeding, as the model has it.
- Loader.FindClassRemote: the host lookup `Class.forName` (SpigotExecutionControlProvider.java:70) can raise `Error`s such as `ExceptionInInitializerError` or `LinkageError`, which escape `findClass`. The model's `forName` oracle answers "not found" instead, which sends the lookup on to the search path. Defining a class from a search-path entry with `super.findClass` (line 74) can throw `ClassFormatError`. The model always returns the entry's class there.
- Loader.Load: `loadClass` is an oracle of the registry and the name rather than being derived from `FindClassRemote`. The JVM's loaded-class cache, parent delegation and `defineClass` verification are not modelled. The text of the `ClassInstallException` message is not modelled either.
- `JShellEvaluator` constructor and `close`, `SpigotExecutionControlProvider.name`/`generate`, and the context-class-loader update in the delegate's constructor: these are setup, filesystem and thread plumbing.
- `ReplSession` and `JShellInterpreter`: the chat UI, plugin lifecycle and the concurrent session registry are not part of this model.

## Findings

| source | as written | input that shows it | evidently intended | confidence | as-written member | corrected member |
|---|---|---|---|---|---|---|
| src/main/java/com/spleefleague/jshell/JShellEvaluator.java:56-62 | With text `B` held, the candidate `B + input` is appended to the buffer, which leaves `B + B + input` held | Enter `a`, then `b`, while every text is incomplete: `aab` is held, while entering `ab` holds `ab` | The held text becomes the candidate `B + input` | high; not executed | Evaluator.BufferDoublingCounterexample | Evaluator.EvalAllIntended |
| src/main/java/com/spleefleague/jshell/JShellEvaluator.java:207-210 | `end - start + 1` dashes between the carets, so the marker covers `pend - pstart + 2` columns | Source `abc xyz` with span [4, 7): the marker is `    ^---^`, whose closing caret is in column 8 of a 7-column line | `end - start - 1` dashes, so the closing caret sits under the span's last character, column 6 | medium; not executed | Diagnostics.MarkerOverrunsLine | Diagnostics.IntendedMarkerCoversSpan |

The rest of the model keeps the as-written buffer and marker, because it follows
the code. The corrected definitions stand beside them with their properties
proved.
