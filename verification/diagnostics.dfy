/** Rendering of one compiler diagnostic against the snippet source
    (JShellEvaluator.displayDiagnostics): the message's displayable lines, the
    source line holding the start of the span, and a marker line under it.
    A line break is the single character '\n'. */
module Diagnostics {
  import opened Wrappers
  import opened Text
  import opened Snippets

  /** Removes the `'\r'` that a `"\r?\n"` split consumes with the break after it. */
  function StripCarriageReturn(line: string): (r: string)
    ensures |r| <= |line| && r == line[..|r|]
    ensures r == line || r + ['\r'] == line
  {
    if |line| > 0 && line[|line| - 1] == '\r' then line[..|line| - 1] else line
  }

  /** Strips the `'\r'` before each break from the pieces between breaks: every
      piece but the last is followed by a break, so it loses one trailing
      `'\r'`; the last piece, which no break follows, is kept whole. */
  function StripBeforeBreaks(pieces: seq<string>): (r: seq<string>)
    requires |pieces| >= 1
    ensures |r| == |pieces|
    ensures r[|r| - 1] == pieces[|r| - 1]
    ensures forall i :: 0 <= i < |r| - 1 ==>
      if |pieces[i]| > 0 && pieces[i][|pieces[i]| - 1] == '\r'
      then r[i] + ['\r'] == pieces[i]
      else r[i] == pieces[i]
    decreases |pieces|
  {
    if |pieces| == 1 then pieces
    else [StripCarriageReturn(pieces[0])] + StripBeforeBreaks(pieces[1..])
  }

  /** The message split at `"\r?\n"`, before empty pieces are discarded. */
  function MessageLines(message: string): (r: seq<string>)
    ensures |r| == |SplitAll(message, '\n')|
    ensures forall i :: 0 <= i < |r| ==> '\n' !in r[i]
  {
    var pieces := SplitAll(message, '\n');
    var r := StripBeforeBreaks(pieces);
    forall i | 0 <= i < |r| ensures '\n' !in r[i] {
      if r[i] != pieces[i] {
        assert r[i] + ['\r'] == pieces[i];
        forall k | 0 <= k < |r[i]| ensures r[i][k] != '\n' {
          assert r[i][k] == pieces[i][k];
        }
      }
    }
    r
  }

  /** A message line that is not shown: empty, or a `location:` line once trimmed. */
  predicate IsNoise(line: string) {
    |line| == 0 || StartsWith(Trim(line), "location:")
  }

  /** The indices of the lines `noise` does not reject, in increasing order. */
  function KeptIndices(lines: seq<string>, noise: string -> bool): (r: seq<nat>)
    ensures forall k :: 0 <= k < |r| ==> r[k] < |lines| && !noise(lines[r[k]])
    ensures forall k, m :: 0 <= k < m < |r| ==> r[k] < r[m]
    ensures forall i :: 0 <= i < |lines| && !noise(lines[i]) ==> i in r
    decreases |lines|
  {
    if lines == [] then []
    else
      var n := |lines| - 1;
      var init := lines[..n];
      var idx := KeptIndices(init, noise);
      assert forall i :: 0 <= i < n ==> init[i] == lines[i];
      if noise(lines[n]) then idx
      else
        var r := idx + [n];
        assert forall i :: i in idx ==> i in r;
        r
  }

  /** The lines `noise` does not reject, in their original order. */
  function Filter(lines: seq<string>, noise: string -> bool): (r: seq<string>)
    ensures |r| <= |lines|
    decreases |lines|
  {
    if lines == [] then []
    else
      var init := lines[..|lines| - 1];
      var last := lines[|lines| - 1];
      Filter(init, noise) + (if noise(last) then [] else [last])
  }

  /** The filtered lines are exactly the lines at the kept indices, in order
      and with their multiplicity. */
  lemma {:induction false} FilterAtKeptIndices(lines: seq<string>, noise: string -> bool)
    ensures var r := Filter(lines, noise);
      var idx := KeptIndices(lines, noise);
      && |r| == |idx|
      && forall k :: 0 <= k < |r| ==> r[k] == lines[idx[k]]
    decreases |lines|
  {
    if lines != [] {
      var n := |lines| - 1;
      var init := lines[..n];
      FilterAtKeptIndices(init, noise);
      var before := Filter(init, noise);
      var idx := KeptIndices(init, noise);
      var r := Filter(lines, noise);
      var all := KeptIndices(lines, noise);
      if noise(lines[n]) {
        assert r == before && all == idx;
        forall k | 0 <= k < |r| ensures r[k] == lines[all[k]] {
          assert before[k] == init[idx[k]];
        }
      } else {
        assert r == before + [lines[n]] && all == idx + [n];
        forall k | 0 <= k < |r| ensures r[k] == lines[all[k]] {
          if k < |before| {
            assert r[k] == before[k] == init[idx[k]];
          }
        }
      }
    }
  }

  /** The lines that are not noise, in their original order. */
  function Displayed(lines: seq<string>): (r: seq<string>)
    ensures |r| <= |lines|
    ensures forall l :: l in r <==> l in lines && !IsNoise(l)
  {
    var r := Filter(lines, IsNoise);
    var idx := KeptIndices(lines, IsNoise);
    FilterAtKeptIndices(lines, IsNoise);
    forall l | l in r ensures l in lines && !IsNoise(l) {
      var k :| 0 <= k < |r| && r[k] == l;
      assert r[k] == lines[idx[k]];
    }
    forall l | l in lines && !IsNoise(l) ensures l in r {
      var i :| 0 <= i < |lines| && lines[i] == l;
      assert i in idx;
      var k :| 0 <= k < |idx| && idx[k] == i;
      assert r[k] == l;
    }
    r
  }

  /** The message lines a diagnostic contributes to the display. */
  function KeptLines(message: string): (r: seq<string>)
    ensures forall l :: l in r <==> l in MessageLines(message) && !IsNoise(l)
    ensures forall i :: 0 <= i < |r| ==> '\n' !in r[i] && |r[i]| > 0
  {
    var lines := MessageLines(message);
    var r := Displayed(lines);
    forall i | 0 <= i < |r| ensures '\n' !in r[i] && |r[i]| > 0 {
      assert r[i] in r;
      assert r[i] in lines;
    }
    r
  }

  /** The kept lines are the message lines at the non-noise indices: in their
      original order, each as often as it occurs. */
  lemma KeptLinesInOrder(message: string)
    ensures var lines := MessageLines(message);
      var r := KeptLines(message);
      var idx := KeptIndices(lines, IsNoise);
      && |r| == |idx|
      && forall k :: 0 <= k < |r| ==> r[k] == lines[idx[k]]
  {
    FilterAtKeptIndices(MessageLines(message), IsNoise);
  }

  /** A non-empty line shorter than `location:` is always shown. */
  lemma ShortLineShown(line: string)
    requires 0 < |line| < |"location:"|
    ensures !IsNoise(line)
  {
    assert |Trim(line)| <= |line|;
  }

  /** Displaying one more line after `lines`. */
  lemma DisplayedSnoc(lines: seq<string>, line: string)
    ensures Displayed(lines + [line]) == Displayed(lines) + (if IsNoise(line) then [] else [line])
  {
    assert (lines + [line])[..|lines|] == lines;
  }

  /** A `'\r'` that no break follows stays on the last line. */
  lemma TrailingCarriageReturnKept()
    ensures KeptLines("x\r") == ["x\r"]
  {
    assert '\n' !in "x\r";
    assert MessageLines("x\r") == ["x\r"];
    ShortLineShown("x\r");
    DisplayedSnoc([], "x\r");
  }

  /** A lone `'\r'` after the last break is a line of its own, and it is shown:
      it is not empty and does not start with `location:`. */
  lemma LoneCarriageReturnShown()
    ensures KeptLines("a\n\r") == ["a", "\r"]
  {
    assert SplitAll("\r", '\n') == ["\r"];
    assert SplitAll("\n\r", '\n') == [[], "\r"];
    assert "a\n\r"[1..] == "\n\r";
    assert ['a'] + [] == "a";
    assert [[], "\r"][1..] == ["\r"];
    assert SplitAll("a\n\r", '\n') == ["a", "\r"];
    assert MessageLines("a\n\r") == ["a", "\r"];
    ShortLineShown("a");
    ShortLineShown("\r");
    DisplayedSnoc([], "a");
    DisplayedSnoc(["a"], "\r");
  }

  /** A `'\r'` just before a break is consumed with it. */
  lemma CarriageReturnBeforeBreakDropped()
    ensures KeptLines("a\r\nb") == ["a", "b"]
  {
    assert SplitAll("b", '\n') == ["b"];
    assert SplitAll("\nb", '\n') == [[], "b"];
    assert "\r\nb"[1..] == "\nb";
    assert ['\r'] + [] == "\r";
    assert [[], "b"][1..] == ["b"];
    assert SplitAll("\r\nb", '\n') == ["\r", "b"];
    assert "a\r\nb"[1..] == "\r\nb";
    assert ['a'] + "\r" == "a\r";
    assert ["\r", "b"][1..] == ["b"];
    assert SplitAll("a\r\nb", '\n') == ["a\r", "b"];
    assert MessageLines("a\r\nb") == ["a", "b"];
    ShortLineShown("a");
    ShortLineShown("b");
    DisplayedSnoc([], "a");
    DisplayedSnoc(["a"], "b");
  }

  /** First line break at or after `from` (`Matcher.find(from)` with pattern `\R`). */
  function NextBreak(s: string, from: nat): (r: Option<nat>)
    requires from <= |s|
    ensures r.Some? ==> from <= r.value < |s| && s[r.value] == '\n'
    ensures forall k :: from <= k < |s| && (r.None? || k < r.value) ==> s[k] != '\n'
    decreases |s| - from
  {
    if from == |s| then None
    else if s[from] == '\n' then Some(from)
    else NextBreak(s, from + 1)
  }

  /** Start of the line holding offset `p`: just after the last break before `p`, or 0. */
  function LineStart(s: string, p: nat): (r: nat)
    ensures r <= p && r <= |s|
    ensures r == 0 || s[r - 1] == '\n'
    ensures forall k :: r <= k < p && k < |s| ==> s[k] != '\n'
    decreases p
  {
    if p > |s| then LineStart(s, |s|)
    else if p == 0 then 0
    else if s[p - 1] == '\n' then p
    else LineStart(s, p - 1)
  }

  /** End of the line holding offset `p`: the first break at or after `p`, or `|s|`. */
  function LineEnd(s: string, p: nat): (r: nat)
    ensures r <= |s|
    ensures p <= r || r == |s|
    ensures r == |s| || s[r] == '\n'
    ensures forall k :: p <= k < r ==> s[k] != '\n'
  {
    if p >= |s| then |s|
    else match NextBreak(s, p)
      case None => |s|
      case Some(k) => k
  }

  /** The properties of `LineStart` pin it down: no other offset has them. */
  lemma LineStartUnique(s: string, p: nat, r: nat)
    requires r <= p && r <= |s|
    requires r == 0 || s[r - 1] == '\n'
    requires forall k :: r <= k < p && k < |s| ==> s[k] != '\n'
    ensures r == LineStart(s, p)
  {
  }

  /** The properties of `LineEnd` pin it down: no other offset has them. */
  lemma LineEndUnique(s: string, p: nat, r: nat)
    requires r <= |s|
    requires p <= r || r == |s|
    requires r == |s| || s[r] == '\n'
    requires forall k :: p <= k < r ==> s[k] != '\n'
    ensures r == LineEnd(s, p)
  {
  }

  /** The scan for the bounds of the line holding `pstart`, as the source writes
      it: hop from break to break while the break lies before `pstart`. */
  method LineBounds(source: string, pstart: int) returns (pstartl: int, pendl: int)
    requires pstart >= 0
    ensures pstartl == LineStart(source, pstart)
    ensures pendl == LineEnd(source, pstart)
  {
    pstartl := 0;
    pendl := -2;
    while true
      invariant 0 <= pstartl <= |source| && pstartl <= pstart
      invariant pstartl == 0 || source[pstartl - 1] == '\n'
      invariant pendl < pstart
      decreases |source| - pstartl
    {
      var m := NextBreak(source, pstartl);
      if m.None? {
        LineStartUnique(source, pstart, pstartl);
        break;
      }
      pendl := m.value;
      if pendl >= pstart {
        LineStartUnique(source, pstart, pstartl);
        LineEndUnique(source, pstart, pendl);
        break;
      }
      pstartl := m.value + 1;
    }
    if pendl < pstart {
      pendl := |source|;
      LineEndUnique(source, pstart, pendl);
    }
  }

  /** The marker line: `start` spaces and a caret, then, when `end` lies beyond
      `start`, `end - start + 1` dashes closed by a caret, or by `-...` when the
      span runs past the line. */
  function Marker(start: nat, end: int, multiline: bool): (r: string)
    ensures |r| == if end > start then end + (if multiline then 6 else 3) else start + 1
    ensures forall i :: 0 <= i < start ==> r[i] == ' '
    ensures r[start] == '^'
    ensures end > start ==> forall i :: start < i < end + 2 ==> r[i] == '-'
    ensures end > start && multiline ==> r[end + 2..] == "-..."
    ensures end > start && !multiline ==> r[end + 2] == '^'
  {
    Repeat(' ', start) + "^"
    + if end > start then Repeat('-', end - start + 1) + (if multiline then "-..." else "^") else ""
  }

  /** The lines displayed for a diagnostic with message `message` and span
      `[pstart, pend)` in `source`; a negative start offset makes the source throw. */
  function Render(message: string, source: string, pstart: int, pend: int): (r: Result<seq<string>, Fault>)
    ensures r.Failure? <==> pstart < 0
    ensures r.Failure? ==> r.error == NegativeStartPosition
  {
    if pstart < 0 then Failure(NegativeStartPosition)
    else
      Success(KeptLines(message) + [source[LineStart(source, pstart)..LineEnd(source, pstart)], MarkerOf(source, pstart, pend)])
  }

  /** The marker line `Render` produces for a span starting at `pstart`. */
  function MarkerOf(source: string, pstart: nat, pend: int): string {
    var pstartl := LineStart(source, pstart);
    var pendl := LineEnd(source, pstart);
    var multiline := pend > pendl;
    Marker(pstart - pstartl, (if multiline then pendl else pend) - pstartl - 1, multiline)
  }

  /** A rendered diagnostic is the kept message lines, then the whole source line
      holding the start of the span, then the marker. */
  lemma RenderShape(message: string, source: string, pstart: nat, pend: int)
    ensures Render(message, source, pstart, pend).Success?
    ensures var kept := KeptLines(message);
      var lines := Render(message, source, pstart, pend).value;
      lines == kept + [source[LineStart(source, pstart)..LineEnd(source, pstart)], MarkerOf(source, pstart, pend)]
  {
  }

  /** A marker is made of spaces, carets, dashes and dots only. */
  lemma MarkerUnbroken(start: nat, end: int, multiline: bool)
    ensures '\n' !in Marker(start, end, multiline)
  {
    var m := Marker(start, end, multiline);
    forall i | 0 <= i < |m| ensures m[i] != '\n' {
      assert m[i] in " ^-.";
    }
  }

  /** The source line holding `p` contains no break. */
  lemma ExcerptUnbroken(source: string, p: nat)
    ensures '\n' !in source[LineStart(source, p)..LineEnd(source, p)]
  {
    var ls := LineStart(source, p);
    var excerpt := source[ls..LineEnd(source, p)];
    forall i | 0 <= i < |excerpt| ensures excerpt[i] != '\n' {
      assert excerpt[i] == source[ls + i];
    }
  }

  /** Lines without breaks, followed by two more such lines. */
  lemma UnbrokenLines(kept: seq<string>, excerpt: string, marker: string)
    requires forall i :: 0 <= i < |kept| ==> '\n' !in kept[i]
    requires '\n' !in excerpt && '\n' !in marker
    ensures var lines := kept + [excerpt, marker];
      forall i :: 0 <= i < |lines| ==> '\n' !in lines[i]
  {
    var lines := kept + [excerpt, marker];
    forall i | 0 <= i < |lines| ensures '\n' !in lines[i] {
      if i < |kept| {
        assert lines[i] == kept[i];
      }
    }
  }

  /** No rendered line contains a break. */
  lemma RenderedLinesUnbroken(message: string, source: string, pstart: nat, pend: int)
    ensures Render(message, source, pstart, pend).Success?
    ensures var lines := Render(message, source, pstart, pend).value;
      forall i :: 0 <= i < |lines| ==> '\n' !in lines[i]
  {
    RenderShape(message, source, pstart, pend);
    ExcerptUnbroken(source, pstart);
    var ls := LineStart(source, pstart);
    var le := LineEnd(source, pstart);
    var multiline := pend > le;
    MarkerUnbroken(pstart - ls, (if multiline then le else pend) - ls - 1, multiline);
    UnbrokenLines(KeptLines(message), source[ls..le], MarkerOf(source, pstart, pend));
  }

  /** The marker's caret sits in the column of the start of the span, after spaces. */
  lemma MarkerCaret(source: string, pstart: nat, pend: int)
    ensures var marker := MarkerOf(source, pstart, pend);
      var col := pstart - LineStart(source, pstart);
      && |marker| > col
      && (forall i :: 0 <= i < col ==> marker[i] == ' ')
      && marker[col] == '^'
  {
  }

  /** A span of two or more characters inside one line: the marker is a caret
      under the span's first character followed by `pend - pstart + 1` more
      marks, the last a caret, so it covers `pend - pstart + 2` columns and its
      closing caret sits two columns past the span's last character. */
  lemma SingleLineMarker(source: string, pstart: nat, pend: int)
    requires pstart + 2 <= pend <= LineEnd(source, pstart)
    ensures var m := MarkerOf(source, pstart, pend);
      var ls := LineStart(source, pstart);
      && |m| == pend - ls + 2
      && (forall i :: 0 <= i < |m| ==> (m[i] != ' ' <==> pstart - ls <= i))
      && m[pstart - ls] == '^' && m[|m| - 1] == '^'
      && (forall i :: pstart - ls < i < |m| - 1 ==> m[i] == '-')
  {
    var ls := LineStart(source, pstart);
    var start := pstart - ls;
    var end := pend - ls - 1;
    var m := MarkerOf(source, pstart, pend);
    assert m == Repeat(' ', start) + "^" + Repeat('-', end - start + 1) + "^";
  }

  /** A span of at most one character inside one line is marked by a lone caret. */
  lemma NarrowSpanMarker(source: string, pstart: nat, pend: int)
    requires pend <= LineEnd(source, pstart) && pend <= pstart + 1
    ensures MarkerOf(source, pstart, pend) == Repeat(' ', pstart - LineStart(source, pstart)) + "^"
  {
  }

  /** A span running past the end of its line: when at least two characters of
      the line are covered the marker ends in the continuation `-...`, with
      dashes running up to it; otherwise it is a lone caret. */
  lemma MultiLineMarker(source: string, pstart: nat, pend: int)
    requires pend > LineEnd(source, pstart)
    ensures var m := MarkerOf(source, pstart, pend);
      var ls := LineStart(source, pstart);
      var le := LineEnd(source, pstart);
      if le >= pstart + 2 then
        && |m| == le - ls + 5
        && m[|m| - 4..] == "-..."
        && (forall i :: pstart - ls < i < |m| - 3 ==> m[i] == '-')
      else
        m == Repeat(' ', pstart - ls) + "^"
  {
    var ls := LineStart(source, pstart);
    var le := LineEnd(source, pstart);
    var start := pstart - ls;
    var end := le - ls - 1;
    var m := MarkerOf(source, pstart, pend);
    if le >= pstart + 2 {
      assert m == Repeat(' ', start) + "^" + Repeat('-', end - start + 1) + "-...";
    }
  }

  /** The corrected marker: `end - start - 1` dashes between the two carets, so
      that the closing caret sits under the span's last character. */
  function IntendedMarker(start: nat, end: int, multiline: bool): string {
    Repeat(' ', start) + "^"
    + if end > start then Repeat('-', end - start - 1) + (if multiline then "-..." else "^") else ""
  }

  function IntendedMarkerOf(source: string, pstart: nat, pend: int): string {
    var pstartl := LineStart(source, pstart);
    var pendl := LineEnd(source, pstart);
    var multiline := pend > pendl;
    IntendedMarker(pstart - pstartl, (if multiline then pendl else pend) - pstartl - 1, multiline)
  }

  /** With the intended dash count the marker covers exactly the columns of a
      non-empty single-line span, ending in a caret under its last character. */
  lemma IntendedMarkerCoversSpan(source: string, pstart: nat, pend: int)
    requires pstart < pend <= LineEnd(source, pstart)
    ensures var m := IntendedMarkerOf(source, pstart, pend);
      var ls := LineStart(source, pstart);
      && |m| == pend - ls
      && (forall i :: 0 <= i < |m| ==> (m[i] != ' ' <==> pstart - ls <= i))
      && m[pstart - ls] == '^' && m[|m| - 1] == '^'
  {
    var ls := LineStart(source, pstart);
    var start := pstart - ls;
    var end := pend - ls - 1;
    var m := IntendedMarkerOf(source, pstart, pend);
    if end > start {
      assert m == Repeat(' ', start) + "^" + Repeat('-', end - start - 1) + "^";
    } else {
      assert m == Repeat(' ', start) + "^";
    }
  }

  /** The span `xyz` of `abc xyz` ([4, 7)): the marker the source builds is
      `    ^---^`, whose closing caret stands in column 8, beyond the seven-column
      source line; the intended marker `    ^-^` ends under the `z`. */
  lemma MarkerOverrunsLine()
    ensures MarkerOf("abc xyz", 4, 7) == "    ^---^"
    ensures |"abc xyz"| < |MarkerOf("abc xyz", 4, 7)|
    ensures IntendedMarkerOf("abc xyz", 4, 7) == "    ^-^"
  {
    var s := "abc xyz";
    LineStartUnique(s, 4, 0);
    LineEndUnique(s, 4, 7);
    assert Repeat(' ', 4) == "    ";
    assert Repeat('-', 3) == "---";
    assert Repeat('-', 1) == "-";
  }

  /** `Repeat`, built one cell at a time as the source fills its arrays. */
  method Fill(c: char, n: nat) returns (r: string)
    ensures r == Repeat(c, n)
  {
    r := [];
    while |r| < n
      invariant |r| <= n
      invariant forall i :: 0 <= i < |r| ==> r[i] == c
    {
      r := r + [c];
    }
  }

  /** The marker line, appended piece by piece as the source builds it from the
      line bounds of `pstart`: a filled run of spaces, a caret, then a filled run
      of dashes closed by a caret or `-...`. */
  method MarkerLine(source: string, pstart: nat, pend: int, pstartl: nat, pendl: nat) returns (m: string)
    requires pstartl == LineStart(source, pstart) && pendl == LineEnd(source, pstart)
    ensures m == MarkerOf(source, pstart, pend)
  {
    var start: nat := pstart - pstartl;
    var space := Fill(' ', start);
    m := space + "^";
    var multiline := pend > pendl;
    var end: int := -(pstartl as int) - 1;
    if multiline {
      end := end + pendl;
    } else {
      end := end + pend;
    }
    if end > start {
      var dash := Fill('-', end - start + 1);
      m := m + dash;
      if multiline {
        m := m + "-...";
      } else {
        m := m + "^";
      }
    }
  }

  /** The source's rendering, step by step as it appears in the source. */
  method DisplayDiagnostics(source: string, diag: Diag) returns (r: Result<seq<string>, Fault>)
    ensures r == Render(diag.message, source, diag.startPosition, diag.endPosition)
  {
    var kept := KeptLines(diag.message);
    var pstart := diag.startPosition;
    var pend := diag.endPosition;
    if pstart < 0 {
      return Failure(NegativeStartPosition);
    }
    var pstartl, pendl := LineBounds(source, pstart);
    var excerpt := source[pstartl..pendl];
    var marker := MarkerLine(source, pstart, pend, pstartl, pendl);
    RenderShape(diag.message, source, pstart, pend);
    r := Success(kept + [excerpt, marker]);
  }
}
