/**
 * The test-source side: the marker-pair pattern of `codeBlockInTests`
 * (lib/index.ts:107-109) as a hand-written scanner, the dedent of a captured
 * block (lib/index.ts:123), and the recursive collection of `collectExamples`
 * (lib/index.ts:116-134).
 *
 * A pair is `INDENT// start docs NAME\nCODE\nINDENT2// end docs NAME`, at the
 * start of the text or right after a newline. The pattern runs with the `s`
 * flag, so CODE may span lines; the name is restricted here to the rest of the
 * start marker's line.
 */
module TestBlocks {
  import opened Wrappers
  import opened Text
  import opened ExampleMaps

  const StartMarker: string := "// start docs "
  const EndMarker: string := "// end docs "

  /**
   * The capture groups of one match, by length: the start marker's indent, the
   * name, the code, and the end marker's indent.
   */
  datatype Pair = Pair(indent: nat, name: nat, code: nat, closeIndent: nat)

  /** Where the parts of a pair that starts at `q` stand. */
  function NameAt(q: nat, p: Pair): nat { q + p.indent + |StartMarker| }
  function CodeAt(q: nat, p: Pair): nat { NameAt(q, p) + p.name + 1 }
  function CloseAt(q: nat, p: Pair): nat { CodeAt(q, p) + p.code + 1 }
  function EndMarkerAt(q: nat, p: Pair): nat { CloseAt(q, p) + p.closeIndent }
  function PairEnd(q: nat, p: Pair): nat { EndMarkerAt(q, p) + |EndMarker| + p.name }

  /** The `n` characters at `a` repeat the `n` characters at `b` (the back-reference `\2`). */
  predicate Repeats(t: string, a: nat, b: nat, n: nat)
    decreases n
  {
    n == 0 || (a < |t| && b < |t| && t[a] == t[b] && Repeats(t, a + 1, b + 1, n - 1))
  }

  lemma {:induction false} RepeatsSlices(t: string, a: nat, b: nat, n: nat)
    ensures Repeats(t, a, b, n) && n > 0 ==> a + n <= |t| && b + n <= |t|
    ensures a + n <= |t| && b + n <= |t| ==> (Repeats(t, a, b, n) <==> t[a..a + n] == t[b..b + n])
    decreases n
  {
    if n > 0 {
      RepeatsSlices(t, a + 1, b + 1, n - 1);
      if a + n <= |t| && b + n <= |t| {
        assert t[a..a + n] == [t[a]] + t[a + 1..a + n];
        assert t[b..b + n] == [t[b]] + t[b + 1..b + n];
        if t[a..a + n] == t[b..b + n] {
          assert t[a] == t[a..a + n][0] && t[b] == t[b..b + n][0];
          assert t[a + 1..a + n] == t[a..a + n][1..] && t[b + 1..b + n] == t[b..b + n][1..];
        }

      }
    }
  }

  /** From `q`: INDENT, the start marker, NAME (at least one character, no newline) and a newline. */
  ghost predicate StartLineAt(t: string, q: nat, p: Pair)
  {
    && Span(t, q, p.indent, IndentChar)
    && At(t, q + p.indent, StartMarker)
    && p.name > 0 && Span(t, NameAt(q, p), p.name, LineChar)
    && CodeAt(q, p) - 1 < |t| && t[CodeAt(q, p) - 1] == '\n'
  }

  /** After CODE (at least one character): a newline, INDENT2, the end marker and NAME again. */
  ghost predicate EndLineAt(t: string, q: nat, p: Pair)
  {
    && p.code > 0
    && CloseAt(q, p) - 1 < |t| && t[CloseAt(q, p) - 1] == '\n'
    && Span(t, CloseAt(q, p), p.closeIndent, IndentChar)
    && At(t, EndMarkerAt(q, p), EndMarker)
    && PairEnd(q, p) <= |t| && Repeats(t, EndMarkerAt(q, p) + |EndMarker|, NameAt(q, p), p.name)
  }

  /**
   * The text holds, from line start `q`, a marker pair that the pattern accepts
   * with parts of exactly these lengths.
   */
  ghost predicate IsPairAt(t: string, q: nat, p: Pair)
  {
    StartLineAt(t, q, p) && EndLineAt(t, q, p)
  }

  /**
   * `\n[^\S\n]*\/\/ end docs NAME` at position `j`, for the name of length `n`
   * at `n0`. Nothing is required after NAME.
   */
  predicate ClosesAt(t: string, j: nat, n0: nat, n: nat)
  {
    && j < |t| && t[j] == '\n'
    && var x := j + 1 + Run(t, j + 1, IndentChar);
    && At(t, x, EndMarker) && x + |EndMarker| + n <= |t| && Repeats(t, x + |EndMarker|, n0, n)
  }

  /** The non-greedy `(.+?)`: the first code end from `j` on that an end marker of the name closes. */
  function CodeEnd(t: string, n0: nat, n: nat, j: nat): (r: Option<nat>)
    ensures r.Some? ==> j <= r.value < |t|
    decreases |t| - j
  {
    if j >= |t| then None
    else if ClosesAt(t, j, n0, n) then Some(j)
    else CodeEnd(t, n0, n, j + 1)
  }

  /** The end found is closed by an end marker of the name. */
  lemma {:induction false} CodeEndCloses(t: string, n0: nat, n: nat, j: nat)
    ensures CodeEnd(t, n0, n, j).Some? ==> ClosesAt(t, CodeEnd(t, n0, n, j).value, n0, n)
    decreases |t| - j
  {
    if j < |t| && !ClosesAt(t, j, n0, n) {
      CodeEndCloses(t, n0, n, j + 1);
    }
  }

  /** No end marker of the name closes the code earlier than the end found. */
  lemma {:induction false} CodeEndFirst(t: string, n0: nat, n: nat, j: nat, j': nat)
    requires j <= j' && ClosesAt(t, j', n0, n)
    ensures CodeEnd(t, n0, n, j).Some? && CodeEnd(t, n0, n, j).value <= j'
    decreases |t| - j
  {
    if !ClosesAt(t, j, n0, n) {
      CodeEndFirst(t, n0, n, j + 1, j');
    }
  }

  /** The pattern tried at line start `q` (after the `^` or the `\n`): first the indent run. */
  function PairAt(t: string, q: nat): Option<Pair>
    requires q <= |t|
  {
    AfterIndent(t, q, Run(t, q, IndentChar))
  }

  /** Then the start marker, and the name: the rest of its line. */
  function AfterIndent(t: string, q: nat, i: nat): Option<Pair>
    requires q + i <= |t|
  {
    if !At(t, q + i, StartMarker) then None
    else AfterName(t, q, i, Run(t, q + i + |StartMarker|, LineChar))
  }

  /** Then a newline, and the shortest code of at least one character that an end marker of the name closes. */
  function AfterName(t: string, q: nat, i: nat, n: nat): Option<Pair>
    requires q + i + |StartMarker| + n <= |t|
  {
    var n0 := q + i + |StartMarker|;
    if n == 0 || n0 + n == |t| then None
    else WithCode(t, q, i, n, CodeEnd(t, n0, n, n0 + n + 2))
  }

  /** The pair, once the code end is known. */
  function WithCode(t: string, q: nat, i: nat, n: nat, r: Option<nat>): Option<Pair>
    requires r.Some? ==> q + i + |StartMarker| + n + 2 <= r.value < |t|
  {
    match r
    case None => None
    case Some(e) => Some(Pair(i, n, e - (q + i + |StartMarker| + n + 1), Run(t, e + 1, IndentChar)))
  }

  /** Whatever the scanner returns is a pair standing at `q`. */
  lemma PairAtSound(t: string, q: nat)
    requires q <= |t|
    ensures PairAt(t, q).Some? ==> IsPairAt(t, q, PairAt(t, q).value)
  {
    if PairAt(t, q).Some? {
      var i, n, e := PairAtStages(t, q);
      PairParts(t, q, i, n, e, PairAt(t, q).value);
    }
  }

  /** The indent and name lengths and the code's end that the scanner measured when it found a pair at `q`. */
  lemma PairAtStages(t: string, q: nat) returns (i: nat, n: nat, e: nat)
    requires q <= |t| && PairAt(t, q).Some?
    ensures q + i <= |t| && i == Run(t, q, IndentChar) && At(t, q + i, StartMarker)
    ensures n == Run(t, q + i + |StartMarker|, LineChar) && n != 0
    ensures q + i + |StartMarker| + n < |t|
    ensures CodeEnd(t, q + i + |StartMarker|, n, q + i + |StartMarker| + n + 2) == Some(e)
    ensures PairAt(t, q).value == Pair(i, n, e - (q + i + |StartMarker| + n + 1), Run(t, e + 1, IndentChar))
  {
    i := Run(t, q, IndentChar);
    assert PairAt(t, q) == AfterIndent(t, q, i);
    var n0 := q + i + |StartMarker|;
    n := Run(t, n0, LineChar);
    assert AfterIndent(t, q, i) == AfterName(t, q, i, n);
    var r := CodeEnd(t, n0, n, n0 + n + 2);
    assert AfterName(t, q, i, n) == WithCode(t, q, i, n, r);
    e := r.value;
  }

  /** The lengths the scanner measures form a pair standing at `q`. */
  lemma PairParts(t: string, q: nat, i: nat, n: nat, e: nat, p: Pair)
    requires q + i <= |t| && i == Run(t, q, IndentChar) && At(t, q + i, StartMarker)
    requires n == Run(t, q + i + |StartMarker|, LineChar) && n != 0
    requires q + i + |StartMarker| + n < |t|
    requires CodeEnd(t, q + i + |StartMarker|, n, q + i + |StartMarker| + n + 2) == Some(e)
    requires p == Pair(i, n, e - (q + i + |StartMarker| + n + 1), Run(t, e + 1, IndentChar))
    ensures IsPairAt(t, q, p)
  {
    CodeEndCloses(t, q + i + |StartMarker|, n, q + i + |StartMarker| + n + 2);
    StartLineParts(t, q, i, n, p.code, p.closeIndent);
    EndLineParts(t, q, p, e);
  }

  lemma StartLineParts(t: string, q: nat, i: nat, n: nat, code: nat, ci: nat)
    requires q + i <= |t| && i == Run(t, q, IndentChar) && At(t, q + i, StartMarker)
    requires n == Run(t, q + i + |StartMarker|, LineChar) && n != 0 && q + i + |StartMarker| + n < |t|
    ensures StartLineAt(t, q, Pair(i, n, code, ci))
  {
    RunCovers(t, q, IndentChar);
    RunCovers(t, q + i + |StartMarker|, LineChar);
  }

  lemma EndLineParts(t: string, q: nat, p: Pair, e: nat)
    requires p.code > 0 && e == CloseAt(q, p) - 1 && ClosesAt(t, e, NameAt(q, p), p.name)
    requires p.closeIndent == Run(t, e + 1, IndentChar)
    ensures EndLineAt(t, q, p)
  {
    RunCovers(t, e + 1, IndentChar);
  }

  /** A match lies inside the text. */
  lemma PairAtFits(t: string, q: nat)
    requires q <= |t|
    ensures PairAt(t, q).Some? ==> PairEnd(q, PairAt(t, q).value) <= |t|
  {
    PairAtSound(t, q);
  }

  /** At a line start that holds a pair, the scanner finds one, and its code is the shortest. */
  lemma PairAtShortest(t: string, q: nat, p: Pair)
    requires IsPairAt(t, q, p)
    ensures PairAt(t, q).Some?
    ensures PairAt(t, q).value.code <= p.code
  {
    var n0 := NameAt(q, p);
    StartRuns(t, q, p);
    EndCloses(t, q, p);
    CodeEndFirst(t, n0, p.name, n0 + p.name + 2, CloseAt(q, p) - 1);
    ScannerReaches(t, q, p.indent, p.name, CloseAt(q, p) - 1);
  }

  /** The scanner's indent and name runs stop exactly where a pair's start line says. */
  lemma StartRuns(t: string, q: nat, p: Pair)
    requires StartLineAt(t, q, p)
    ensures Run(t, q, IndentChar) == p.indent
    ensures Run(t, NameAt(q, p), LineChar) == p.name
  {
    AtFirst(t, q + p.indent, StartMarker);
    RunOver(t, q, p.indent, IndentChar);
    RunOver(t, NameAt(q, p), p.name, LineChar);
  }

  /** A pair's end line closes its code at the newline before it. */
  lemma EndCloses(t: string, q: nat, p: Pair)
    requires EndLineAt(t, q, p)
    ensures ClosesAt(t, CloseAt(q, p) - 1, NameAt(q, p), p.name)
  {
    AtFirst(t, EndMarkerAt(q, p), EndMarker);
    RunOver(t, CloseAt(q, p), p.closeIndent, IndentChar);
  }

  /** When the indent and name runs are as given and the code ends by `e`, the scanner finds a pair whose code ends by `e`. */
  lemma ScannerReaches(t: string, q: nat, i: nat, n: nat, e: nat)
    requires q + i <= |t| && Run(t, q, IndentChar) == i && At(t, q + i, StartMarker)
    requires Run(t, q + i + |StartMarker|, LineChar) == n && n > 0
    requires q + i + |StartMarker| + n < |t|
    requires var r := CodeEnd(t, q + i + |StartMarker|, n, q + i + |StartMarker| + n + 2); r.Some? && r.value <= e
    ensures PairAt(t, q).Some? && PairAt(t, q).value.code <= e - (q + i + |StartMarker| + n + 1)
  {
    var n0 := q + i + |StartMarker|;
    var r := CodeEnd(t, n0, n, n0 + n + 2);
    assert PairAt(t, q) == AfterIndent(t, q, i);
    assert AfterIndent(t, q, i) == AfterName(t, q, i, n);
    assert AfterName(t, q, i, n) == WithCode(t, q, i, n, r);
  }

  /** One match of `matchAll`: the line start its pair begins at, and the pair. */
  datatype Match = Match(start: nat, pair: Pair)

  function End(m: Match): nat
  {
    PairEnd(m.start, m.pair)
  }

  /** The captured name and code of a match in `text`. */
  function Name(text: string, m: Match): string
    requires End(m) <= |text|
  {
    text[NameAt(m.start, m.pair)..NameAt(m.start, m.pair) + m.pair.name]
  }

  function Code(text: string, m: Match): string
    requires End(m) <= |text|
  {
    text[CodeAt(m.start, m.pair)..CodeAt(m.start, m.pair) + m.pair.code]
  }

  function Indent(text: string, m: Match): string
    requires End(m) <= |text|
  {
    text[m.start..m.start + m.pair.indent]
  }

  /** The indent before the end marker. */
  function CloseIndent(text: string, m: Match): string
    requires End(m) <= |text|
  {
    text[CloseAt(m.start, m.pair)..EndMarkerAt(m.start, m.pair)]
  }

  /** The text of a marker pair, `INDENT// start docs NAME\nCODE\nINDENT2// end docs NAME`. */
  function PairText(indent: string, name: string, code: string, closeIndent: string): string
  {
    indent + StartMarker + name + "\n" + code + "\n" + closeIndent + EndMarker + name
  }

  predicate Indentation(s: string)
  {
    forall i :: 0 <= i < |s| ==> IsIndent(s[i])
  }

  /** The text of a pair is its start line, its code and its end line. */
  lemma PairTextParts(indent: string, name: string, code: string, close: string)
    ensures PairText(indent, name, code, close)
         == (indent + StartMarker + name + "\n") + (code + "\n" + close + EndMarker + name)
  {
  }

  /** The start line of a pair found at `q`, up to and including its newline. */
  lemma StartLineLayout(t: string, q: nat, p: Pair)
    requires StartLineAt(t, q, p)
    ensures At(t, q, t[q..q + p.indent] + StartMarker + t[NameAt(q, p)..NameAt(q, p) + p.name] + "\n")
  {
    SpanChars(t, q, p.indent, IndentChar);
    SpanChars(t, NameAt(q, p), p.name, LineChar);
    var x := t[q..q + p.indent];
    AtSelf(t, q, q + p.indent);
    AtConcat(t, q, x, StartMarker);
    x := x + StartMarker;
    AtSelf(t, NameAt(q, p), NameAt(q, p) + p.name);
    AtConcat(t, q, x, t[NameAt(q, p)..NameAt(q, p) + p.name]);
    x := x + t[NameAt(q, p)..NameAt(q, p) + p.name];
    AtSlice(t, CodeAt(q, p) - 1, "\n");
    AtConcat(t, q, x, "\n");
  }

  /** From its code on, a pair found at `q` is the code, a newline, the end indent, the end marker and the name again. */
  lemma EndLineLayout(t: string, q: nat, p: Pair)
    requires EndLineAt(t, q, p)
    ensures At(t, CodeAt(q, p), t[CodeAt(q, p)..CodeAt(q, p) + p.code] + "\n" + t[CloseAt(q, p)..EndMarkerAt(q, p)]
      + EndMarker + t[NameAt(q, p)..NameAt(q, p) + p.name])
  {
    var c := CodeAt(q, p);
    SpanChars(t, CloseAt(q, p), p.closeIndent, IndentChar);
    AtSelf(t, c, c + p.code);
    var x := t[c..c + p.code];
    AtSlice(t, CloseAt(q, p) - 1, "\n");
    AtConcat(t, c, x, "\n");
    x := x + "\n";
    AtSelf(t, CloseAt(q, p), EndMarkerAt(q, p));
    AtConcat(t, c, x, t[CloseAt(q, p)..EndMarkerAt(q, p)]);
    x := x + t[CloseAt(q, p)..EndMarkerAt(q, p)];
    AtConcat(t, c, x, EndMarker);
    x := x + EndMarker;
    RepeatsSlices(t, EndMarkerAt(q, p) + |EndMarker|, NameAt(q, p), p.name);
    AtSlice(t, EndMarkerAt(q, p) + |EndMarker|, t[NameAt(q, p)..NameAt(q, p) + p.name]);
    AtConcat(t, c, x, t[NameAt(q, p)..NameAt(q, p) + p.name]);
  }

  /** A pair found at `q` is laid out as `PairText` with its own indents, name and code. */
  lemma PairLayout(t: string, q: nat, p: Pair)
    requires IsPairAt(t, q, p)
    ensures PairEnd(q, p) <= |t|
    ensures At(t, q, PairText(t[q..q + p.indent], t[NameAt(q, p)..NameAt(q, p) + p.name],
      t[CodeAt(q, p)..CodeAt(q, p) + p.code], t[CloseAt(q, p)..EndMarkerAt(q, p)]))
  {
    var indent, name := t[q..q + p.indent], t[NameAt(q, p)..NameAt(q, p) + p.name];
    var code, close := t[CodeAt(q, p)..CodeAt(q, p) + p.code], t[CloseAt(q, p)..EndMarkerAt(q, p)];
    StartLineLayout(t, q, p);
    EndLineLayout(t, q, p);
    var start := indent + StartMarker + name + "\n";
    assert q + |start| == CodeAt(q, p);
    AtConcat(t, q, start, code + "\n" + close + EndMarker + name);
    PairTextParts(indent, name, code, close);
  }

  /** The indents of a pair are white space other than newlines, and its name holds no newline. */
  lemma PairClasses(t: string, q: nat, p: Pair)
    requires IsPairAt(t, q, p)
    ensures Indentation(t[q..q + p.indent]) && Indentation(t[CloseAt(q, p)..EndMarkerAt(q, p)])
    ensures '\n' !in t[NameAt(q, p)..NameAt(q, p) + p.name]
  {
    SpanChars(t, q, p.indent, IndentChar);
    SpanChars(t, NameAt(q, p), p.name, LineChar);
    SpanChars(t, CloseAt(q, p), p.closeIndent, IndentChar);
    var name := t[NameAt(q, p)..NameAt(q, p) + p.name];
    assert forall i :: 0 <= i < p.name ==> name[i] == t[NameAt(q, p) + i];
  }

  /**
   * Every match of `codeBlockInTests` sits at a line start and reads, exactly,
   * `INDENT// start docs NAME\nCODE\nINDENT2// end docs NAME`: the end marker
   * repeats the start marker's name.
   */
  lemma MatchLayout(text: string, m: Match)
    requires m in Matches(text)
    ensures End(m) <= |text|
    ensures LineStart(text, m.start)
    ensures At(text, m.start, PairText(Indent(text, m), Name(text, m), Code(text, m), CloseIndent(text, m)))
  {
    MatchIsPair(text, m);
    PairMatchLayout(text, m);
  }

  lemma PairMatchLayout(text: string, m: Match)
    requires IsPairAt(text, m.start, m.pair)
    ensures End(m) <= |text|
    ensures At(text, m.start, PairText(Indent(text, m), Name(text, m), Code(text, m), CloseIndent(text, m)))
  {
    var q, p := m.start, m.pair;
    PairLayout(text, q, p);
    assert Indent(text, m) == text[q..q + p.indent];
    assert Name(text, m) == text[NameAt(q, p)..NameAt(q, p) + p.name];
    assert Code(text, m) == text[CodeAt(q, p)..CodeAt(q, p) + p.code];
    assert CloseIndent(text, m) == text[CloseAt(q, p)..EndMarkerAt(q, p)];
  }

  /** The indents of a match are white space other than newlines, its name is one non-empty line and its code is not empty. */
  lemma MatchParts(text: string, m: Match)
    requires m in Matches(text)
    ensures End(m) <= |text|
    ensures Indentation(Indent(text, m)) && Indentation(CloseIndent(text, m))
    ensures |Name(text, m)| > 0 && '\n' !in Name(text, m) && |Code(text, m)| > 0
  {
    MatchIsPair(text, m);
    PairMatchParts(text, m);
  }

  lemma PairMatchParts(text: string, m: Match)
    requires IsPairAt(text, m.start, m.pair)
    ensures End(m) <= |text|
    ensures Indentation(Indent(text, m)) && Indentation(CloseIndent(text, m))
    ensures |Name(text, m)| > 0 && '\n' !in Name(text, m) && |Code(text, m)| > 0
  {
    var q, p := m.start, m.pair;
    PairClasses(text, q, p);
    assert Indent(text, m) == text[q..q + p.indent];
    assert Name(text, m) == text[NameAt(q, p)..NameAt(q, p) + p.name];
    assert CloseIndent(text, m) == text[CloseAt(q, p)..EndMarkerAt(q, p)];
  }

  lemma MatchIsPair(text: string, m: Match)
    requires m in Matches(text)
    ensures IsPairAt(text, m.start, m.pair) && End(m) <= |text|
    ensures LineStart(text, m.start)
  {
    MatchesFromSound(text, 0);
    PairAtSound(text, m.start);
  }

  /** `q` is the start of the text or of a line in it. */
  predicate LineStart(text: string, q: nat)
  {
    q <= |text| && (q == 0 || text[q - 1] == '\n')
  }

  /**
   * The line starts the pattern tries when `matchAll` stands at `p`: `^` only at
   * the very start of the text, and the line after a newline at or beyond `p`.
   */
  predicate Tried(text: string, p: nat, q: nat)
  {
    q <= |text| && ((q == 0 && p == 0) || (1 <= q && p <= q - 1 && text[q - 1] == '\n'))
  }

  /** The pattern at position `p`: first the `^` alternative, then the `\n` one. */
  function MatchAt(text: string, p: nat): (r: Option<Match>)
    requires p < |text|
    ensures r.Some? ==> p <= r.value.start <= |text|
  {
    if p == 0 && PairAt(text, 0).Some? then Some(Match(0, PairAt(text, 0).value))
    else if text[p] == '\n' && PairAt(text, p + 1).Some? then Some(Match(p + 1, PairAt(text, p + 1).value))
    else None
  }

  /**
   * `text.matchAll(codeBlockInTests())` from position `p`: the matches in order,
   * each the leftmost one after the previous match's end.
   */
  function MatchesFrom(text: string, p: nat): seq<Match>
    decreases |text| - p
  {
    if p >= |text| then []
    else
      match MatchAt(text, p)
      case Some(m) => [m] + MatchesFrom(text, End(m))
      case None => MatchesFrom(text, p + 1)
  }

  function Matches(text: string): seq<Match>
  {
    MatchesFrom(text, 0)
  }

  /** One step of the search: a match is a pair at a line start tried from `p`. */
  lemma MatchAtFound(text: string, p: nat)
    requires p < |text|
    ensures MatchAt(text, p).Some? ==>
      Tried(text, p, MatchAt(text, p).value.start) && MatchAt(text, p).value.start <= p + 1
      && PairAt(text, MatchAt(text, p).value.start) == Some(MatchAt(text, p).value.pair)
  {
  }

  /** One step of the search: no line start tried from `p` before the match (or at all, when there is none) holds a pair. */
  lemma MatchAtFirst(text: string, p: nat)
    requires p < |text|
    ensures forall q: nat ::
      (Tried(text, p, q) && q <= p + 1 && (MatchAt(text, p).None? || q < MatchAt(text, p).value.start))
      ==> PairAt(text, q).None?
  {
  }

  /** A match found from `p`: a pair at a line start tried from `p`, inside the text. */
  predicate FoundFrom(text: string, p: nat, m: Match)
  {
    Tried(text, p, m.start) && PairAt(text, m.start) == Some(m.pair) && End(m) <= |text|
  }

  /** Every match found from `p` is a pair at a line start tried from `p`, inside the text. */
  lemma {:induction false} MatchesFromSound(text: string, p: nat)
    ensures forall m :: m in MatchesFrom(text, p) ==> FoundFrom(text, p, m)
    decreases |text| - p
  {
    if p < |text| {
      MatchAtFound(text, p);
      match MatchAt(text, p)
      case Some(m) =>
        PairAtFits(text, m.start);
        MatchesFromSound(text, End(m));
        assert MatchesFrom(text, p) == [m] + MatchesFrom(text, End(m));
        FoundLater(text, p, End(m), MatchesFrom(text, End(m)));
      case None =>
        assert MatchesFrom(text, p) == MatchesFrom(text, p + 1);
        MatchesFromSound(text, p + 1);
        FoundLater(text, p, p + 1, MatchesFrom(text, p + 1));
    }
  }

  /** What is found from a later position is found from an earlier one. */
  lemma FoundLater(text: string, p: nat, p': nat, ms: seq<Match>)
    requires 0 < p' && p <= p'
    requires forall m :: m in ms ==> FoundFrom(text, p', m)
    ensures forall m :: m in ms ==> FoundFrom(text, p, m)
  {
    forall m | m in ms ensures FoundFrom(text, p, m) {
      assert FoundFrom(text, p', m);
    }
  }

  /** Matches that do not overlap, in text order: each starts after the previous one's end. */
  predicate InOrder(ms: seq<Match>)
  {
    forall k :: 0 <= k < |ms| - 1 ==> End(ms[k]) < ms[k + 1].start
  }

  lemma InOrderCons(m: Match, rest: seq<Match>)
    requires InOrder(rest) && (rest == [] || End(m) < rest[0].start)
    ensures InOrder([m] + rest)
  {
    var ms := [m] + rest;
    forall k | 1 <= k < |ms| - 1 ensures End(ms[k]) < ms[k + 1].start {
      assert ms[k] == rest[k - 1] && ms[k + 1] == rest[k];
    }
  }

  lemma {:induction false} MatchesFromOrdered(text: string, p: nat)
    ensures InOrder(MatchesFrom(text, p))
    decreases |text| - p
  {
    if p < |text| {
      match MatchAt(text, p)
      case Some(m) =>
        var rest := MatchesFrom(text, End(m));
        assert MatchesFrom(text, p) == [m] + rest;
        MatchesFromOrdered(text, End(m));
        if rest != [] {
          MatchesFromSound(text, End(m));
          assert rest[0] in rest;
        }
        InOrderCons(m, rest);
      case None =>
        assert MatchesFrom(text, p) == MatchesFrom(text, p + 1);
        MatchesFromOrdered(text, p + 1);
    }
  }

  /** No line start tried before the first match (or at all, when there is none) holds a pair: the search is leftmost. */
  lemma {:induction false} MatchesFromLeftmost(text: string, p: nat)
    ensures var ms := MatchesFrom(text, p);
      forall q: nat :: Tried(text, p, q) && (ms == [] || q < ms[0].start) ==> PairAt(text, q).None?
    decreases |text| - p
  {
    var ms := MatchesFrom(text, p);
    if p >= |text| {
      if p == 0 {
        assert PairAt(text, 0) == AfterIndent(text, 0, 0);
      }
    } else {
      MatchAtFirst(text, p);
      match MatchAt(text, p)
      case Some(m) =>
        assert ms[0] == m;
      case None =>
        assert ms == MatchesFrom(text, p + 1);
        MatchesFromLeftmost(text, p + 1);
        forall q: nat | Tried(text, p, q) && (ms == [] || q < ms[0].start) ensures PairAt(text, q).None? {
          if q > p + 1 {
            assert Tried(text, p + 1, q);
          }
        }
    }
  }


  /** A line start whose scanner finds nothing holds no pair. */
  lemma NoPairWhereNone(text: string, q: nat, pr: Pair)
    requires q <= |text|
    ensures PairAt(text, q).None? ==> !IsPairAt(text, q, pr)
  {
    if IsPairAt(text, q, pr) {
      PairAtShortest(text, q, pr);
    }
  }

  /** No pair stands at a line start tried from `p` before the first match. */
  lemma FirstGap(text: string, p: nat)
    ensures var ms := MatchesFrom(text, p);
      forall q: nat, pr :: Tried(text, p, q) && (ms == [] || q < ms[0].start) ==> !IsPairAt(text, q, pr)
  {
    var ms := MatchesFrom(text, p);
    MatchesFromLeftmost(text, p);
    forall q: nat, pr | Tried(text, p, q) && (ms == [] || q < ms[0].start) ensures !IsPairAt(text, q, pr) {
      NoPairWhereNone(text, q, pr);
    }
  }

  /**
   * No pair stands at a line start tried from `p` before the first of `ms`,
   * nor between one match's end and the next match, nor after the last.
   */
  ghost predicate Leftmost(text: string, p: nat, ms: seq<Match>)
    decreases |ms|
  {
    if ms == [] then forall q: nat, pr :: Tried(text, p, q) ==> !IsPairAt(text, q, pr)
    else
      && (forall q: nat, pr :: Tried(text, p, q) && q < ms[0].start ==> !IsPairAt(text, q, pr))
      && Leftmost(text, End(ms[0]), ms[1..])
  }

  /** The search skips no pair: every line start it passes over, before, between or after the matches, holds none. */
  lemma {:induction false} MatchesFromGaps(text: string, p: nat)
    ensures Leftmost(text, p, MatchesFrom(text, p))
    decreases |text| - p
  {
    var ms := MatchesFrom(text, p);
    FirstGap(text, p);
    if p < |text| && MatchAt(text, p).Some? {
      var m := MatchAt(text, p).value;
      assert ms[0] == m && ms[1..] == MatchesFrom(text, End(m));
      MatchesFromGaps(text, End(m));
    } else if p < |text| {
      assert ms == MatchesFrom(text, p + 1);
      MatchesFromGaps(text, p + 1);
    }
  }

  /** A pair at a line start that matches left uncovered would have been skipped. */
  lemma {:induction false} CoveredFrom(text: string, p: nat, ms: seq<Match>, q: nat, pr: Pair)
    ensures Leftmost(text, p, ms) && Tried(text, p, q) && IsPairAt(text, q, pr) ==>
      exists k :: 0 <= k < |ms| && ms[k].start <= q <= End(ms[k])
    decreases |ms|
  {
    if ms != [] && Leftmost(text, p, ms) && Tried(text, p, q) && IsPairAt(text, q, pr) {
      if q <= End(ms[0]) {
        assert ms[0].start <= q <= End(ms[0]);
      } else {
        assert Tried(text, End(ms[0]), q);
        CoveredFrom(text, End(ms[0]), ms[1..], q, pr);
        var k :| 0 <= k < |ms| - 1 && ms[1..][k].start <= q <= End(ms[1..][k]);
        assert ms[k + 1] == ms[1..][k];
      }
    }
  }

  /**
   * No pair at a line start is passed over: it is a match, or it starts
   * inside the text of one, as a block nested in that match's code does.
   */
  lemma PairCovered(text: string, q: nat, pr: Pair)
    requires LineStart(text, q) && IsPairAt(text, q, pr)
    ensures exists k :: 0 <= k < |Matches(text)| && Matches(text)[k].start <= q <= End(Matches(text)[k])
  {
    MatchesFromGaps(text, 0);
    assert Tried(text, 0, q);
    CoveredFrom(text, 0, Matches(text), q, pr);
  }

  /**
   * `code.replaceAll(new RegExp(`^${indent}`, 'gm'), '')`: at the start of every
   * line (the text's start and after each newline) the indent is removed where
   * the line begins with it.
   */
  function Dedent(s: string, indent: string): (r: string)
    ensures |r| <= |s|
    decreases |s|
  {
    var n := LineLength(s);
    var line := StripPrefix(s[..n], indent);
    if n == |s| then line else line + "\n" + Dedent(s[n + 1..], indent)
  }

  /** Every line with `indent` stripped where it starts with it. */
  function StripEach(lines: seq<string>, indent: string): (r: seq<string>)
    ensures |r| == |lines|
    ensures forall i :: 0 <= i < |lines| ==> r[i] == StripPrefix(lines[i], indent)
  {
    if lines == [] then [] else [StripPrefix(lines[0], indent)] + StripEach(lines[1..], indent)
  }

  lemma StripInLine(line: string, indent: string)
    requires '\n' !in line
    ensures '\n' !in StripPrefix(line, indent)
  {
    if StartsWith(line, indent) {
      assert line == indent + line[|indent|..];
    }
  }

  /** Dedent works line by line: the lines of the result are the lines of the input with the indent stripped. */
  lemma {:induction false} DedentLines(s: string, indent: string)
    ensures SplitLines(Dedent(s, indent)) == StripEach(SplitLines(s), indent)
    decreases |s|
  {
    var n := LineLength(s);
    var f := StripPrefix(s[..n], indent);
    StripInLine(s[..n], indent);
    if n < |s| {
      var rest := s[n + 1..];
      DedentLines(rest, indent);
      SplitFirst(f, Dedent(rest, indent));
      assert ([s[..n]] + SplitLines(rest))[1..] == SplitLines(rest);
    } else {
      OneLine(f);
      assert s[..n] == s;
      assert StripEach([s], indent) == [f];
    }
  }

  /** Dedent is the input's lines, each with the indent stripped, joined again with newlines. */
  lemma {:induction false} DedentJoin(s: string, indent: string)
    ensures Dedent(s, indent) == Join(StripEach(SplitLines(s), indent), "\n")
  {
    JoinSplitLines(Dedent(s, indent));
    DedentLines(s, indent);
  }

  /** The entry a match pushes: its name, and its code with the start marker's indent removed from every line. */
  function EntryOf(text: string, m: Match): Entry
    requires End(m) <= |text|
  {
    Entry(Name(text, m), Dedent(Code(text, m), Indent(text, m)))
  }

  /** Every match lies inside `text`. */
  predicate Fits(text: string, ms: seq<Match>)
  {
    forall k :: 0 <= k < |ms| ==> End(ms[k]) <= |text|
  }

  lemma MatchesFit(text: string)
    ensures Fits(text, Matches(text))
  {
    MatchesFromSound(text, 0);
    var ms := Matches(text);
    forall k | 0 <= k < |ms| ensures End(ms[k]) <= |text| {
      assert ms[k] in ms;
    }
  }

  /**
   * The pushes `scan(text)` makes, in order: for each match, its own entry, then
   * the entries of the blocks nested in its dedented code, then the next match.
   */
  function Collect(text: string): seq<Entry>
    decreases |text|, 1, 0
  {
    MatchesFit(text);
    CollectEach(text, Matches(text))
  }

  function CollectEach(text: string, ms: seq<Match>): seq<Entry>
    requires Fits(text, ms)
    decreases |text|, 0, |ms|
  {
    if ms == [] then []
    else
      var e := EntryOf(text, ms[0]);
      [e] + Collect(e.code) + CollectEach(text, ms[1..])
  }

  lemma {:induction false} CollectEachConcat(text: string, a: seq<Match>, b: seq<Match>)
    requires Fits(text, a) && Fits(text, b)
    ensures CollectEach(text, a + b) == CollectEach(text, a) + CollectEach(text, b)
    decreases |a|
  {
    if a == [] {
      assert a + b == b;
    } else {
      assert (a + b)[0] == a[0];
      assert (a + b)[1..] == a[1..] + b;
      CollectEachConcat(text, a[1..], b);
    }
  }

  /** The entries of the first `i + 1` matches: those of the first `i`, then the `i`-th match's own entry and its nested ones. */
  lemma CollectEachStep(text: string, ms: seq<Match>, i: nat)
    requires Fits(text, ms)
    requires i < |ms|
    ensures CollectEach(text, ms[..i + 1])
         == CollectEach(text, ms[..i]) + ([EntryOf(text, ms[i])] + Collect(EntryOf(text, ms[i]).code))
  {
    var m := ms[i];
    assert ms[..i + 1] == ms[..i] + [m];
    CollectEachConcat(text, ms[..i], [m]);
    CollectEachOne(text, m);
    calc {
      CollectEach(text, ms[..i + 1]);
      CollectEach(text, ms[..i] + [m]);
      CollectEach(text, ms[..i]) + CollectEach(text, [m]);
    }
  }

  lemma CollectEachOne(text: string, m: Match)
    requires End(m) <= |text|
    ensures CollectEach(text, [m]) == [EntryOf(text, m)] + Collect(EntryOf(text, m).code)
  {
    assert [m][1..] == [];
  }

  /**
   * The recursive `scan` of `collectExamples`: pushes every block of `text`, and
   * every block nested in it, onto `examples`.
   */
  method Scan(text: string, examples: ExampleMap) returns (result: ExampleMap)
    ensures result == AddEntries(examples, Collect(text))
    decreases |text|, 2
  {
    var ms := Matches(text);
    MatchesFit(text);
    result := examples;
    var i := 0;
    while i < |ms|
      invariant 0 <= i <= |ms|
      invariant result == AddEntries(examples, CollectEach(text, ms[..i]))
    {
      var m := ms[i];
      var dedented := Dedent(Code(text, m), Indent(text, m));
      ghost var before := CollectEach(text, ms[..i]);
      result := Push(result, Name(text, m), dedented);
      result := Scan(dedented, result);
      CollectEachStep(text, ms, i);
      AddEntriesThen(examples, before, EntryOf(text, m), Collect(dedented));
      i := i + 1;
    }
    assert ms[..i] == ms;
  }

  /** A text without any `// end docs ` closes no block, so it contributes nothing. */
  lemma NoEndMarkerNoEntries(text: string)
    ensures !Contains(text, EndMarker) ==> Matches(text) == [] && Collect(text) == []
  {
    if Matches(text) != [] {
      var m := Matches(text)[0];
      MatchIsPair(text, m);
      assert At(text, EndMarkerAt(m.start, m.pair), EndMarker);
    }
    MatchesFit(text);
  }

  /**
   * The first match is the leftmost pair: a pair at any line start means there
   * is a match, and the first one starts no later.
   */
  lemma FirstMatchLeftmost(text: string, q: nat, p: Pair)
    requires LineStart(text, q) && IsPairAt(text, q, p)
    ensures Matches(text) != [] && Matches(text)[0].start <= q
  {
    MatchesFromLeftmost(text, 0);
    assert Tried(text, 0, q);
    PairAtShortest(text, q, p);
  }

  /** Every match is a pair at a line start, and its code is the shortest any pair there could have (`(.+?)` is lazy). */
  lemma MatchShortest(text: string, m: Match, p: Pair)
    requires m in Matches(text)
    ensures IsPairAt(text, m.start, m.pair) && LineStart(text, m.start)
    ensures IsPairAt(text, m.start, p) ==> m.pair.code <= p.code
  {
    MatchIsPair(text, m);
    MatchesFromSound(text, 0);
    if IsPairAt(text, m.start, p) {
      PairAtShortest(text, m.start, p);
    }
  }

  /**
   * Within the entries of a list of matches, the entries of the matches before
   * the `k`-th come first, then the `k`-th match's own entry, then the entries
   * of the blocks nested in its code: an outer block is pushed before its
   * nested ones.
   */
  lemma OuterBeforeNested(text: string, ms: seq<Match>, k: nat)
    requires Fits(text, ms) && k < |ms|
    ensures var before, e := CollectEach(text, ms[..k]), EntryOf(text, ms[k]);
      var all := CollectEach(text, ms);
      |before| + 1 + |Collect(e.code)| <= |all|
      && all[..|before|] == before && all[|before|] == e
      && all[|before| + 1..|before| + 1 + |Collect(e.code)|] == Collect(e.code)
  {
    var e := EntryOf(text, ms[k]);
    CollectEachAround(text, ms, k);
    PartsAt(CollectEach(text, ms), CollectEach(text, ms[..k]), e, Collect(e.code), CollectEach(text, ms[k + 1..]));
  }

  lemma CollectEachAround(text: string, ms: seq<Match>, k: nat)
    requires Fits(text, ms) && k < |ms|
    ensures CollectEach(text, ms) == CollectEach(text, ms[..k])
      + (([EntryOf(text, ms[k])] + Collect(EntryOf(text, ms[k]).code)) + CollectEach(text, ms[k + 1..]))
  {
    CollectEachFrom(text, ms, k);
    assert ms == ms[..k] + ms[k..];
    CollectEachConcat(text, ms[..k], ms[k..]);
  }

  lemma CollectEachFrom(text: string, ms: seq<Match>, k: nat)
    requires Fits(text, ms) && k < |ms|
    ensures CollectEach(text, ms[k..])
      == ([EntryOf(text, ms[k])] + Collect(EntryOf(text, ms[k]).code)) + CollectEach(text, ms[k + 1..])
  {
    assert ms[k..] == [ms[k]] + ms[k + 1..];
    CollectEachConcat(text, [ms[k]], ms[k + 1..]);
    CollectEachOne(text, ms[k]);
  }

  lemma PartsAt<T>(all: seq<T>, before: seq<T>, e: T, nested: seq<T>, rest: seq<T>)
    requires all == before + (([e] + nested) + rest)
    ensures |before| + 1 + |nested| <= |all|
    ensures all[..|before|] == before && all[|before|] == e
    ensures all[|before| + 1..|before| + 1 + |nested|] == nested
  {
    assert all[..|before|] == before;
    assert all[|before| + 1..|before| + 1 + |nested|] == nested;
  }
}
