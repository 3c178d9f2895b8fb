/**
 * Character classes and string helpers shared by the two block scanners.
 * Strings are sequences of Unicode scalar values; the character classes are
 * those of the JavaScript regular expressions in lib/index.ts.
 */
module Text {

  /** JavaScript `\s`: the white-space and line-terminator characters. */
  predicate IsSpace(c: char)
  {
    || c == ' ' || c == '\t' || c == '\n' || c == '\U{B}' || c == '\U{C}' || c == '\r'
    || c == '\U{A0}' || c == '\U{1680}' || ('\U{2000}' <= c <= '\U{200A}')
    || c == '\U{2028}' || c == '\U{2029}' || c == '\U{202F}' || c == '\U{205F}'
    || c == '\U{3000}' || c == '\U{FEFF}'
  }

  /** `[^\S\n]`: white space other than a newline (a start marker's indent). */
  predicate IsIndent(c: char)
  {
    IsSpace(c) && c != '\n'
  }

  /** `[A-z0-9]`: code points 0x41..0x7A and the digits. The range also holds `[ \ ] ^ _` and the backtick. */
  predicate IsTagChar(c: char)
  {
    ('A' <= c <= 'z') || ('0' <= c <= '9')
  }

  predicate NotNewline(c: char)
  {
    c != '\n'
  }

  /** The character classes the patterns repeat. */
  datatype Class = IndentChar | LineChar | SpaceChar | TagChar

  predicate In(c: char, k: Class)
  {
    match k
    case IndentChar => IsIndent(c)
    case LineChar => NotNewline(c)
    case SpaceChar => IsSpace(c)
    case TagChar => IsTagChar(c)
  }

  predicate StartsWith(s: string, prefix: string)
  {
    |prefix| <= |s| && s[..|prefix|] == prefix
  }

  /** `t` stands in `s` at position `i`. */
  predicate At(s: string, i: nat, t: string)
  {
    i + |t| <= |s| && AtFrom(s, i, t, 0)
  }

  /** `t` from its `k`-th character on stands in `s` at position `i + k`. */
  predicate AtFrom(s: string, i: nat, t: string, k: nat)
    decreases |t| - k
  {
    k >= |t| || (i + k < |s| && s[i + k] == t[k] && AtFrom(s, i, t, k + 1))
  }

  /** Each character of a string standing at `i`, by its position in `s`. */
  lemma AtChars(s: string, i: nat, t: string)
    requires At(s, i, t)
    ensures i + |t| <= |s| && forall z :: i <= z < i + |t| ==> s[z] == t[z - i]
  {
    AtSlice(s, i, t);
    forall z | i <= z < i + |t| ensures s[z] == t[z - i] {
      assert s[z] == s[i..i + |t|][z - i];
    }
  }

  /** A string standing at `i` fits in `s`, and each of its characters is there. */
  lemma {:induction false} AtFromChars(s: string, i: nat, t: string, k: nat)
    requires AtFrom(s, i, t, k)
    ensures k < |t| ==> i + |t| <= |s|
    ensures forall j :: k <= j < |t| ==> i + j < |s| && s[i + j] == t[j]
    decreases |t| - k
  {
    if k < |t| {
      AtFromChars(s, i, t, k + 1);
    }
  }

  lemma AtFirst(s: string, i: nat, t: string)
    requires At(s, i, t) && |t| > 0
    ensures i < |s| && s[i] == t[0]
  {
    AtFromChars(s, i, t, 0);
  }

  /** `t` stands at `i` exactly when the slice of `s` there is `t`. */
  lemma AtSlice(s: string, i: nat, t: string)
    ensures At(s, i, t) <==> i + |t| <= |s| && s[i..i + |t|] == t
  {
    if At(s, i, t) {
      AtFromChars(s, i, t, 0);
    } else if i + |t| <= |s| && s[i..i + |t|] == t {
      AtFromSlice(s, i, t, 0);
    }
  }

  lemma {:induction false} AtFromSlice(s: string, i: nat, t: string, k: nat)
    requires i + |t| <= |s| && s[i..i + |t|] == t
    ensures AtFrom(s, i, t, k)
    decreases |t| - k
  {
    if k < |t| {
      assert s[i + k] == s[i..i + |t|][k];
      AtFromSlice(s, i, t, k + 1);
    }
  }

  /** Two strings standing one after the other stand together. */
  lemma AtConcat(s: string, i: nat, x: string, y: string)
    requires At(s, i, x) && At(s, i + |x|, y)
    ensures At(s, i, x + y)
  {
    AtSlice(s, i, x);
    AtSlice(s, i + |x|, y);
    assert s[i..i + |x + y|] == s[i..i + |x|] + s[i + |x|..i + |x| + |y|];
    AtSlice(s, i, x + y);
  }

  /** A slice of `s` stands where it was cut. */
  lemma AtSelf(s: string, i: nat, j: nat)
    requires i <= j <= |s|
    ensures At(s, i, s[i..j])
  {
    AtSlice(s, i, s[i..j]);
  }

  /** The `n` characters of `u` from `a` on are those of `v` from `b` on. */
  predicate Agree(u: string, a: nat, v: string, b: nat, n: nat)
  {
    a + n <= |u| && b + n <= |v| && forall j :: a <= j < a + n ==> u[j] == v[b + (j - a)]
  }

  /** Inside a window, a string stands in `v` exactly when it stands at the same place in `u`. */
  lemma AtWindow(u: string, a: nat, v: string, b: nat, n: nat, i: nat, t: string)
    requires Agree(u, a, v, b, n) && b <= i && i + |t| <= b + n
    ensures At(u, a + (i - b), t) <==> At(v, i, t)
  {
    AtSlice(u, a + (i - b), t);
    AtSlice(v, i, t);
    SliceWindow(u, a, v, b, n, i, i + |t|);
  }

  /** A span inside a window of `v` is a span at the same place in the window of `u`. */
  lemma {:induction false} SpanWindow(u: string, a: nat, v: string, b: nat, n: nat, i: nat, m: nat, p: Class)
    requires Agree(u, a, v, b, n) && b <= i && i + m <= b + n && Span(v, i, m, p)
    ensures Span(u, a + (i - b), m, p)
    decreases m
  {
    if m > 0 {
      assert u[a + (i - b)] == v[i];
      SpanWindow(u, a, v, b, n, i + 1, m - 1, p);
    }
  }

  /** A slice inside a window of `v` is the slice at the same place in the window of `u`. */
  lemma SliceWindow(u: string, a: nat, v: string, b: nat, n: nat, i: nat, k: nat)
    requires Agree(u, a, v, b, n) && b <= i <= k <= b + n
    ensures u[a + (i - b)..a + (k - b)] == v[i..k]
  {
    var x := a + (i - b);
    forall j | 0 <= j < k - i ensures u[x..a + (k - b)][j] == v[i..k][j] {
      assert u[x + j] == v[i + j];
    }
  }

  /** `t` occurs somewhere in `s`. */
  predicate Contains(s: string, t: string)
  {
    exists i: nat :: i <= |s| && At(s, i, t)
  }

  /** The `n` characters of `s` from position `i` on are all in the class `p`. */
  predicate Span(s: string, i: nat, n: nat, p: Class)
    decreases n
  {
    if n == 0 then i <= |s| else i < |s| && In(s[i], p) && Span(s, i + 1, n - 1, p)
  }

  /** A span fits in `s`, and each of its characters is in the class. */
  lemma {:induction false} SpanChars(s: string, i: nat, n: nat, p: Class)
    requires Span(s, i, n, p)
    ensures i + n <= |s|
    ensures forall j :: i <= j < i + n ==> In(s[j], p)
    decreases n
  {
    if n > 0 {
      SpanChars(s, i + 1, n - 1, p);
    }
  }

  /** A shorter span at the same place. */
  lemma {:induction false} SpanPrefix(s: string, i: nat, n: nat, m: nat, p: Class)
    requires Span(s, i, n, p) && m <= n
    ensures Span(s, i, m, p)
    decreases m
  {
    if m > 0 {
      SpanPrefix(s, i + 1, n - 1, m - 1, p);
    }
  }

  /** Every character of `s` is in the class `p`. */
  predicate Chars(s: string, p: Class)
  {
    forall i :: 0 <= i < |s| ==> In(s[i], p)
  }

  /** The characters a span covers, cut out of `s`. */
  lemma SpanSlice(s: string, i: nat, n: nat, p: Class)
    requires Span(s, i, n, p)
    ensures i + n <= |s| && Chars(s[i..i + n], p)
  {
    SpanChars(s, i, n, p);
    var x := s[i..i + n];
    forall j | 0 <= j < |x| ensures In(x[j], p) {
      assert x[j] == s[i + j];
    }
  }

  /** Number of characters from position `i` on that all satisfy `p` (a greedy `[...]*`). */
  function Run(s: string, i: nat, p: Class): (n: nat)
    requires i <= |s|
    ensures i + n <= |s|
    ensures i + n == |s| || !In(s[i + n], p)
    decreases |s| - i
  {
    if i == |s| || !In(s[i], p) then 0 else 1 + Run(s, i + 1, p)
  }

  /** Every character a run covers is in the class. */
  lemma {:induction false} RunCovers(s: string, i: nat, p: Class)
    requires i <= |s|
    ensures Span(s, i, Run(s, i, p), p)
    decreases |s| - i
  {
    if i < |s| && In(s[i], p) {
      RunCovers(s, i + 1, p);
    }
  }

  /** Any length whose characters satisfy `p` and that is stopped by a character is the run. */
  lemma {:induction false} RunUnique(s: string, i: nat, p: Class, n: nat)
    requires i + n <= |s|
    requires forall j :: i <= j < i + n ==> In(s[j], p)
    requires i + n == |s| || !In(s[i + n], p)
    ensures Run(s, i, p) == n
    decreases n
  {
    if n > 0 {
      RunUnique(s, i + 1, p, n - 1);
    }
  }

  /** A span stopped by a character outside the class is the run. */
  lemma RunOver(s: string, i: nat, n: nat, p: Class)
    requires Span(s, i, n, p) && i + n < |s| && !In(s[i + n], p)
    ensures Run(s, i, p) == n
  {
    SpanChars(s, i, n, p);
    RunUnique(s, i, p, n);
  }

  /** The greedy run is at least as long as any span at the same place. */
  lemma {:induction false} RunAtLeast(s: string, i: nat, n: nat, p: Class)
    requires Span(s, i, n, p)
    ensures n <= Run(s, i, p)
    decreases n
  {
    if n > 0 {
      RunAtLeast(s, i + 1, n - 1, p);
    }
  }

  /** The first line of `s`: everything before the first newline. */
  function LineLength(s: string): (n: nat)
    ensures n <= |s| && '\n' !in s[..n]
    ensures n == |s| || s[n] == '\n'
  {
    var n := Run(s, 0, LineChar);
    RunCovers(s, 0, LineChar);
    SpanChars(s, 0, n, LineChar);
    assert forall j :: 0 <= j < n ==> s[..n][j] == s[j];
    n
  }

  /** `parts.join(sep)` */
  function Join(parts: seq<string>, sep: string): string
  {
    if |parts| == 0 then ""
    else if |parts| == 1 then parts[0]
    else parts[0] + sep + Join(parts[1..], sep)
  }

  /** `s.split('\n')`: always at least one line, none containing a newline. */
  function SplitLines(s: string): (lines: seq<string>)
    ensures |lines| >= 1
    ensures forall i :: 0 <= i < |lines| ==> '\n' !in lines[i]
    decreases |s|
  {
    var n := LineLength(s);
    if n == |s| then [s] else [s[..n]] + SplitLines(s[n + 1..])
  }

  /** Splitting at newlines and joining with newlines gives the text back. */
  lemma {:induction false} JoinSplitLines(s: string)
    ensures Join(SplitLines(s), "\n") == s
    decreases |s|
  {
    var n := LineLength(s);
    if n == |s| {
      assert SplitLines(s) == [s];
    } else {
      var rest := s[n + 1..];
      var lines := SplitLines(rest);
      assert SplitLines(s) == [s[..n]] + lines;
      assert ([s[..n]] + lines)[1..] == lines;
      assert Join([s[..n]] + lines, "\n") == s[..n] + "\n" + Join(lines, "\n");
      JoinSplitLines(rest);
      assert s == s[..n] + "\n" + rest;
    }
  }

  /** A newline-free text is one whole line. */
  lemma WholeLine(a: string)
    requires '\n' !in a
    ensures LineLength(a) == |a|
  {
    RunUnique(a, 0, LineChar, |a|);
  }

  /** A newline-free text followed by a newline is the first line. */
  lemma FirstLine(a: string, rest: string)
    requires '\n' !in a
    ensures LineLength(a + "\n" + rest) == |a|
  {
    var s := a + "\n" + rest;
    forall i | 0 <= i < |a| ensures NotNewline(s[i]) {
      assert s[i] == a[i];
    }
    RunUnique(s, 0, LineChar, |a|);
  }

  lemma OneLine(s: string)
    requires '\n' !in s
    ensures SplitLines(s) == [s]
  {
    WholeLine(s);
  }

  /** Splitting at the first newline. */
  lemma SplitFirst(first: string, rest: string)
    requires '\n' !in first
    ensures SplitLines(first + "\n" + rest) == [first] + SplitLines(rest)
  {
    var s := first + "\n" + rest;
    FirstLine(first, rest);
    assert s[..|first|] == first;
    assert s[|first| + 1..] == rest;
  }


  /** `line` without `prefix` when it starts with it, otherwise unchanged. */
  function StripPrefix(line: string, prefix: string): (r: string)
    ensures StartsWith(line, prefix) ==> line == prefix + r
    ensures !StartsWith(line, prefix) ==> r == line
  {
    if StartsWith(line, prefix) then line[|prefix|..] else line
  }
}
