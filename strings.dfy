/** The JavaScript string primitives the renderer and the controller rely on:
    `trim`, `includes`, `split` on one character and `join`, written out over
    `seq<char>`. */
module Strings {

  /** Line terminators: the characters a regular-expression `.` does not match. */
  predicate IsLineTerminator(c: char) {
    c == '\n' || c == '\r' || c == '\U{2028}' || c == '\U{2029}'
  }

  /** The characters `String.prototype.trim` removes: white space (tab,
      vertical tab, form feed, space, no-break space, byte-order mark and the
      space separators) and the line terminators. */
  predicate IsJsWhitespace(c: char) {
    || c == '\t' || c == '\U{000B}' || c == '\U{000C}' || c == ' '
    || c == '\U{00A0}' || c == '\U{FEFF}' || c == '\U{1680}'
    || ('\U{2000}' <= c <= '\U{200A}')
    || c == '\U{202F}' || c == '\U{205F}' || c == '\U{3000}'
    || IsLineTerminator(c)
  }

  /** The first index at or after `i` that is not white space, or the end. */
  function SkipLeading(s: string, i: nat): (e: nat)
    requires i <= |s|
    ensures i <= e <= |s|
    ensures e < |s| ==> !IsJsWhitespace(s[e])
    decreases |s| - i
  {
    if i == |s| || !IsJsWhitespace(s[i]) then i else SkipLeading(s, i + 1)
  }

  /** The last index at or before `j`, and not before `lo`, that follows a
      character that is not white space, or `lo`. */
  function SkipTrailing(s: string, lo: nat, j: nat): (e: nat)
    requires lo <= j <= |s|
    ensures lo <= e <= j
    ensures e > lo ==> !IsJsWhitespace(s[e - 1])
    decreases j
  {
    if j == lo || !IsJsWhitespace(s[j - 1]) then j else SkipTrailing(s, lo, j - 1)
  }

  /** Every character of `t` is white space. */
  predicate AllWhitespace(t: string) {
    forall k :: 0 <= k < |t| ==> IsJsWhitespace(t[k])
  }

  /** What `SkipLeading` passes over is white space. */
  lemma {:induction false} SkipLeadingSkipsWhitespace(s: string, i: nat)
    requires i <= |s|
    ensures AllWhitespace(s[i..SkipLeading(s, i)])
    decreases |s| - i
  {
    if i < |s| && IsJsWhitespace(s[i]) {
      SkipLeadingSkipsWhitespace(s, i + 1);
      assert s[i..SkipLeading(s, i)] == [s[i]] + s[i + 1..SkipLeading(s, i + 1)];
    }
  }

  /** What `SkipTrailing` passes over is white space. */
  lemma {:induction false} SkipTrailingSkipsWhitespace(s: string, lo: nat, j: nat)
    requires lo <= j <= |s|
    ensures AllWhitespace(s[SkipTrailing(s, lo, j)..j])
    decreases j
  {
    if j > lo && IsJsWhitespace(s[j - 1]) {
      SkipTrailingSkipsWhitespace(s, lo, j - 1);
      assert s[SkipTrailing(s, lo, j)..j] == s[SkipTrailing(s, lo, j - 1)..j - 1] + [s[j - 1]];
    }
  }

  /** Where the trimmed text starts. */
  function TrimStartIndex(s: string): nat
    ensures TrimStartIndex(s) <= |s|
  {
    SkipLeading(s, 0)
  }

  /** Where the trimmed text ends. */
  function TrimEndIndex(s: string): nat
    ensures TrimStartIndex(s) <= TrimEndIndex(s) <= |s|
  {
    SkipTrailing(s, TrimStartIndex(s), |s|)
  }

  /** `s.trim()`: `s` without its leading and trailing white space. */
  function Trim(s: string): string {
    s[TrimStartIndex(s)..TrimEndIndex(s)]
  }

  /** Trim removes exactly a white-space prefix and a white-space suffix and
      keeps the infix between them, which starts and ends with a character
      that is not white space. */
  lemma TrimIsInfix(s: string) returns (i: nat)
    ensures i + |Trim(s)| <= |s| && s[i..i + |Trim(s)|] == Trim(s)
    ensures AllWhitespace(s[..i]) && AllWhitespace(s[i + |Trim(s)|..])
    ensures Trim(s) == "" || (!IsJsWhitespace(Trim(s)[0]) && !IsJsWhitespace(Trim(s)[|Trim(s)| - 1]))
  {
    i := TrimStartIndex(s);
    var j := TrimEndIndex(s);
    SkipLeadingSkipsWhitespace(s, 0);
    SkipTrailingSkipsWhitespace(s, i, |s|);
    assert s[..i] == s[0..i];
    assert i + |Trim(s)| == j && s[j..] == s[j..|s|];
    if i < j {
      assert Trim(s)[0] == s[i] && Trim(s)[|Trim(s)| - 1] == s[j - 1];
    }
  }

  /** A text that neither starts nor ends with white space is its own trim. */
  lemma TrimKeeps(s: string)
    requires s == "" || (!IsJsWhitespace(s[0]) && !IsJsWhitespace(s[|s| - 1]))
    ensures Trim(s) == s
  {
    if s != "" {
      assert TrimStartIndex(s) == 0;
      assert TrimEndIndex(s) == |s|;
    }
  }

  /** Trimming twice is trimming once. */
  lemma TrimIdempotent(s: string)
    ensures Trim(Trim(s)) == Trim(s)
  {
    var _ := TrimIsInfix(s);
    TrimKeeps(Trim(s));
  }

  /** `!s.trim()`: the text is blank. */
  predicate IsBlank(s: string) {
    Trim(s) == ""
  }

  /** A text is blank exactly when every character of it is white space. */
  lemma BlankIffAllWhitespace(s: string)
    ensures IsBlank(s) <==> AllWhitespace(s)
  {
    var i := TrimIsInfix(s);
    if Trim(s) != "" {
      assert s[i] == Trim(s)[0] && !IsJsWhitespace(s[i]);
    } else {
      assert s == s[..i] + s[i..];
    }
  }

  /** `t` occurs in `s` starting at index `i`. */
  predicate OccursAt(s: string, t: string, i: nat) {
    i + |t| <= |s| && s[i..i + |t|] == t
  }

  /** `s.includes(t)`. */
  predicate Contains(s: string, t: string) {
    exists i: nat :: i <= |s| && OccursAt(s, t, i)
  }

  /** An occurrence of `a + b` holds an occurrence of `b`. */
  lemma ContainsSuffix(s: string, a: string, b: string)
    requires Contains(s, a + b)
    ensures Contains(s, b)
  {
    var i: nat :| i <= |s| && OccursAt(s, a + b, i);
    var j := i + |a|;
    assert s[j..j + |b|] == (a + b)[|a|..];
    assert OccursAt(s, b, j);
  }

  /** A one-character needle is contained exactly when it occurs. */
  lemma ContainsChar(s: string, c: char)
    ensures Contains(s, [c]) <==> c in s
  {
    if c in s {
      var i :| 0 <= i < |s| && s[i] == c;
      assert OccursAt(s, [c], i);
    }
    if Contains(s, [c]) {
      var i: nat :| i <= |s| && OccursAt(s, [c], i);
      assert s[i] == s[i..i + 1][0] == c;
    }
  }

  /** `s.split(sep)` for a one-character separator: the maximal runs between
      separators, so an empty text gives one empty part. */
  function Split(s: string, sep: char): (parts: seq<string>)
    ensures |parts| >= 1
    ensures forall k :: 0 <= k < |parts| ==> sep !in parts[k]
  {
    if |s| == 0 then [""]
    else
      var rest := Split(s[1..], sep);
      if s[0] == sep then [""] + rest else [[s[0]] + rest[0]] + rest[1..]
  }

  /** `parts.join(sep)`. */
  function Join(parts: seq<string>, sep: string): string {
    if |parts| == 0 then ""
    else if |parts| == 1 then parts[0]
    else parts[0] + sep + Join(parts[1..], sep)
  }

  /** Splitting on a separator and joining with it gives back the text. */
  lemma {:induction false} SplitJoin(s: string, sep: char)
    ensures Join(Split(s, sep), [sep]) == s
  {
    if |s| > 0 {
      var rest := Split(s[1..], sep);
      SplitJoin(s[1..], sep);
      if s[0] == sep {
        assert Join(Split(s, sep), [sep]) == "" + [sep] + Join(rest, [sep]);
      } else if |rest| == 1 {
        assert Split(s, sep) == [[s[0]] + rest[0]];
      } else {
        assert Split(s, sep)[1..] == rest[1..];
        assert Join(rest, [sep]) == rest[0] + [sep] + Join(rest[1..], [sep]);
      }
      assert s == [s[0]] + s[1..];
    }
  }

  /** A text without the separator splits into itself alone. */
  lemma {:induction false} SplitWithoutSeparator(s: string, sep: char)
    requires sep !in s
    ensures Split(s, sep) == [s]
  {
    if |s| > 0 {
      assert sep !in s[1..];
      SplitWithoutSeparator(s[1..], sep);
      assert [s[0]] + s[1..] == s;
    }
  }

  /** The number of separators in a text is one less than its parts. */
  lemma {:induction false} SplitCount(s: string, sep: char)
    ensures |Split(s, sep)| == multiset(s)[sep] + 1
  {
    if |s| > 0 {
      SplitCount(s[1..], sep);
      assert s == [s[0]] + s[1..];
    }
  }

  /** No line terminator occurs in `t`: it lies on one line. */
  predicate OneLine(t: string) {
    |t| == 0 || (!IsLineTerminator(t[0]) && OneLine(t[1..]))
  }

  lemma {:induction false} OneLineIff(t: string)
    ensures OneLine(t) <==> forall k :: 0 <= k < |t| ==> !IsLineTerminator(t[k])
  {
    if |t| > 0 {
      OneLineIff(t[1..]);
      assert forall k :: 1 <= k < |t| ==> t[k] == t[1..][k - 1];
    }
  }

  /** The first line terminator at or after `i`, or the end of the text: where a
      greedy `.*` started at `i` stops. */
  function LineEnd(s: string, i: nat): (e: nat)
    requires i <= |s|
    ensures i <= e <= |s|
    ensures e < |s| ==> IsLineTerminator(s[e])
    decreases |s| - i
  {
    if i == |s| then i
    else if IsLineTerminator(s[i]) then i
    else LineEnd(s, i + 1)
  }

  /** `LineEnd` stops at the first line terminator: what it skips is one line. */
  lemma {:induction false} LineEndIsFirst(s: string, i: nat)
    requires i <= |s|
    ensures OneLine(s[i..LineEnd(s, i)])
    decreases |s| - i
  {
    if i < |s| && !IsLineTerminator(s[i]) {
      LineEndIsFirst(s, i + 1);
      assert s[i..LineEnd(s, i)][1..] == s[i + 1..LineEnd(s, i + 1)];
    }
  }

  /** A greedy `.*` that meets no line terminator runs to the end. */
  lemma {:induction false} LineEndAtEnd(s: string, i: nat)
    requires i <= |s| && OneLine(s[i..])
    ensures LineEnd(s, i) == |s|
    decreases |s| - i
  {
    if i < |s| {
      assert s[i..][1..] == s[i + 1..];
      LineEndAtEnd(s, i + 1);
    }
  }

  /** The inductive step shared by the line-locality proofs of the rewrites:
      a rewrite `f` that emits `out` for the first `n` characters of a line,
      whether or not more lines follow, and that is line-local on the rest of
      the line, is line-local on the whole line. Stated over an arbitrary `f`
      so that its proof is pure regrouping. */
  lemma LineGlue(f: string -> string, a: string, b: string, n: nat, out: string)
    requires n <= |a|
    requires f(a + "\n" + b) == out + f(a[n..] + "\n" + b)
    requires f(a) == out + f(a[n..])
    requires f(a[n..] + "\n" + b) == f(a[n..]) + "\n" + f(b)
    ensures f(a + "\n" + b) == f(a) + "\n" + f(b)
  {
    var x, y := f(a[n..]), f(b);
    assert out + (x + "\n" + y) == (out + x) + "\n" + y;
  }

  /** The rest of a text broken at a line break, after `n` characters of a
      first line. */
  lemma AfterPrefix(a: string, b: string, n: nat)
    requires n <= |a|
    ensures (a + "\n" + b)[..n] == a[..n] && (a + "\n" + b)[n..] == a[n..] + "\n" + b
  {
  }
}
