/** The reduced markdown transform applied to the non-table parts of a reply:
    a `### ` heading, `**bold**` spans and line breaks. Each of the three
    global regular-expression replacements is written out as a scan. */
module Markdown {
  import opened Types
  import opened Strings

  /** `replace(/### (.*)/g, '<h3>$1</h3>')`: every `### ` (anywhere on a line)
      and the rest of its line become a heading. */
  function Headings(s: string): string
    decreases |s|
  {
    if |s| == 0 then ""
    else if HeadingAt(s) then
      var e := LineEnd(s, 4);
      "<h3>" + s[4..e] + "</h3>" + Headings(s[e..])
    else [s[0]] + Headings(s[1..])
  }

  /** The text starts with `### `. */
  predicate HeadingAt(s: string) {
    |s| >= 4 && s[0] == '#' && s[1] == '#' && s[2] == '#' && s[3] == ' '
  }

  /** `**` starts at index `k`. */
  predicate StarsAt(s: string, k: nat) {
    k + 1 < |s| && s[k] == '*' && s[k + 1] == '*'
  }

  /** Where the lazy `(.*?)\*\*` begun at `q` closes: the first `**` at or
      after `q` with no line terminator before it. */
  function FindClose(s: string, q: nat): (r: Option<nat>)
    ensures r.Some? ==> q <= r.value && StarsAt(s, r.value)
    decreases |s| - q
  {
    if q + 2 > |s| then None
    else if s[q] == '*' && s[q + 1] == '*' then Some(q)
    else if IsLineTerminator(s[q]) then None
    else FindClose(s, q + 1)
  }

  // `replace(/\*\*(.*?)\*\*/g, '<strong>$1</strong>')`: each `**` that has a
  // closing `**` later on its line starts a strong span.
  function Bold(s: string): string
    decreases |s|
  {
    if |s| == 0 then ""
    else match SpanAt(s)
      case Some(q) => "<strong>" + s[2..q] + "</strong>" + Bold(s[q + 2..])
      case None => [s[0]] + Bold(s[1..])
  }

  /** The bold span that opens at the start of `s`, given by the index of its
      closing `**`, if there is one. */
  function SpanAt(s: string): (r: Option<nat>)
    ensures r.Some? ==> 2 <= r.value && r.value + 2 <= |s|
  {
    if StarsAt(s, 0) then FindClose(s, 2) else None
  }

  /** `replace(/\n/g, '<br/>')`. */
  function Breaks(s: string): (r: string)
    ensures '\n' !in r
  {
    if |s| == 0 then ""
    else (if s[0] == '\n' then "<br/>" else [s[0]]) + Breaks(s[1..])
  }

  /** `convertMarkdownToHTML`: headings, then bold, then line breaks. */
  function ConvertMarkdown(md: string): (html: string)
    ensures '\n' !in html
  {
    Breaks(Bold(Headings(md)))
  }

  /** A heading line: `### ` followed by text on one line. */
  lemma HeadingLine(t: string)
    requires OneLine(t)
    ensures Headings("### " + t) == "<h3>" + t + "</h3>"
  {
    var s := "### " + t;
    assert HeadingAt(s) && s[4..] == t;
    LineEndAtEnd(s, 4);
    assert s[|s|..] == "";
  }

  /** The lazy scan closes at the first `**`, and only if no line terminator
      comes before it. */
  lemma {:induction false} FindCloseIsLazy(s: string, q: nat)
    ensures FindClose(s, q).Some? ==> OneLine(s[q..FindClose(s, q).value])
    ensures FindClose(s, q).Some? ==> forall k: nat :: q <= k < FindClose(s, q).value ==> !StarsAt(s, k)
    decreases |s| - q
  {
    if q + 2 <= |s| && !StarsAt(s, q) && !IsLineTerminator(s[q]) {
      FindCloseIsLazy(s, q + 1);
      if FindClose(s, q).Some? {
        assert s[q..FindClose(s, q).value][1..] == s[q + 1..FindClose(s, q).value];
      }
    }
  }

  /** A text in which no `*` occurs is left alone by the bold rewrite. */
  lemma {:induction false} BoldPlain(s: string)
    requires '*' !in s
    ensures Bold(s) == s
  {
    if |s| > 0 {
      BoldPlain(s[1..]);
      assert s == [s[0]] + s[1..];
    }
  }

  /** `**x**` becomes a strong span when `x` lies on one line and holds no `*`. */
  lemma BoldSpan(x: string)
    requires OneLine(x) && '*' !in x
    ensures Bold("**" + x + "**") == "<strong>" + x + "</strong>"
  {
    var s := "**" + x + "**";
    FindCloseSkips("**", x, "**");
    assert SpanAt(s) == Some(|x| + 2);
    assert s[2..|x| + 2] == x && s[|x| + 4..] == "";
  }

  /** The scan for `**` passes over a stretch of one line free of `*`. */
  lemma {:induction false} FindCloseSkips(p: string, x: string, rest: string)
    requires OneLine(x) && '*' !in x && |rest| >= 2 && rest[0] == '*' && rest[1] == '*'
    ensures FindClose(p + x + rest, |p|) == Some(|p| + |x|)
    decreases |x|
  {
    var s := p + x + rest;
    if |x| == 0 {
      assert s[|p|] == rest[0] && s[|p| + 1] == rest[1];
    } else {
      assert s[|p|] == x[0];
      assert s == (p + [x[0]]) + x[1..] + rest;
      FindCloseSkips(p + [x[0]], x[1..], rest);
    }
  }

  /** The closing `**` of a bold span is found before the end of its line, so
      a following line never changes where it closes. */
  lemma {:induction false} FindCloseLines(a: string, b: string, q: nat)
    requires q <= |a|
    ensures FindClose(a + "\n" + b, q) == FindClose(a, q)
    decreases |a| - q
  {
    var s := a + "\n" + b;
    if q + 2 <= |a| {
      assert s[q] == a[q] && s[q + 1] == a[q + 1];
      FindCloseLines(a, b, q + 1);
    } else if q + 1 == |a| {
      assert s[q] == a[q] && s[q + 1] == '\n';
      FindCloseLines(a, b, q + 1);
    } else {
      assert q == |a| && (q + 2 > |s| || s[q] == '\n');
    }
  }

  /** Whether a bold span opens at the start of a line, and where it closes,
      does not depend on the lines after it. */
  lemma SpanAtLines(a: string, b: string)
    requires |a| > 0
    ensures SpanAt(a + "\n" + b) == SpanAt(a)
  {
    var s := a + "\n" + b;
    if |a| >= 2 {
      FindCloseLines(a, b, 2);
      assert s[0] == a[0] && s[1] == a[1];
    } else {
      assert s[1] == '\n';
    }
  }

  /** How many characters one step of the bold rewrite consumes at the
      start of a non-empty text. */
  function BoldStepLength(s: string): (n: nat)
    requires |s| > 0
    ensures 1 <= n <= |s|
  {
    match SpanAt(s)
    case Some(q) => q + 2
    case None => 1
  }

  /** Bold never spans a line: the rewrite of two lines is the rewrite of
      each. */
  lemma {:induction false} BoldLines(a: string, b: string)
    ensures Bold(a + "\n" + b) == Bold(a) + "\n" + Bold(b)
    decreases |a|
  {
    if |a| == 0 {
      BoldLinesEmpty(b);
    } else {
      BoldLines(a[BoldStepLength(a)..], b);
      BoldLinesStep(a, b);
    }
  }

  /** The base case of `BoldLines`: an empty first line. */
  lemma BoldLinesEmpty(b: string)
    ensures Bold("" + "\n" + b) == Bold("") + "\n" + Bold(b)
  {
    var s := "" + "\n" + b;
    assert s[0] == '\n' && s[1..] == b;
    assert SpanAt(s) == None;
    BoldPlainStep(s);
  }

  /** The inductive step of `BoldLines`. */
  lemma BoldLinesStep(a: string, b: string)
    requires |a| > 0
    requires Bold(a[BoldStepLength(a)..] + "\n" + b) == Bold(a[BoldStepLength(a)..]) + "\n" + Bold(b)
    ensures Bold(a + "\n" + b) == Bold(a) + "\n" + Bold(b)
  {
    if SpanAt(a).Some? {
      BoldLinesSpan(a, b);
    } else {
      BoldLinesPlain(a, b);
    }
  }

  /** The step of `BoldLines` for a line that opens with a bold span. */
  lemma BoldLinesSpan(a: string, b: string)
    requires |a| > 0 && SpanAt(a).Some?
    requires Bold(a[BoldStepLength(a)..] + "\n" + b) == Bold(a[BoldStepLength(a)..]) + "\n" + Bold(b)
    ensures Bold(a + "\n" + b) == Bold(a) + "\n" + Bold(b)
  {
    var s := a + "\n" + b;
    var q := SpanAt(a).value;
    SpanAtLines(a, b);
    AfterPrefix(a, b, q + 2);
    assert s[2..q] == a[2..q];
    BoldSpanStep(s, q);
    BoldSpanStep(a, q);
    LineGlue(Bold, a, b, q + 2, "<strong>" + a[2..q] + "</strong>");
  }

  /** The step of `BoldLines` for a line that does not open with a bold span. */
  lemma BoldLinesPlain(a: string, b: string)
    requires |a| > 0 && SpanAt(a) == None
    requires Bold(a[BoldStepLength(a)..] + "\n" + b) == Bold(a[BoldStepLength(a)..]) + "\n" + Bold(b)
    ensures Bold(a + "\n" + b) == Bold(a) + "\n" + Bold(b)
  {
    var s := a + "\n" + b;
    SpanAtLines(a, b);
    AfterPrefix(a, b, 1);
    assert s[0] == a[0];
    BoldPlainStep(s);
    BoldPlainStep(a);
    LineGlue(Bold, a, b, 1, [a[0]]);
  }

  /** One step of the bold rewrite where no span opens. */
  lemma BoldPlainStep(s: string)
    requires |s| > 0 && SpanAt(s) == None
    ensures Bold(s) == [s[0]] + Bold(s[1..])
  {
  }

  /** One step of the bold rewrite where a span opens. */
  lemma BoldSpanStep(s: string, q: nat)
    requires SpanAt(s) == Some(q)
    ensures Bold(s) == "<strong>" + s[2..q] + "</strong>" + Bold(s[q + 2..])
  {
  }

  /** A greedy `.*` started inside the first line stops at its end. */
  lemma {:induction false} LineEndLines(a: string, b: string, i: nat)
    requires i <= |a|
    ensures LineEnd(a + "\n" + b, i) == LineEnd(a, i)
    decreases |a| - i
  {
    if i < |a| {
      assert (a + "\n" + b)[i] == a[i];
      LineEndLines(a, b, i + 1);
    } else {
      assert (a + "\n" + b)[i] == '\n';
    }
  }

  /** How many characters one step of the heading rewrite consumes at the
      start of a non-empty text. */
  function HeadingStepLength(s: string): (n: nat)
    requires |s| > 0
    ensures 1 <= n <= |s|
  {
    if HeadingAt(s) then LineEnd(s, 4) else 1
  }

  /** A heading never spans a line. */
  lemma {:induction false} HeadingsLines(a: string, b: string)
    ensures Headings(a + "\n" + b) == Headings(a) + "\n" + Headings(b)
    decreases |a|
  {
    if |a| == 0 {
      HeadingsLinesEmpty(b);
    } else {
      HeadingsLines(a[HeadingStepLength(a)..], b);
      HeadingsLinesStep(a, b);
    }
  }

  /** The base case of `HeadingsLines`: an empty first line. */
  lemma HeadingsLinesEmpty(b: string)
    ensures Headings("" + "\n" + b) == Headings("") + "\n" + Headings(b)
  {
    var s := "" + "\n" + b;
    assert s[0] == '\n' && s[1..] == b;
    assert !HeadingAt(s);
    PlainStep(s);
  }

  /** The inductive step of `HeadingsLines`. */
  lemma HeadingsLinesStep(a: string, b: string)
    requires |a| > 0
    requires Headings(a[HeadingStepLength(a)..] + "\n" + b) == Headings(a[HeadingStepLength(a)..]) + "\n" + Headings(b)
    ensures Headings(a + "\n" + b) == Headings(a) + "\n" + Headings(b)
  {
    var s := a + "\n" + b;
    var n := HeadingStepLength(a);
    AfterPrefix(a, b, n);
    if HeadingAt(a) {
      LineEndLines(a, b, 4);
      assert s[4..n] == a[4..n];
      assert HeadingAt(s);
      HeadingStep(s);
      HeadingStep(a);
      LineGlue(Headings, a, b, n, "<h3>" + a[4..n] + "</h3>");
    } else {
      assert !HeadingAt(s) by {
        if |a| < 4 {
          assert s[|a|] == '\n';
        } else {
          assert s[..4] == a[..4];
        }
      }
      assert s[0] == a[0];
      PlainStep(s);
      PlainStep(a);
      LineGlue(Headings, a, b, n, [a[0]]);
    }
  }

  /** One step of the heading rewrite where a heading starts. */
  lemma HeadingStep(s: string)
    requires HeadingAt(s)
    ensures Headings(s) == "<h3>" + s[4..LineEnd(s, 4)] + "</h3>" + Headings(s[LineEnd(s, 4)..])
  {
  }

  /** One step of the heading rewrite where no heading starts. */
  lemma PlainStep(s: string)
    requires |s| > 0 && !HeadingAt(s)
    ensures Headings(s) == [s[0]] + Headings(s[1..])
  {
  }

  /** A stretch free of `#` passes through the heading rewrite unchanged,
      whatever follows it. */
  lemma {:induction false} HeadingsPrefix(p: string, rest: string)
    requires '#' !in p
    ensures Headings(p + rest) == p + Headings(rest)
    decreases |p|
  {
    if |p| == 0 {
      assert p + rest == rest;
    } else {
      assert p[0] in p;
      PlainStepPrefix(p, rest);
      HeadingsPrefix(p[1..], rest);
      PrefixGlue(Headings, p, rest);
    }
  }

  /** One step of the heading rewrite at a character that is not `#`. */
  lemma PlainStepPrefix(p: string, rest: string)
    requires |p| > 0 && p[0] != '#'
    ensures Headings(p + rest) == [p[0]] + Headings(p[1..] + rest)
  {
    var s := p + rest;
    assert s[0] == p[0] && s[1..] == p[1..] + rest;
    PlainStep(s);
  }

  /** A rewrite that copies the first character of `p` and then copies the
      rest of `p` copies all of `p`. */
  lemma PrefixGlue(f: string -> string, p: string, rest: string)
    requires |p| > 0
    requires f(p + rest) == [p[0]] + f(p[1..] + rest)
    requires f(p[1..] + rest) == p[1..] + f(rest)
    ensures f(p + rest) == p + f(rest)
  {
    assert p == [p[0]] + p[1..];
  }

  /** A text without `#` is left alone by the heading rewrite. */
  lemma HeadingsPlain(s: string)
    requires '#' !in s
    ensures Headings(s) == s
  {
    HeadingsPrefix(s, "");
    assert s + "" == s;
    assert Headings("") == "";
  }

  /** A `### ` in the middle of a line turns the rest of that line into a
      heading, and the text before it is kept. */
  lemma HeadingMidLine(p: string, t: string)
    requires '#' !in p && OneLine(t)
    ensures Headings(p + "### " + t) == p + "<h3>" + t + "</h3>"
  {
    assert p + "### " + t == p + ("### " + t);
    HeadingsPrefix(p, "### " + t);
    HeadingLine(t);
    assert p + ("<h3>" + t + "</h3>") == p + "<h3>" + t + "</h3>";
  }

  /** The lazy scan finds a closing `**` whenever one follows on the same
      line. */
  lemma {:induction false} FindCloseFinds(s: string, q: nat, k: nat)
    requires q <= k && StarsAt(s, k) && OneLine(s[q..k])
    ensures FindClose(s, q).Some?
    decreases k - q
  {
    if q < k && !StarsAt(s, q) {
      assert s[q..k][0] == s[q] && s[q..k][1..] == s[q + 1..k];
      FindCloseFinds(s, q + 1, k);
    }
  }

  /** A stretch free of `*` passes through the bold rewrite unchanged,
      whatever follows it. */
  lemma {:induction false} BoldPrefix(p: string, rest: string)
    requires '*' !in p
    ensures Bold(p + rest) == p + Bold(rest)
    decreases |p|
  {
    if |p| == 0 {
      assert p + rest == rest;
    } else {
      assert p[0] in p;
      BoldStepPrefix(p, rest);
      BoldPrefix(p[1..], rest);
      PrefixGlue(Bold, p, rest);
    }
  }

  /** One step of the bold rewrite at a character that is not `*`. */
  lemma BoldStepPrefix(p: string, rest: string)
    requires |p| > 0 && p[0] != '*'
    ensures Bold(p + rest) == [p[0]] + Bold(p[1..] + rest)
  {
    var s := p + rest;
    assert s[0] == p[0] && s[1..] == p[1..] + rest;
    assert !StarsAt(s, 0);
    BoldPlainStep(s);
  }

  /** A bold span at the start of a text, followed by anything. */
  lemma BoldSpanThen(x: string, r: string)
    requires OneLine(x) && '*' !in x
    ensures Bold("**" + x + ("**" + r)) == "<strong>" + x + "</strong>" + Bold(r)
  {
    var s := "**" + x + ("**" + r);
    FindCloseSkips("**", x, "**" + r);
    assert SpanAt(s) == Some(|x| + 2);
    BoldSpanStep(s, |x| + 2);
    assert s[2..|x| + 2] == x && s[|x| + 4..] == r;
  }

  /** A bold span inside running text: the text before it is kept, the span
      becomes `<strong>`, and the rewrite goes on after it. */
  lemma BoldSpanIn(p: string, x: string, r: string)
    requires '*' !in p && OneLine(x) && '*' !in x
    ensures Bold(p + "**" + x + "**" + r) == p + "<strong>" + x + "</strong>" + Bold(r)
  {
    var span := "**" + x + ("**" + r);
    BoldSpanThen(x, r);
    BoldPrefix(p, span);
    SpanGlue(p, x, r, Bold(r));
  }

  /** Regrouping the texts around a span. */
  lemma SpanGlue(p: string, x: string, r: string, tail: string)
    ensures p + "**" + x + "**" + r == p + ("**" + x + ("**" + r))
    ensures p + ("<strong>" + x + "</strong>" + tail) == p + "<strong>" + x + "</strong>" + tail
  {
  }

  /** The line-break rewrite distributes over concatenation. */
  lemma {:induction false} BreaksAppend(a: string, b: string)
    ensures Breaks(a + b) == Breaks(a) + Breaks(b)
  {
    if |a| == 0 {
      assert a + b == b;
    } else {
      assert (a + b)[0] == a[0] && (a + b)[1..] == a[1..] + b;
      BreaksAppend(a[1..], b);
    }
  }

  /** Every line break becomes `<br/>`: the output is the lines joined by it. */
  lemma {:induction false} BreaksJoinsLines(s: string)
    ensures Breaks(s) == Join(Split(s, '\n'), "<br/>")
  {
    if |s| > 0 {
      var rest := Split(s[1..], '\n');
      BreaksJoinsLines(s[1..]);
      BreaksAppend([s[0]], s[1..]);
      assert s == [s[0]] + s[1..];
      if s[0] == '\n' {
        assert Split(s, '\n') == [""] + rest;
      } else if |rest| == 1 {
        assert Split(s, '\n') == [[s[0]] + rest[0]];
      } else {
        assert Split(s, '\n') == [[s[0]] + rest[0]] + rest[1..];
        assert Split(s, '\n')[1..] == rest[1..];
      }
    }
  }

  /** The whole transform works line by line: the rewrite of two lines is the
      rewrite of each, joined by `<br/>`. */
  lemma MarkdownLines(a: string, b: string)
    ensures ConvertMarkdown(a + "\n" + b) == ConvertMarkdown(a) + "<br/>" + ConvertMarkdown(b)
  {
    HeadingsLines(a, b);
    BoldLines(Headings(a), Headings(b));
    var x, y := Bold(Headings(a)), Bold(Headings(b));
    BreaksAppend(x + "\n", y);
    BreaksAppend(x, "\n");
    assert Breaks("\n") == "<br/>";
  }
}
