/** `renderContent`: a reply's text is split around its pipe-table blocks,
    `text.split(/(\|.*\|(?:\r?\n\|.*\|)*)/g)`, and each part is rendered as a
    table when it starts with `|` and as reduced markdown otherwise. The
    regular expression is written out as a scan: a block starts at a `|`
    that has another `|` later on its line, runs to the last `|` of that
    line, and then takes in every following line that starts with `|`, has
    another `|`, and comes right after a line break. */
module Segments {
  import opened Types
  import opened Strings
  import opened Seqs
  import Markdown
  import Table

  /** The index of the last `|` strictly between `lo` and `j`, if any. */
  function LastBar(s: string, lo: nat, j: nat): (r: Option<nat>)
    requires lo < j <= |s|
    ensures r.Some? ==> lo < r.value < j && s[r.value] == '|'
    decreases j
  {
    if j == lo + 1 then None
    else if s[j - 1] == '|' then Some(j - 1)
    else LastBar(s, lo, j - 1)
  }

  /** `LastBar` finds the last `|`: none comes after it before `j`, and
      when it finds none there is none at all. */
  lemma {:induction false} LastBarIsLast(s: string, lo: nat, j: nat)
    requires lo < j <= |s|
    ensures LastBar(s, lo, j).Some? ==> forall k :: LastBar(s, lo, j).value < k < j ==> s[k] != '|'
    ensures LastBar(s, lo, j).None? ==> forall k :: lo < k < j ==> s[k] != '|'
    decreases j
  {
    if j > lo + 1 && s[j - 1] != '|' {
      LastBarIsLast(s, lo, j - 1);
    }
  }

  /** `\|.*\|` at `p`: when a `|` at `p` has another `|` after it on its
      line, the end of the match, just after the last `|` of the line. */
  function RowAt(s: string, p: nat): (r: Option<nat>)
    requires p < |s|
    ensures r.Some? ==> p + 2 <= r.value <= |s| && s[p] == '|' && s[r.value - 1] == '|'
  {
    if s[p] != '|' then None
    else
      var l := LineEnd(s, p);
      assert l > p;
      match LastBar(s, p, l)
      case Some(k) => Some(k + 1)
      case None => None
  }

  /** The text at `e` cannot continue a match: it is the end, or not `|`. */
  predicate BarFree(s: string, e: nat) {
    e >= |s| || s[e] != '|'
  }

  /** A row match ends where no `|` follows on its line. */
  lemma RowAtEnd(s: string, p: nat)
    requires p < |s| && RowAt(s, p).Some?
    ensures BarFree(s, RowAt(s, p).value)
  {
    var l := LineEnd(s, p);
    LastBarIsLast(s, p, l);
  }

  /** Where the next row of a block would start: after a `\n` or `\r\n`
      at `e`, if there is one. */
  function NextLineStart(s: string, e: nat): (q: nat)
    requires e <= |s|
    ensures e <= q <= |s| && q <= e + 2
  {
    if e + 1 < |s| && s[e] == '\r' && s[e + 1] == '\n' then e + 2
    else if e < |s| && s[e] == '\n' then e + 1
    else e
  }

  /** `(?:\r?\n\|.*\|)*` from `e`: the end of the block after taking in
      every following row. */
  function ExtendRows(s: string, e: nat): (r: nat)
    requires e <= |s|
    ensures e <= r <= |s|
    decreases |s| - e
  {
    var q := NextLineStart(s, e);
    if e < q < |s| then
      match RowAt(s, q)
      case Some(f) => ExtendRows(s, f)
      case None => e
    else e
  }

  /** Taking in rows keeps the end of the block where no `|` follows. */
  lemma {:induction false} ExtendRowsEnd(s: string, e: nat)
    requires e <= |s| && BarFree(s, e)
    ensures BarFree(s, ExtendRows(s, e))
    decreases |s| - e
  {
    var q := NextLineStart(s, e);
    if e < q < |s| && RowAt(s, q).Some? {
      RowAtEnd(s, q);
      ExtendRowsEnd(s, RowAt(s, q).value);
    }
  }

  /** The end of the table block that starts at `p`, if one does. */
  function BlockAt(s: string, p: nat): (r: Option<nat>)
    requires p < |s|
    ensures r.Some? ==> p + 2 <= r.value <= |s|
  {
    match RowAt(s, p)
    case Some(f) => Some(ExtendRows(s, f))
    case None => None
  }

  /** A block starts and ends with `|` and is not followed by `|`. */
  lemma BlockShape(s: string, p: nat)
    requires p < |s| && BlockAt(s, p).Some?
    ensures s[p] == '|' && s[BlockAt(s, p).value - 1] == '|'
    ensures BarFree(s, BlockAt(s, p).value)
  {
    var f := RowAt(s, p).value;
    RowAtEnd(s, p);
    ExtendRowsEnd(s, f);
    BlockEndsWithBar(s, f);
  }

  /** Taking in rows ends on a `|` when it starts just after one. */
  lemma {:induction false} BlockEndsWithBar(s: string, e: nat)
    requires 0 < e <= |s| && s[e - 1] == '|'
    ensures s[ExtendRows(s, e) - 1] == '|'
    decreases |s| - e
  {
    var q := NextLineStart(s, e);
    if e < q < |s| && RowAt(s, q).Some? {
      BlockEndsWithBar(s, RowAt(s, q).value);
    }
  }

  /** `(?:\r?\n\|.*\|)*` is greedy: after the rows it takes in, no
      further row follows on the next line. */
  lemma {:induction false} ExtendRowsMaximal(s: string, e: nat)
    requires e <= |s|
    ensures var r := ExtendRows(s, e);
      var q := NextLineStart(s, r);
      !(r < q < |s| && RowAt(s, q).Some?)
    decreases |s| - e
  {
    var q := NextLineStart(s, e);
    if e < q < |s| && RowAt(s, q).Some? {
      ExtendRowsMaximal(s, RowAt(s, q).value);
    }
  }

  /** A row right after the end of a row, on the next line, belongs to the
      same block: the block that starts at `p` is the block that continues
      from that row, and it reaches at least to the row's end. */
  lemma NextRowInBlock(s: string, p: nat, f: nat, g: nat)
    requires p < |s| && RowAt(s, p) == Some(f)
    requires f < NextLineStart(s, f) < |s| && RowAt(s, NextLineStart(s, f)) == Some(g)
    ensures BlockAt(s, p) == Some(ExtendRows(s, g))
    ensures BlockAt(s, p).value >= g
  {
  }

  /** A block ends where the rows end: it is a row followed by every row on
      the lines after it, and the line after the block is no row. */
  lemma BlockIsMaximal(s: string, p: nat)
    requires p < |s| && BlockAt(s, p).Some?
    ensures var e := BlockAt(s, p).value;
      var q := NextLineStart(s, e);
      !(e < q < |s| && RowAt(s, q).Some?)
  {
    ExtendRowsMaximal(s, RowAt(s, p).value);
  }

  /** Two rows on consecutive lines are one block. */
  lemma TwoRowsOneBlock()
    ensures BlockAt("|a|\n|b|", 0) == Some(7)
  {
    var s := "|a|\n|b|";
    assert LineEnd(s, 0) == 3;
    assert LastBar(s, 0, 3) == Some(2);
    assert NextLineStart(s, 3) == 4;
    assert LineEnd(s, 4) == 7;
    assert LastBar(s, 4, 7) == Some(6);
    assert NextLineStart(s, 7) == 7;
  }

  /** The leftmost table block at or after `i`: its start and end. */
  function NextBlock(s: string, i: nat): (r: Option<(nat, nat)>)
    requires i <= |s|
    ensures r.Some? ==> i <= r.value.0 && r.value.0 + 2 <= r.value.1 <= |s|
    ensures r.Some? ==> BlockAt(s, r.value.0) == Some(r.value.1)
    ensures r.Some? ==> forall k :: i <= k < r.value.0 ==> BlockAt(s, k).None?
    ensures r.None? ==> forall k :: i <= k < |s| ==> BlockAt(s, k).None?
    decreases |s| - i
  {
    if i == |s| then None
    else match BlockAt(s, i)
      case Some(e) => Some((i, e))
      case None => NextBlock(s, i + 1)
  }

  /** `text.split(...)` with the block as the captured separator, from `i`:
      the text before a block, the block, and so on, ending with the text
      after the last block. */
  function SplitFrom(s: string, i: nat): (parts: seq<string>)
    requires i <= |s|
    decreases |s| - i
  {
    var next := NextBlock(s, i);
    if next.None? then [s[i..]]
    else
      var p, e := next.value.0, next.value.1;
      [s[i..p], s[p..e]] + SplitFrom(s, e)
  }

  /** The parts of a reply. */
  function SplitBlocks(text: string): seq<string> {
    SplitFrom(text, 0)
  }

  /** `SplitFrom` when a block is found: the text before it, the block,
      then the parts after it. */
  lemma SplitFromStep(s: string, i: nat) returns (p: nat, e: nat)
    requires i <= |s| && NextBlock(s, i).Some?
    ensures (p, e) == NextBlock(s, i).value
    ensures i <= p < e <= |s|
    ensures SplitFrom(s, i) == [s[i..p], s[p..e]] + SplitFrom(s, e)
  {
    p, e := NextBlock(s, i).value.0, NextBlock(s, i).value.1;
  }

  /** The concatenation of a list that starts with two given texts. */
  lemma ConcatTwoThenRest(a: string, b: string, rest: seq<string>)
    ensures Concat([a, b] + rest) == a + (b + Concat(rest))
  {
    assert [a, b] + rest == [a] + ([b] + rest);
    ConcatAppend([a], [b] + rest);
    ConcatAppend([b], rest);
    ConcatSingle(a);
    ConcatSingle(b);
  }

  /** The parts put back together give the text. */
  lemma {:induction false} SplitFromConcat(s: string, i: nat)
    requires i <= |s|
    ensures Concat(SplitFrom(s, i)) == s[i..]
    decreases |s| - i
  {
    if NextBlock(s, i).None? {
      ConcatSingle(s[i..]);
    } else {
      var p, e := SplitFromStep(s, i);
      SplitFromConcat(s, e);
      ConcatTwoThenRest(s[i..p], s[p..e], SplitFrom(s, e));
      assert s[i..p] + (s[p..e] + s[e..]) == s[i..];
    }
  }

  /** The concatenation of one text is that text. */
  lemma ConcatSingle(t: string)
    ensures Concat([t]) == t
  {
    assert Concat([t]) == t + Concat([]);
  }

  /** Splitting loses nothing and adds nothing. */
  lemma SplitRoundTrip(text: string)
    ensures Concat(SplitBlocks(text)) == text
  {
    SplitFromConcat(text, 0);
    assert text[0..] == text;
  }

  /** `part.startsWith('|')`: the part is rendered as a table. */
  predicate IsTablePart(part: string) {
    |part| > 0 && part[0] == '|'
  }

  /** Two more leave the parity as it was. */
  lemma ParityStep(n: int)
    ensures (n + 2) % 2 == n % 2
  {
  }

  /** There is one more text part than there are blocks. */
  lemma {:induction false} SplitFromOdd(s: string, i: nat)
    requires i <= |s|
    ensures |SplitFrom(s, i)| % 2 == 1
    decreases |s| - i
  {
    if NextBlock(s, i).Some? {
      var p, e := SplitFromStep(s, i);
      SplitFromOdd(s, e);
      assert |SplitFrom(s, i)| == |SplitFrom(s, e)| + 2;
      ParityStep(|SplitFrom(s, e)|);
    }
  }

  /** A table block as the split captures it: at least two characters,
      the first and the last a `|`. */
  predicate IsBlockText(t: string) {
    |t| >= 2 && t[0] == '|' && t[|t| - 1] == '|'
  }

  /** The text of a block found at `p` is a table block. */
  lemma BlockText(s: string, p: nat, e: nat)
    requires p < |s| && BlockAt(s, p) == Some(e)
    ensures IsBlockText(s[p..e])
  {
    BlockShape(s, p);
  }

  /** Every part at an odd index is a table block. */
  lemma {:induction false} SplitFromBlocks(s: string, i: nat)
    requires i <= |s|
    ensures forall k :: 0 <= k < |SplitFrom(s, i)| && k % 2 == 1 ==> IsBlockText(SplitFrom(s, i)[k])
    decreases |s| - i
  {
    if NextBlock(s, i).Some? {
      var p, e := SplitFromStep(s, i);
      BlockText(s, p, e);
      SplitFromBlocks(s, e);
      var parts, rest := SplitFrom(s, i), SplitFrom(s, e);
      assert |parts| == |rest| + 2 && parts[1] == s[p..e] && parts[2..] == rest;
      forall k | 0 <= k < |parts| && k % 2 == 1
        ensures IsBlockText(parts[k])
      {
        if k >= 2 {
          assert (k - 2) % 2 == k % 2;
          assert parts[k] == rest[k - 2];
        }
      }
    }
  }

  /** The first part after a block does not start with `|`. */
  lemma FirstAfterBlock(s: string, i: nat)
    requires 0 < i <= |s| && BarFree(s, i)
    ensures !IsTablePart(SplitFrom(s, i)[0])
  {
    var next := NextBlock(s, i);
    var first := SplitFrom(s, i)[0];
    if |first| > 0 {
      assert first[0] == s[i];
    }
  }

  /** Every part at an even index after the first follows a block and does
      not start with `|`. */
  lemma {:induction false} SplitFromTexts(s: string, i: nat)
    requires i <= |s|
    ensures forall k :: 0 < k < |SplitFrom(s, i)| && k % 2 == 0 ==> !IsTablePart(SplitFrom(s, i)[k])
    decreases |s| - i
  {
    var next := NextBlock(s, i);
    if next.Some? {
      var p, e := SplitFromStep(s, i);
      BlockShape(s, p);
      FirstAfterBlock(s, e);
      SplitFromTexts(s, e);
      var parts, rest := SplitFrom(s, i), SplitFrom(s, e);
      assert |parts| == |rest| + 2 && parts[1] == s[p..e] && parts[2..] == rest;
      forall k | 0 < k < |parts| && k % 2 == 0
        ensures !IsTablePart(parts[k])
      {
        assert (k - 2) % 2 == k % 2;
        assert parts[k] == rest[k - 2];
      }
    }
  }

  /** The parts alternate between text and table blocks: the blocks are
      rendered as tables, and of the other parts only the first can be. */
  lemma SplitShape(text: string)
    ensures |SplitBlocks(text)| % 2 == 1
    ensures forall k :: 0 <= k < |SplitBlocks(text)| && k % 2 == 1 ==> IsTablePart(SplitBlocks(text)[k])
    ensures forall k :: 0 < k < |SplitBlocks(text)| && k % 2 == 0 ==> !IsTablePart(SplitBlocks(text)[k])
  {
    SplitFromOdd(text, 0);
    SplitFromBlocks(text, 0);
    SplitFromTexts(text, 0);
  }

  /** A rendered part: the inner markup of a table, or of a text block. */
  datatype Block = TableBlock(html: string) | TextBlock(html: string)

  /** How a part is rendered. */
  function RenderPart(part: string): Block {
    if IsTablePart(part) then TableBlock(Table.TableHtml(part))
    else TextBlock(Markdown.ConvertMarkdown(part))
  }

  /** `renderContent` as written: nothing for an empty text, else every
      part in order, each classified by its first character. */
  function RenderContent(text: string): (blocks: seq<Block>)
    ensures text == "" ==> blocks == []
    ensures text != "" ==> |blocks| == |SplitBlocks(text)|
  {
    if text == "" then [] else Map(SplitBlocks(text), RenderPart)
  }

  /** A text of one line with a single `|` holds no table block, yet its one
      part starts with `|` and is rendered as a table. */
  lemma LeadingBarIsNotATable()
    ensures NextBlock("|x", 0).None?
    ensures SplitBlocks("|x") == ["|x"]
    ensures RenderContent("|x") == [TableBlock(Table.TableHtml("|x"))]
  {
    var s := "|x";
    assert LineEnd(s, 0) == 2;
    assert RowAt(s, 0).None?;
    assert RowAt(s, 1).None?;
    assert NextBlock(s, 2).None?;
    assert NextBlock(s, 1).None?;
  }

  /** `renderContent` as evidently intended: a part is rendered as a table
      exactly when the split captured it as a table block, that is, when it
      sits at an odd index. */
  function RenderBlocks(text: string): (blocks: seq<Block>)
    ensures text == "" ==> blocks == []
    ensures text != "" ==> |blocks| == |SplitBlocks(text)|
  {
    if text == "" then []
    else
      var parts := SplitBlocks(text);
      seq(|parts|, k requires 0 <= k < |parts| =>
        if k % 2 == 1 then TableBlock(Table.TableHtml(parts[k]))
        else TextBlock(Markdown.ConvertMarkdown(parts[k])))
  }

  /** With the intended classification, the tables rendered are exactly the
      captured blocks, and every other part is rendered as text. */
  lemma RenderBlocksTables(text: string)
    requires text != ""
    ensures forall k :: 0 <= k < |RenderBlocks(text)| ==>
      (RenderBlocks(text)[k].TableBlock? <==> IsBlockText(SplitBlocks(text)[k]) && k % 2 == 1)
  {
    SplitFromBlocks(text, 0);
  }

  /** The two classifications agree except on a first part that starts with
      `|`: the rendering as written is the intended one whenever the text
      does not start with a `|` that is not the start of a table block. */
  lemma RenderContentAgrees(text: string)
    requires !IsTablePart(SplitBlocks(text)[0])
    ensures RenderContent(text) == RenderBlocks(text)
  {
    SplitShape(text);
    if text != "" {
      var parts := SplitBlocks(text);
      forall k | 0 <= k < |parts|
        ensures RenderPart(parts[k]) == RenderBlocks(text)[k]
      {
        if k % 2 == 1 {
          assert IsTablePart(parts[k]);
        } else {
          assert !IsTablePart(parts[k]);
        }
      }
    }
  }
}
