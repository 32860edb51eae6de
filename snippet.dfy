/** The code snippet printed under a diagnostic (`getCodeSnippet` in
    src/lib/index.ts): the reported source line with up to two lines on each
    side, each prefixed by its right-aligned 1-based number and `| `, the
    reported one highlighted, joined by newlines. */
module CodeSnippet {
  import opened Text
  import opened Styling

  /** `CODE_SNIPPET_RANGE`: how many lines are shown on each side. */
  const Range: nat := 2

  function Max(a: int, b: int): int
  {
    if a >= b then a else b
  }

  function Min(a: int, b: int): int
  {
    if a <= b then a else b
  }

  /** The number of the first line shown. */
  function First(line: nat): int
  {
    Max(1, line - Range)
  }

  /** The number of the last line shown. */
  function Last(srcs: seq<string>, line: nat): int
  {
    Min(|srcs|, line + Range)
  }

  /** How many lines are shown. */
  function WindowSize(srcs: seq<string>, line: nat): nat
  {
    Max(0, Last(srcs, line) - First(line) + 1)
  }

  /** `padLen`: the width of the number column, the number of digits of
      `line + 1 + CODE_SNIPPET_RANGE`. */
  function PadLen(line: nat): nat
  {
    |NatToString(line + 1 + Range)|
  }

  /** Source line `i`, numbered: `i` padded to `padLen`, then `| `. */
  function NumberedLine(srcs: seq<string>, padLen: nat, i: int): string
    requires 1 <= i <= |srcs|
  {
    PadStart(NatToString(i), padLen) + "| " + srcs[i - 1]
  }

  /** The snippet entry for source line `i`, highlighted when `i` is the
      reported line. */
  function Entry(srcs: seq<string>, line: nat, style: Style, i: int): string
    requires 1 <= i <= |srcs|
  {
    var s := NumberedLine(srcs, PadLen(line), i);
    if i == line then style.highlight(s) else s
  }

  /** `Entry` as a function of the line number. */
  function EntryOf(srcs: seq<string>, line: nat, style: Style): (int --> string)
  {
    i requires 1 <= i <= |srcs| => Entry(srcs, line, style, i)
  }

  lemma EntryOfApply(srcs: seq<string>, line: nat, style: Style, i: int)
    requires 1 <= i <= |srcs|
    ensures EntryOf(srcs, line, style)(i) == Entry(srcs, line, style, i)
  {
  }

  /** `[f(i), f(i + 1), ..., f(end)]`. */
  function Collect(f: int --> string, i: int, end: int): (es: seq<string>)
    requires forall j :: i <= j <= end ==> f.requires(j)
    ensures |es| == Max(0, end - i + 1)
    decreases end - i
  {
    if i > end then [] else [f(i)] + Collect(f, i + 1, end)
  }

  /** Element `k` of `Collect(f, i, end)` is `f(i + k)`. */
  lemma {:induction false} CollectIndex(f: int --> string, i: int, end: int, k: nat)
    requires forall j :: i <= j <= end ==> f.requires(j)
    requires i + k <= end
    ensures Collect(f, i, end)[k] == f(i + k)
    decreases k
  {
    if k > 0 {
      CollectIndex(f, i + 1, end, k - 1);
    }
  }

  /** The entries for the lines `First(line)` to `Last(srcs, line)`, in order. */
  function Entries(srcs: seq<string>, line: nat, style: Style): (es: seq<string>)
  {
    Collect(EntryOf(srcs, line, style), First(line), Last(srcs, line))
  }

  /** The snippet `getCodeSnippet(srcs, line)` returns. */
  function Snippet(srcs: seq<string>, line: nat, style: Style): string
  {
    Join(Entries(srcs, line, style), '\n')
  }

  /** The loop invariant of `GetCodeSnippet`: what has been pushed so far
      are the entries of the first `|ss|` lines of the window. */
  predicate PushedSoFar(srcs: seq<string>, line: nat, style: Style, ss: seq<string>)
  {
    forall k :: 0 <= k < |ss| ==> First(line) + k <= |srcs| && ss[k] == Entry(srcs, line, style, First(line) + k)
  }

  /** One turn of the loop: the entry it pushes for line `i` is the next one
      of the window. */
  lemma PushEntry(srcs: seq<string>, line: nat, style: Style, ss: seq<string>, i: int, s: string)
    requires PushedSoFar(srcs, line, style, ss) && i == First(line) + |ss| && i <= |srcs|
    requires s == Entry(srcs, line, style, i)
    ensures PushedSoFar(srcs, line, style, ss + [s])
  {
    var pushed := ss + [s];
    forall k | 0 <= k < |pushed|
      ensures First(line) + k <= |srcs| && pushed[k] == Entry(srcs, line, style, First(line) + k)
    {
      if k < |ss| {
        assert pushed[k] == ss[k];
      } else {
        assert pushed[k] == s;
      }
    }
  }

  /** Once every line of the window is pushed, the entries are complete. */
  lemma AllPushed(srcs: seq<string>, line: nat, style: Style, ss: seq<string>)
    requires PushedSoFar(srcs, line, style, ss) && |ss| == WindowSize(srcs, line)
    ensures ss == Entries(srcs, line, style)
  {
    forall k | 0 <= k < |ss|
      ensures ss[k] == Entries(srcs, line, style)[k]
    {
      EntryAt(srcs, line, style, k);
    }
  }

  /** `getCodeSnippet`: walks the window from its first to its last line,
      pushing one entry per line, and joins them. */
  method GetCodeSnippet(srcs: seq<string>, line: nat, style: Style) returns (snippet: string)
    ensures snippet == Snippet(srcs, line, style)
  {
    var padLen := |NatToString(line + 1 + Range)|;
    var ss: seq<string> := [];
    var i := Max(1, line - Range);
    var end := Min(|srcs|, line + Range);
    while i <= end
      invariant end == Last(srcs, line) && padLen == PadLen(line)
      invariant i == First(line) + |ss| && (i == First(line) || i <= end + 1)
      invariant PushedSoFar(srcs, line, style, ss)
      decreases end - i
    {
      var s := NumberedLine(srcs, padLen, i);
      if i == line {
        s := style.highlight(s);
      }
      PushEntry(srcs, line, style, ss, i, s);
      ss := ss + [s];
      i := i + 1;
    }
    AllPushed(srcs, line, style, ss);
    snippet := Join(ss, '\n');
  }

  /** The window is the reported line with `Range` lines on each side,
      clamped to the source: line `i` is shown exactly when the source has
      it and it is at most `Range` away from the reported line. So the
      reported line is shown exactly when the source has it, and at most
      `2 * Range + 1` lines are. */
  lemma WindowIsClamped(srcs: seq<string>, line: nat, i: int)
    ensures (First(line) <= i <= Last(srcs, line))
              <==> (1 <= i <= |srcs| && line - Range <= i <= line + Range)
    ensures WindowSize(srcs, line) <= 2 * Range + 1
    ensures WindowSize(srcs, line) == 0 <==> |srcs| == 0 || line > |srcs| + Range
  {
  }

  /** An empty window yields the empty snippet. */
  lemma EmptyWindowEmptySnippet(srcs: seq<string>, line: nat, style: Style)
    requires |srcs| == 0 || line > |srcs| + Range
    ensures Snippet(srcs, line, style) == ""
  {
    WindowIsClamped(srcs, line, line);
  }

  /** A numbered source line laid out as a table row: `pad` spaces, the
      decimal number, `| `, the text. */
  function Row(srcs: seq<string>, i: int, pad: nat): string
    requires 1 <= i <= |srcs|
  {
    Spaces(pad) + NatToString(i) + "| " + srcs[i - 1]
  }

  /** The entry of line `i`, when its number fits the column, is that line
      laid out as a row padded to `PadLen(line)` columns. */
  lemma EntryIsRow(srcs: seq<string>, line: nat, style: Style, i: int)
    requires 1 <= i <= |srcs| && |NatToString(i)| <= PadLen(line)
    ensures var row := Row(srcs, i, PadLen(line) - |NatToString(i)|);
            Entry(srcs, line, style, i) == if i == line then style.highlight(row) else row
  {
    var digits := NatToString(i);
    var padded := PadStart(digits, PadLen(line));
    assert padded == Spaces(PadLen(line) - |digits|) + digits;
    assert NumberedLine(srcs, PadLen(line), i) == padded + "| " + srcs[i - 1];
  }

  /** Entry `k` of the snippet is the entry of line `First(line) + k`, which
      the source has. */
  lemma EntryAt(srcs: seq<string>, line: nat, style: Style, k: nat)
    requires k < WindowSize(srcs, line)
    ensures 1 <= First(line) + k <= |srcs|
    ensures Entries(srcs, line, style)[k] == Entry(srcs, line, style, First(line) + k)
  {
    CollectIndex(EntryOf(srcs, line, style), First(line), Last(srcs, line), k);
    EntryOfApply(srcs, line, style, First(line) + k);
  }

  /** Every number shown fits the number column: it is at most
      `line + Range`, below `line + 1 + Range`, whose digits give the width. */
  lemma NumberFits(line: nat, i: nat)
    requires i <= line + 1 + Range
    ensures |NatToString(i)| <= PadLen(line)
  {
    NumDigitsMonotone(i, line + 1 + Range);
  }
}
