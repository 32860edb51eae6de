/** Diagnostic reformatting (`getErrors` in src/lib/index.ts). The text the
    validator printed loses a leading `stdin` marker and its surrounding white
    space, is split into lines, and every line that starts like
    `<severity>: <n>:<m>: ` gets that prefix rewritten to
    `<severity>: <filename>[<n>, <m>]: ` and a code snippet centred on source
    line `m` appended; every other line is kept as it is. */
module Diagnostics {
  import opened Wrappers
  import opened Text
  import opened Styling
  import opened CodeSnippet

  // ---------------------------------------------------------------------------
  // `errors.replace(/^\s*stdin\s*/, '')`
  // ---------------------------------------------------------------------------

  /** `^\s*stdin` matches: after leading white space comes `stdin`. */
  ghost predicate StartsWithStdin(t: string)
  {
    exists j :: 0 <= j && j + 5 <= |t| && AllSpaces(t[..j]) && t[j..j + 5] == "stdin"
  }

  /** Removes `^\s*stdin\s*`: a suffix of the text is kept; something is
      removed exactly when the text starts with white space and `stdin`, and
      then what is removed is white space, `stdin`, white space, all of the
      white space that follows. */
  function StripStdin(t: string): (r: string)
    ensures |r| <= |t| && r == t[|t| - |r|..]
    ensures r != t <==> StartsWithStdin(t)
    ensures r != t ==> (r == "" || !IsSpace(r[0]))
    ensures r != t ==> exists j :: 0 <= j && j + 5 <= |t| - |r| && AllSpaces(t[..j])
                                 && t[j..j + 5] == "stdin" && AllSpaces(t[j + 5..|t| - |r|])
  {
    var j := SkipSpaces(t, 0);
    if j + 5 <= |t| && t[j..j + 5] == "stdin" then
      var k := SkipSpaces(t, j + 5);
      assert AllSpaces(t[..j]) && AllSpaces(t[j + 5..k]);
      assert t[k..] != t by { assert |t[k..]| < |t|; }
      t[k..]
    else
      assert !StartsWithStdin(t) by {
        forall j' | 0 <= j' <= |t| {
          StdinMarkerAt(t, j');
        }
      }
      t
  }

  /** Where `stdin` follows the leading white space, it starts at the first
      character that is not white space. */
  lemma {:induction false} StdinMarkerAt(t: string, j: nat)
    ensures j + 5 <= |t| && AllSpaces(t[..j]) && t[j..j + 5] == "stdin" ==> SkipSpaces(t, 0) == j
  {
    if j + 5 <= |t| && AllSpaces(t[..j]) && t[j..j + 5] == "stdin" {
      assert t[j] == t[j..j + 5][0];
      assert t[0..j] == t[..j];
      SkipSpacesAt(t, 0, j);
    }
  }

  // ---------------------------------------------------------------------------
  // `ERROR_REGEX = /^(.*?): (\d+):(\d+): /`
  // ---------------------------------------------------------------------------

  /** What a match of `ERROR_REGEX` captures: the severity (`$1`), the two
      integers (`$2`, `$3`; glslangValidator writes `<string>:<line>`), and
      where the matched prefix ends. */
  datatype Header = Header(severity: string, stringNo: string, lineNo: string, end: nat)

  /** `h` splits `s` the way the pattern does. */
  predicate Splits(s: string, h: Header)
  {
    && h.stringNo != "" && AllDigits(h.stringNo)
    && h.lineNo != "" && AllDigits(h.lineNo)
    && h.end <= |s|
    && s == h.severity + (": " + (h.stringNo + (":" + (h.lineNo + (": " + s[h.end..])))))
  }

  /** `: (\d+):(\d+): ` at index `p`. Each `\d+` is followed by a character
      that is not a digit, so the greedy run of digits is the only one that
      can match. */
  function HeaderAt(s: string, p: nat): (h: Option<Header>)
    requires p <= |s|
    ensures h.Some? ==> h.value.severity == s[..p] && p < h.value.end <= |s|
    ensures h.Some? ==> AllDigits(h.value.stringNo) && AllDigits(h.value.lineNo)
  {
    if p + 2 <= |s| && s[p] == ':' && s[p + 1] == ' ' then
      var q := SkipDigits(s, p + 2);
      if q > p + 2 && q < |s| && s[q] == ':' then
        var r := SkipDigits(s, q + 1);
        if r > q + 1 && r + 2 <= |s| && s[r] == ':' && s[r + 1] == ' ' then
          Some(Header(s[..p], s[p + 2..q], s[q + 1..r], r + 2))
        else None
      else None
    else None
  }

  /** Cutting a line at the separators `: `, `:` and `: ` found at `p`, `q`
      and `r`: the pieces and separators give the line back. */
  lemma {:induction false} CutAtSeparators(s: string, p: nat, q: nat, r: nat)
    requires p + 2 <= q && q + 1 <= r && r + 2 <= |s|
    requires s[p] == ':' && s[p + 1] == ' ' && s[q] == ':' && s[r] == ':' && s[r + 1] == ' '
    ensures s == s[..p] + (": " + (s[p + 2..q] + (":" + (s[q + 1..r] + (": " + s[r + 2..])))))
  {
    SuffixAfter(s, r, ": ");
    SuffixSplit(s, q + 1, r);
    SuffixAfter(s, q, ":");
    SuffixSplit(s, p + 2, q);
    SuffixAfter(s, p, ": ");
    PrefixSuffix(s, p);
  }

  /** A header found at `p` splits the text into the severity, the two
      integers and the rest, with the separators between them. */
  lemma {:induction false} HeaderAtSplits(s: string, p: nat)
    requires p <= |s|
    ensures HeaderAt(s, p).Some? ==> Splits(s, HeaderAt(s, p).value)
  {
    if HeaderAt(s, p).Some? {
      var q := SkipDigits(s, p + 2);
      var r := SkipDigits(s, q + 1);
      assert HeaderAt(s, p) == Some(Header(s[..p], s[p + 2..q], s[q + 1..r], r + 2));
      CutAtSeparators(s, p, q, r);
    }
  }

  /** `: (\d+):(\d+): ` read as a regular expression with backtracking: the
      groups end at `q` and `r`. */
  ghost predicate HeaderShape(s: string, p: nat, q: nat, r: nat)
  {
    && p + 2 < q < r - 1 && r + 2 <= |s|
    && s[p] == ':' && s[p + 1] == ' '
    && AllDigits(s[p + 2..q]) && s[q] == ':'
    && AllDigits(s[q + 1..r]) && s[r] == ':' && s[r + 1] == ' '
  }

  /** Where the backtracking reading finds groups ending at `q` and `r`, the
      greedy one finds the same groups. */
  lemma {:induction false} ShapeGivesHeader(s: string, p: nat, q: nat, r: nat)
    requires HeaderShape(s, p, q, r)
    ensures HeaderAt(s, p) == Some(Header(s[..p], s[p + 2..q], s[q + 1..r], r + 2))
  {
    SkipDigitsAt(s, p + 2, q);
    SkipDigitsAt(s, q + 1, r);
  }

  /** The greedy reading agrees with the backtracking one. */
  lemma {:induction false} HeaderAtIsPattern(s: string, p: nat)
    requires p <= |s|
    ensures HeaderAt(s, p).Some? <==> exists q, r :: HeaderShape(s, p, q, r)
  {
    if h :| HeaderAt(s, p) == Some(h) {
      var q := p + 2 + |h.stringNo|;
      var r := q + 1 + |h.lineNo|;
      assert s[p + 2..q] == h.stringNo && s[q + 1..r] == h.lineNo;
      assert HeaderShape(s, p, q, r);
    }
    if q: nat, r: nat :| HeaderShape(s, p, q, r) {
      ShapeGivesHeader(s, p, q, r);
    }
  }

  predicate NoTerminatorBefore(s: string, p: nat)
    requires p <= |s|
  {
    forall i :: 0 <= i < p ==> !IsLineTerminator(s[i])
  }

  /** The lazy `(.*?)` can stop after `p` characters (none of them a line
      terminator, which `.` does not match) and the rest of the pattern
      matches there. */
  predicate MatchesAt(s: string, p: nat)
  {
    p <= |s| && NoTerminatorBefore(s, p) && HeaderAt(s, p).Some?
  }

  /** Tries `(.*?)` with `p`, `p + 1`, ... characters, as the lazy quantifier
      does, and stops at the first line terminator. */
  function FindHeader(s: string, p: nat): (m: Option<Header>)
    requires p <= |s| && NoTerminatorBefore(s, p)
    ensures m.Some? ==> p <= |m.value.severity| <= |s| && MatchesAt(s, |m.value.severity|)
    ensures m.Some? ==> m == HeaderAt(s, |m.value.severity|)
    ensures m.Some? ==> forall p' :: p <= p' < |m.value.severity| ==> !MatchesAt(s, p')
    ensures m.None? ==> forall p' :: p <= p' <= |s| ==> !MatchesAt(s, p')
    decreases |s| - p
  {
    var h := HeaderAt(s, p);
    if h.Some? then
      assert s[..p] == h.value.severity;
      h
    else if p < |s| && !IsLineTerminator(s[p]) then
      FindHeader(s, p + 1)
    else
      StopAt(s, p);
      None
  }

  /** Past the end or past a line terminator, `(.*?)` cannot stretch. */
  lemma StopAt(s: string, p: nat)
    requires p <= |s| && (p == |s| || IsLineTerminator(s[p]))
    ensures forall p' :: p < p' <= |s| ==> !NoTerminatorBefore(s, p')
  {
    forall p' | p < p' <= |s| ensures !NoTerminatorBefore(s, p') {
      assert IsLineTerminator(s[p]);
    }
  }

  /** `s.match(ERROR_REGEX)`: the match whose severity is the shortest
      possible. */
  function MatchError(s: string): (m: Option<Header>)
    ensures m.Some? ==> MatchesAt(s, |m.value.severity|) && m == HeaderAt(s, |m.value.severity|)
    ensures m.Some? ==> forall p :: 0 <= p < |m.value.severity| ==> !MatchesAt(s, p)
    ensures m.None? ==> forall p :: 0 <= p <= |s| ==> !MatchesAt(s, p)
  {
    FindHeader(s, 0)
  }

  /** A match splits the line into the severity, the two integers and the
      rest. */
  lemma {:induction false} MatchErrorSplits(s: string)
    ensures MatchError(s).Some? ==> Splits(s, MatchError(s).value)
  {
    if MatchError(s).Some? {
      HeaderAtSplits(s, |MatchError(s).value.severity|);
    }
  }

  // ---------------------------------------------------------------------------
  // Rewriting one line, and `getErrors`
  // ---------------------------------------------------------------------------

  /** `filename || '{snippet}'`. */
  function ShownName(filename: Option<string>): string
  {
    if filename.Some? && filename.value != "" then filename.value else "{snippet}"
  }

  /** `[<n>, <m>]: `: the two integers of a match, as the rewritten prefix
      shows them. */
  function Coordinates(h: Header): string
  {
    "[" + h.stringNo + ", " + h.lineNo + "]: "
  }

  /** What follows the rewritten prefix of a matched line: the rest of the
      line, a newline, and the snippet around the line `parseInt(m[3])`. */
  function Tail(s: string, h: Header, srcs: seq<string>, style: Style): string
    requires h.end <= |s| && AllDigits(h.lineNo)
  {
    s[h.end..] + "\n" + Snippet(srcs, ParseDigits(h.lineNo), style)
  }

  /** The callback of `.map` in `getErrors`: an unmatched line as it is; a
      matched one with its prefix rewritten to the styled severity, the
      filename and the coordinates, followed by its `Tail`. */
  function FormatLine(s: string, srcs: seq<string>, filename: Option<string>, style: Style): string
  {
    match MatchError(s)
    case None => s
    case Some(h) => style.badge(h.severity) + ": " + ShownName(filename) + Coordinates(h) + Tail(s, h, srcs, style)
  }

  /** The diagnostic lines: the text without its `stdin` marker, trimmed,
      split at each newline. */
  function DiagnosticLines(errors: string): seq<string>
  {
    Split(Trim(StripStdin(errors)), '\n')
  }

  /** The diagnostic lines, each rewritten. */
  function FormatLines(src: string, errors: string, filename: Option<string>, style: Style): (out: seq<string>)
    ensures |out| == |DiagnosticLines(errors)|
  {
    var srcs := Split(src, '\n');
    var lines := DiagnosticLines(errors);
    seq(|lines|, k requires 0 <= k < |lines| => FormatLine(lines[k], srcs, filename, style))
  }

  /** `getErrors(src, errors, filename)`. */
  function GetErrors(src: string, errors: string, filename: Option<string>, style: Style): string
  {
    Join(FormatLines(src, errors, filename, style), '\n')
  }

  // ---------------------------------------------------------------------------
  // Properties
  // ---------------------------------------------------------------------------

  /** The match is the header at the first index where one is found. */
  lemma {:induction false} FirstMatch(s: string, p: nat)
    requires p <= |s| && MatchesAt(s, p)
    requires forall p' :: 0 <= p' < p ==> !MatchesAt(s, p')
    ensures MatchError(s) == HeaderAt(s, p)
  {
    var m := MatchError(s);
    assert m.Some?;
    var q := |m.value.severity|;
    assert q <= p;
    assert p <= q;
  }

  /** The prefix of a diagnostic line whose severity holds no colon and no
      line break: no match can end earlier than the severity. */
  lemma {:induction false} SeverityPrefix(severity: string, s: string)
    requires ':' !in severity && forall i :: 0 <= i < |severity| ==> !IsLineTerminator(severity[i])
    requires |severity| <= |s| && s[..|severity|] == severity
    ensures NoTerminatorBefore(s, |severity|)
    ensures forall p' :: 0 <= p' < |severity| ==> !MatchesAt(s, p')
  {
    forall i | 0 <= i < |severity| ensures !IsLineTerminator(s[i]) && s[i] != ':' {
      assert s[i] == severity[i];
    }
  }

  /** Where the parts of `<severity>: <n>:<m>: <rest>` lie. */
  lemma {:induction false} LineParts(severity: string, n: string, m: string, rest: string)
    ensures var s := severity + ": " + n + ":" + m + ": " + rest;
            var p := |severity|;
            var q := p + 2 + |n|;
            var r := q + 1 + |m|;
            && r + 2 + |rest| == |s|
            && s[..p] == severity && s[p + 2..q] == n && s[q + 1..r] == m && s[r + 2..] == rest
            && s[p] == ':' && s[p + 1] == ' ' && s[q] == ':' && s[r] == ':' && s[r + 1] == ' '
  {
  }

  /** The header of `<severity>: <n>:<m>: <rest>` is found right after the
      severity. */
  lemma {:induction false} HeaderOfLine(severity: string, n: string, m: string, rest: string)
    requires n != "" && AllDigits(n) && m != "" && AllDigits(m)
    ensures var s := severity + ": " + n + ":" + m + ": " + rest;
            HeaderAt(s, |severity|) == Some(Header(severity, n, m, |s| - |rest|))
  {
    var s := severity + ": " + n + ":" + m + ": " + rest;
    var p := |severity|;
    var q := p + 2 + |n|;
    var r := q + 1 + |m|;
    LineParts(severity, n, m, rest);
    assert HeaderShape(s, p, q, r);
    ShapeGivesHeader(s, p, q, r);
  }

  /** A line `<severity>: <n>:<m>: <rest>` whose severity holds no colon and
      no line break (glslangValidator's `ERROR`, `WARNING`) matches with
      exactly these parts. */
  lemma {:induction false} MatchOfLine(severity: string, n: string, m: string, rest: string)
    requires ':' !in severity && forall i :: 0 <= i < |severity| ==> !IsLineTerminator(severity[i])
    requires n != "" && AllDigits(n) && m != "" && AllDigits(m)
    ensures var s := severity + ": " + n + ":" + m + ": " + rest;
            MatchError(s) == Some(Header(severity, n, m, |s| - |rest|))
  {
    var s := severity + ": " + n + ":" + m + ": " + rest;
    assert s[..|severity|] == severity;
    HeaderOfLine(severity, n, m, rest);
    SeverityPrefix(severity, s);
    FirstMatch(s, |severity|);
  }

  /** Such a line is rewritten to `<severity>: <filename>[<n>, <m>]: <rest>`,
      with the filename as given, and the snippet under it is centred on
      line `m`, the second integer. */
  lemma {:induction false} MatchedLineLayout(severity: string, n: string, m: string, rest: string,
                                             srcs: seq<string>, filename: Option<string>, style: Style)
    requires ':' !in severity && forall i :: 0 <= i < |severity| ==> !IsLineTerminator(severity[i])
    requires n != "" && AllDigits(n) && m != "" && AllDigits(m)
    ensures var s := severity + ": " + n + ":" + m + ": " + rest;
            FormatLine(s, srcs, filename, style)
              == style.badge(severity) + ": " + ShownName(filename) + ("[" + n + ", " + m + "]: ")
                 + (rest + "\n" + Snippet(srcs, ParseDigits(m), style))
  {
    var s := severity + ": " + n + ":" + m + ": " + rest;
    var h := Header(severity, n, m, |s| - |rest|);
    MatchOfLine(severity, n, m, rest);
    assert s[h.end..] == rest;
    assert Tail(s, h, srcs, style) == rest + "\n" + Snippet(srcs, ParseDigits(m), style);
  }

  /** Lines that do not match are kept byte for byte: if no diagnostic line
      matches, `getErrors` returns the cleaned-up text unchanged. */
  lemma {:induction false} UnmatchedTextPassesThrough(src: string, errors: string, filename: Option<string>, style: Style)
    requires forall k :: 0 <= k < |DiagnosticLines(errors)| ==> MatchError(DiagnosticLines(errors)[k]).None?
    ensures GetErrors(src, errors, filename, style) == Trim(StripStdin(errors))
  {
    assert FormatLines(src, errors, filename, style) == DiagnosticLines(errors);
  }

  /** A matched line is rewritten to its new prefix followed by its `Tail`. */
  lemma {:induction false} MatchedShape(s: string, h: Header, srcs: seq<string>, filename: Option<string>, style: Style)
    requires MatchError(s) == Some(h)
    ensures h.end <= |s| && AllDigits(h.lineNo)
    ensures FormatLine(s, srcs, filename, style)
            == style.badge(h.severity) + ": " + ShownName(filename) + Coordinates(h) + Tail(s, h, srcs, style)
  {
  }

  /** How a line `out` rewrites `line`: an unmatched line is kept as it is,
      a matched one ends with all that follows its prefix and then the
      snippet centred on its second integer. */
  predicate KeptOrTailed(line: string, out: string, srcs: seq<string>, style: Style)
  {
    match MatchError(line)
    case None => out == line
    case Some(h) =>
      var tail := line[h.end..] + "\n" + Snippet(srcs, ParseDigits(h.lineNo), style);
      |tail| <= |out| && out[|out| - |tail|..] == tail
  }

  /** The callback of `.map` keeps or tails each line. */
  lemma {:induction false} LineKeptOrTailed(line: string, srcs: seq<string>, filename: Option<string>, style: Style)
    ensures KeptOrTailed(line, FormatLine(line, srcs, filename, style), srcs, style)
  {
    match MatchError(line)
    case None =>
    case Some(h) =>
      MatchedShape(line, h, srcs, filename, style);
      EndsWith(style.badge(h.severity) + ": " + ShownName(filename) + Coordinates(h), Tail(line, h, srcs, style));
  }

  /** Line by line, the rewritten lines keep or tail the diagnostic lines. */
  lemma {:induction false} FormattedLine(src: string, errors: string, filename: Option<string>, style: Style, k: nat)
    requires k < |DiagnosticLines(errors)|
    ensures KeptOrTailed(DiagnosticLines(errors)[k], FormatLines(src, errors, filename, style)[k], Split(src, '\n'), style)
  {
    var line := DiagnosticLines(errors)[k];
    var srcs := Split(src, '\n');
    assert FormatLines(src, errors, filename, style)[k] == FormatLine(line, srcs, filename, style);
    LineKeptOrTailed(line, srcs, filename, style);
  }

  /** The rewritten text has at least as many lines as the cleaned-up input:
      a line is never dropped, and a matched one gains snippet lines. */
  lemma {:induction false} NoLineDropped(src: string, errors: string, filename: Option<string>, style: Style)
    ensures |Split(GetErrors(src, errors, filename, style), '\n')| >= |DiagnosticLines(errors)|
  {
    var out := FormatLines(src, errors, filename, style);
    SplitLength(GetErrors(src, errors, filename, style), '\n');
    JoinSeparators(out, '\n');
  }

  /** The rewritten text is empty exactly when the validator printed nothing
      but white space and the `stdin` marker. */
  lemma {:induction false} EmptyExactlyWhenNothingPrinted(src: string, errors: string, filename: Option<string>, style: Style)
    ensures GetErrors(src, errors, filename, style) == "" <==> Trim(StripStdin(errors)) == ""
  {
    var text := Trim(StripStdin(errors));
    var lines := DiagnosticLines(errors);
    var out := FormatLines(src, errors, filename, style);
    if text == "" {
      assert IndexOf(text, '\n') < 0;
      assert lines == [""];
      assert MatchError("").None?;
      assert out == [""];
    } else if |lines| == 1 {
      assert lines[0] == text;
      FormattedLine(src, errors, filename, style, 0);
      assert out[0] != "";
    } else {
      JoinSeparators(out, '\n');
    }
  }

  // ---------------------------------------------------------------------------
  // The replacement string as the source writes it
  // ---------------------------------------------------------------------------

  /** `String.prototype.replace`'s expansion of `$` patterns in a replacement
      string (GetSubstitution, section 22.1.3.19.1 of ECMAScript 2023), for a
      match at the very start of the subject (so `` $` `` is empty) with three
      capture groups: `$$`, `$&`, `` $` ``, `$'`, `$n` and `$nn` (a two-digit
      reference above 3 is read as a one-digit one and a digit). */
  function Substitute(t: string, matched: string, after: string, groups: seq<string>): string
    requires |groups| == 3
    decreases |t|
  {
    if |t| == 0 then ""
    else if t[0] != '$' || |t| == 1 then [t[0]] + Substitute(t[1..], matched, after, groups)
    else if t[1] == '$' then "$" + Substitute(t[2..], matched, after, groups)
    else if t[1] == '&' then matched + Substitute(t[2..], matched, after, groups)
    else if t[1] == '`' then Substitute(t[2..], matched, after, groups)
    else if t[1] == '\'' then after + Substitute(t[2..], matched, after, groups)
    else if IsDigit(t[1]) && |t| >= 3 && IsDigit(t[2]) && 1 <= 10 * DigitValue(t[1]) + DigitValue(t[2]) <= 3 then
      groups[10 * DigitValue(t[1]) + DigitValue(t[2]) - 1] + Substitute(t[3..], matched, after, groups)
    else if IsDigit(t[1]) && 1 <= DigitValue(t[1]) <= 3 then
      groups[DigitValue(t[1]) - 1] + Substitute(t[2..], matched, after, groups)
    else "$" + Substitute(t[1..], matched, after, groups)
  }

  /** The line rewriting as src/lib/index.ts:69 writes it: the filename is
      pasted into the replacement string of `s.replace`, so `$` patterns in
      it are expanded. (`chalk.bgRed.white('$1')` adds no `$` of its own,
      so its `$1` becomes the styled severity.) */
  function FormatLineAsWritten(s: string, srcs: seq<string>, filename: Option<string>, style: Style): string
  {
    match MatchError(s)
    case None => s
    case Some(h) =>
      style.badge(h.severity) + ": "
        + Substitute(ShownName(filename) + "[$2, $3]: ", s[..h.end], s[h.end..], [h.severity, h.stringNo, h.lineNo])
        + Tail(s, h, srcs, style)
  }

  /** Text without `$` is copied by the substitution. */
  lemma {:induction false} SubstituteLiteral(x: string, t: string, matched: string, after: string, groups: seq<string>)
    requires |groups| == 3 && '$' !in x
    ensures Substitute(x + t, matched, after, groups) == x + Substitute(t, matched, after, groups)
    decreases |x|
  {
    if x != "" {
      assert x[0] != '$';
      assert (x + t)[0] == x[0] && (x + t)[1..] == x[1..] + t;
      SubstituteLiteral(x[1..], t, matched, after, groups);
      var rest := Substitute(t, matched, after, groups);
      assert Substitute(x + t, matched, after, groups) == [x[0]] + (x[1..] + rest);
      assert [x[0]] + (x[1..] + rest) == ([x[0]] + x[1..]) + rest;
      assert [x[0]] + x[1..] == x;
    } else {
      assert x + t == t;
    }
  }

  /** `$1` to `$3` not followed by a digit stand for the capture groups. */
  lemma {:induction false} SubstituteGroup(c: char, t: string, matched: string, after: string, groups: seq<string>)
    requires |groups| == 3 && '1' <= c <= '3' && (t == "" || !IsDigit(t[0]))
    ensures Substitute(['$', c] + t, matched, after, groups) == groups[DigitValue(c) - 1] + Substitute(t, matched, after, groups)
  {
    var u := ['$', c] + t;
    assert u[0] == '$' && u[1] == c && u[2..] == t;
    assert |u| >= 3 ==> u[2] == t[0];
  }

  /** Literal text around `$2` and `$3`, neither reference followed by a
      digit, comes out with the two groups in their places. */
  lemma {:induction false} TwoGroups(open: string, comma: string, close: string,
                                     matched: string, after: string, groups: seq<string>)
    requires |groups| == 3 && '$' !in open && '$' !in comma && '$' !in close
    requires (comma == "" || !IsDigit(comma[0])) && (close == "" || !IsDigit(close[0]))
    ensures Substitute(open + (['$', '2'] + (comma + (['$', '3'] + close))), matched, after, groups)
            == open + (groups[1] + (comma + (groups[2] + close)))
  {
    var g1, g2 := groups[1], groups[2];
    SubstituteLiteral(close, "", matched, after, groups);
    assert close + "" == close;
    var t3 := ['$', '3'] + close;
    SubstituteGroup('3', close, matched, after, groups);
    var t2 := comma + t3;
    SubstituteLiteral(comma, t3, matched, after, groups);
    var t1 := ['$', '2'] + t2;
    SubstituteGroup('2', t2, matched, after, groups);
    SubstituteLiteral(open, t1, matched, after, groups);
  }

  /** Concatenation of five pieces, regrouped to the right. */
  lemma Regroup(a: string, b: string, c: string, d: string, e: string)
    ensures a + b + c + d + e == a + (b + (c + (d + e)))
  {
  }

  /** Concatenation of four pieces, with the middle two grouped. */
  lemma Regroup3(a: string, b: string, c: string, d: string)
    ensures a + (b + c) + d == a + b + c + d
  {
  }

  /** The fixed tail of the replacement string yields `[<n>, <m>]: `. */
  lemma {:induction false} HeaderTail(matched: string, after: string, groups: seq<string>)
    requires |groups| == 3
    ensures Substitute("[$2, $3]: ", matched, after, groups) == "[" + (groups[1] + (", " + (groups[2] + "]: ")))
  {
    TwoGroups("[", ", ", "]: ", matched, after, groups);
    assert "[" + (['$', '2'] + (", " + (['$', '3'] + "]: "))) == "[$2, $3]: ";
  }

  /** A name without `$`, then the fixed tail, expands to the name and the
      coordinates. */
  lemma {:induction false} NameAndCoordinates(name: string, h: Header, matched: string, after: string)
    requires '$' !in name
    ensures Substitute(name + "[$2, $3]: ", matched, after, [h.severity, h.stringNo, h.lineNo]) == name + Coordinates(h)
  {
    var groups := [h.severity, h.stringNo, h.lineNo];
    SubstituteLiteral(name, "[$2, $3]: ", matched, after, groups);
    HeaderTail(matched, after, groups);
    Regroup("[", h.stringNo, ", ", h.lineNo, "]: ");
  }

  /** The placeholder `{snippet}` holds no `$`. */
  lemma ShownNameWithoutDollar(filename: Option<string>)
    requires filename.None? || '$' !in filename.value
    ensures '$' !in ShownName(filename)
  {
    if filename.None? || filename.value == "" {
      var placeholder := "{snippet}";
      assert forall i :: 0 <= i < |placeholder| ==> placeholder[i] != '$';
    }
  }

  /** For a filename without `$` the source's rewriting is the intended one. */
  lemma {:induction false} AsWrittenAgreesWithoutDollar(s: string, srcs: seq<string>, filename: Option<string>, style: Style)
    requires filename.None? || '$' !in filename.value
    ensures FormatLineAsWritten(s, srcs, filename, style) == FormatLine(s, srcs, filename, style)
  {
    match MatchError(s)
    case None =>
    case Some(h) =>
      AsWrittenMatched(s, h, filename, srcs, style);
      MatchedShape(s, h, srcs, filename, style);
      var name := ShownName(filename);
      ShownNameWithoutDollar(filename);
      NameAndCoordinates(name, h, s[..h.end], s[h.end..]);
      Regroup3(style.badge(h.severity) + ": ", name, Coordinates(h), Tail(s, h, srcs, style));
  }

  /** `getErrors` as written: every diagnostic line rewritten by
      `FormatLineAsWritten`. */
  function GetErrorsAsWritten(src: string, errors: string, filename: Option<string>, style: Style): string
  {
    var srcs := Split(src, '\n');
    var lines := DiagnosticLines(errors);
    Join(seq(|lines|, k requires 0 <= k < |lines| => FormatLineAsWritten(lines[k], srcs, filename, style)), '\n')
  }

  /** For a filename without `$` the whole output of `getErrors` as written
      is the intended one, so every property of `GetErrors` holds of it. */
  lemma {:induction false} GetErrorsAgreeWithoutDollar(src: string, errors: string, filename: Option<string>, style: Style)
    requires filename.None? || '$' !in filename.value
    ensures GetErrorsAsWritten(src, errors, filename, style) == GetErrors(src, errors, filename, style)
  {
    var srcs := Split(src, '\n');
    var lines := DiagnosticLines(errors);
    var written := seq(|lines|, k requires 0 <= k < |lines| => FormatLineAsWritten(lines[k], srcs, filename, style));
    var intended := FormatLines(src, errors, filename, style);
    forall k | 0 <= k < |lines| ensures written[k] == intended[k] {
      AsWrittenAgreesWithoutDollar(lines[k], srcs, filename, style);
    }
    assert written == intended;
  }

  /** `$&` at the start of the template stands for the matched text. */
  lemma {:induction false} SubstituteAmpersand(name: string, tail: string, matched: string, after: string, groups: seq<string>)
    requires |groups| == 3 && |name| >= 2 && name[0] == '$' && name[1] == '&'
    ensures Substitute(name + tail, matched, after, groups) == matched + Substitute(name[2..] + tail, matched, after, groups)
  {
    var t := name + tail;
    assert t[0] == '$' && t[1] == '&' && t[2..] == name[2..] + tail;
  }

  /** As written, a matched line is the badge, the expanded replacement
      string and the `Tail`. */
  lemma {:induction false} AsWrittenMatched(s: string, h: Header, filename: Option<string>, srcs: seq<string>, style: Style)
    requires MatchError(s) == Some(h)
    ensures h.end <= |s| && AllDigits(h.lineNo)
    ensures FormatLineAsWritten(s, srcs, filename, style)
            == style.badge(h.severity) + ": "
               + Substitute(ShownName(filename) + "[$2, $3]: ", s[..h.end], s[h.end..], [h.severity, h.stringNo, h.lineNo])
               + Tail(s, h, srcs, style)
  {
  }

  /** As written, a filename starting with `$&` puts the matched text where
      the name belongs: the first character after the badge and `: ` is the
      first character of the line. */
  lemma {:induction false} MatchedTextForDollarAmpersand(s: string, h: Header, name: string, srcs: seq<string>, style: Style)
    requires MatchError(s) == Some(h) && 0 < h.end
    requires |name| >= 2 && name[0] == '$' && name[1] == '&'
    ensures var written := FormatLineAsWritten(s, srcs, Some(name), style);
            var at := |style.badge(h.severity)| + 2;
            at < |written| && written[at] == s[0]
  {
    AsWrittenMatched(s, h, Some(name), srcs, style);
    AmpersandFirst(style.badge(h.severity) + ": ", name, s[..h.end], s[h.end..],
                   [h.severity, h.stringNo, h.lineNo], Tail(s, h, srcs, style));
  }

  /** The character after the badge, when the name starts with `$&`, is the
      first one of the matched text. */
  lemma {:induction false} AmpersandFirst(badge: string, name: string, matched: string, after: string,
                                          groups: seq<string>, tail: string)
    requires |groups| == 3 && matched != ""
    requires |name| >= 2 && name[0] == '$' && name[1] == '&'
    ensures var written := badge + Substitute(name + "[$2, $3]: ", matched, after, groups) + tail;
            |badge| < |written| && written[|badge|] == matched[0]
  {
    SubstituteAmpersand(name, "[$2, $3]: ", matched, after, groups);
    var expanded := Substitute(name + "[$2, $3]: ", matched, after, groups);
    assert expanded[0] == matched[0];
    CharAfter(badge, expanded, tail);
  }

  /** The intended rewriting puts the filename's first character right
      after the badge and `: `. */
  lemma {:induction false} NameAfterBadge(s: string, h: Header, name: string, srcs: seq<string>, style: Style)
    requires MatchError(s) == Some(h) && name != ""
    ensures var intended := FormatLine(s, srcs, Some(name), style);
            var at := |style.badge(h.severity)| + 2;
            at < |intended| && intended[at] == name[0]
  {
    var badge := style.badge(h.severity) + ": ";
    assert FormatLine(s, srcs, Some(name), style) == badge + name + (Coordinates(h) + Tail(s, h, srcs, style));
    CharAfter(badge, name, Coordinates(h) + Tail(s, h, srcs, style));
  }

  /** A file named `$&.frag`: for a diagnostic `ERROR: 0:1: <rest>` the
      source prints the matched prefix `ERROR: 0:1: ` where the filename
      belongs, while the intended rewriting prints the name. */
  lemma {:induction false} DollarInFilenameIsExpanded(rest: string, srcs: seq<string>, style: Style)
    ensures var s := "ERROR" + ": " + "0" + ":" + "1" + ": " + rest;
            var name := Some("$&.frag");
            var written := FormatLineAsWritten(s, srcs, name, style);
            var intended := FormatLine(s, srcs, name, style);
            var at := |style.badge("ERROR")| + 2;
            && at < |written| && at < |intended|
            && written[at] == 'E' && intended[at] == '$'
  {
    var s := "ERROR" + ": " + "0" + ":" + "1" + ": " + rest;
    var name := "$&.frag";
    MatchOfLine("ERROR", "0", "1", rest);
    var h := Header("ERROR", "0", "1", |s| - |rest|);
    assert s[0] == 'E';
    MatchedTextForDollarAmpersand(s, h, name, srcs, style);
    NameAfterBadge(s, h, name, srcs, style);
  }
}
