/** The JavaScript string built-ins the linter relies on, written out as small
    total functions: the `\s` character class, `trim`, `split`/`join` on a
    one-character separator, `Number.prototype.toString`, `padStart` and
    `parseInt` on a run of decimal digits. */
module Text {

  /** The characters JavaScript's `\s` matches, which are also the ones
      `String.prototype.trim` removes (WhiteSpace and LineTerminator). */
  predicate IsSpace(c: char)
  {
    || c == ' ' || c == '\t' || c == '\n' || c == '\r' || c == '\U{000B}' || c == '\U{000C}'
    || c == '\U{00A0}' || c == '\U{1680}' || ('\U{2000}' <= c <= '\U{200A}')
    || c == '\U{2028}' || c == '\U{2029}' || c == '\U{202F}' || c == '\U{205F}'
    || c == '\U{3000}' || c == '\U{FEFF}'
  }

  /** The characters JavaScript's `.` does not match. */
  predicate IsLineTerminator(c: char)
  {
    c == '\n' || c == '\r' || c == '\U{2028}' || c == '\U{2029}'
  }

  /** JavaScript's `\d`. */
  predicate IsDigit(c: char)
  {
    '0' <= c <= '9'
  }

  predicate AllDigits(s: string)
  {
    forall i :: 0 <= i < |s| ==> IsDigit(s[i])
  }

  predicate AllSpaces(s: string)
  {
    forall i :: 0 <= i < |s| ==> IsSpace(s[i])
  }

  /** The end of the run of `\s` characters that starts at `j`. */
  function SkipSpaces(s: string, j: nat): (k: nat)
    requires j <= |s|
    ensures j <= k <= |s|
    ensures forall t :: j <= t < k ==> IsSpace(s[t])
    ensures k == |s| || !IsSpace(s[k])
    decreases |s| - j
  {
    if j == |s| || !IsSpace(s[j]) then j else SkipSpaces(s, j + 1)
  }

  /** The start of the run of `\s` characters that ends at `j`. */
  function SkipSpacesBack(s: string, j: nat): (k: nat)
    requires j <= |s|
    ensures k <= j
    ensures forall t :: k <= t < j ==> IsSpace(s[t])
    ensures k == 0 || !IsSpace(s[k - 1])
  {
    if j == 0 || !IsSpace(s[j - 1]) then j else SkipSpacesBack(s, j - 1)
  }

  /** The end of the run of `\d` characters that starts at `j`. */
  function SkipDigits(s: string, j: nat): (k: nat)
    requires j <= |s|
    ensures j <= k <= |s|
    ensures forall t :: j <= t < k ==> IsDigit(s[t])
    ensures k == |s| || !IsDigit(s[k])
    decreases |s| - j
  {
    if j == |s| || !IsDigit(s[j]) then j else SkipDigits(s, j + 1)
  }

  /** A run of white space that ends at a non-space character (or at the
      end) is the one `SkipSpaces` finds. */
  lemma {:induction false} SkipSpacesAt(s: string, j: nat, k: nat)
    requires j <= k <= |s|
    requires AllSpaces(s[j..k]) && (k == |s| || !IsSpace(s[k]))
    ensures SkipSpaces(s, j) == k
    decreases k - j
  {
    if j < k {
      assert s[j..k][0] == s[j];
      assert s[j + 1..k] == s[j..k][1..];
      SkipSpacesAt(s, j + 1, k);
    }
  }

  /** A run of digits that ends at a non-digit (or at the end) is the one
      `SkipDigits` finds. */
  lemma {:induction false} SkipDigitsAt(s: string, j: nat, k: nat)
    requires j <= k <= |s|
    requires AllDigits(s[j..k]) && (k == |s| || !IsDigit(s[k]))
    ensures SkipDigits(s, j) == k
    decreases k - j
  {
    if j < k {
      assert s[j..k][0] == s[j];
      assert s[j + 1..k] == s[j..k][1..];
      SkipDigitsAt(s, j + 1, k);
    }
  }

  /** `String.prototype.trim`: the text between the leading and the trailing
      runs of white space. */
  function Trim(s: string): (r: string)
    ensures r == "" <==> AllSpaces(s)
    ensures r != "" ==> !IsSpace(r[0]) && !IsSpace(r[|r| - 1])
    ensures r != "" ==> exists lo, hi :: 0 <= lo < hi <= |s| && r == s[lo..hi]
                                    && AllSpaces(s[..lo]) && AllSpaces(s[hi..])
  {
    var lo := SkipSpaces(s, 0);
    var hi := SkipSpacesBack(s, |s|);
    if hi <= lo then
      assert AllSpaces(s) by {
        forall t | 0 <= t < |s| ensures IsSpace(s[t]) {
        }
      }
      ""
    else
      assert !AllSpaces(s) by { assert !IsSpace(s[lo]); }
      assert AllSpaces(s[..lo]) && AllSpaces(s[hi..]);
      s[lo..hi]
  }

  /** The first index of `c` in `s`, or -1 (`String.prototype.indexOf`). */
  function IndexOf(s: string, c: char): (i: int)
    ensures -1 <= i < |s|
    ensures i >= 0 ==> s[i] == c
    ensures forall k :: 0 <= k < |s| && (i < 0 || k < i) ==> s[k] != c
  {
    if |s| == 0 then -1
    else if s[0] == c then 0
    else
      var j := IndexOf(s[1..], c);
      if j < 0 then -1 else j + 1
  }

  /** The last index of `c` in `s`, or -1 (`String.prototype.lastIndexOf`). */
  function LastIndexOf(s: string, c: char): (i: int)
    ensures -1 <= i < |s|
    ensures i >= 0 ==> s[i] == c
    ensures forall k :: i < k < |s| ==> s[k] != c
  {
    if |s| == 0 then -1
    else if s[|s| - 1] == c then |s| - 1
    else LastIndexOf(s[..|s| - 1], c)
  }

  /** `Array.prototype.join` with a one-character separator. */
  function Join(parts: seq<string>, sep: char): string
  {
    if |parts| == 0 then ""
    else if |parts| == 1 then parts[0]
    else parts[0] + [sep] + Join(parts[1..], sep)
  }

  /** `String.prototype.split` on a one-character separator: the pieces
      between separators, at least one of them (`"".split(sep)` is `[""]`),
      none holding the separator, and joining them gives the input back. */
  function Split(s: string, sep: char): (parts: seq<string>)
    ensures |parts| >= 1
    ensures forall k :: 0 <= k < |parts| ==> sep !in parts[k]
    ensures Join(parts, sep) == s
    decreases |s|
  {
    var i := IndexOf(s, sep);
    if i < 0 then [s]
    else
      var rest := Split(s[i + 1..], sep);
      SplitStep(s, sep, i, rest);
      [s[..i]] + rest
  }

  /** `Join` on a list of at least two pieces. */
  lemma JoinCons(head: string, rest: seq<string>, sep: char)
    requires |rest| >= 1
    ensures Join([head] + rest, sep) == head + [sep] + Join(rest, sep)
  {
    assert ([head] + rest)[1..] == rest;
  }

  /** One step of `Split`: the piece before the first separator, then the
      pieces of what follows it. */
  lemma SplitStep(s: string, sep: char, i: nat, rest: seq<string>)
    requires i < |s| && s[i] == sep
    requires forall k :: 0 <= k < i ==> s[k] != sep
    requires |rest| >= 1 && forall k :: 0 <= k < |rest| ==> sep !in rest[k]
    requires Join(rest, sep) == s[i + 1..]
    ensures forall k :: 0 <= k < |[s[..i]] + rest| ==> sep !in ([s[..i]] + rest)[k]
    ensures Join([s[..i]] + rest, sep) == s
  {
    var parts := [s[..i]] + rest;
    forall k | 0 <= k < |parts| ensures sep !in parts[k] {
      if k == 0 {
        assert parts[0] == s[..i];
      } else {
        assert parts[k] == rest[k - 1];
      }
    }
    JoinCons(s[..i], rest, sep);
    assert s == s[..i] + [sep] + s[i + 1..];
  }

  lemma IndexOfAfterPrefix(a: string, sep: char, b: string)
    requires sep !in a
    ensures IndexOf(a + [sep] + b, sep) == |a|
  {
    var s := a + [sep] + b;
    assert s[|a|] == sep;
    assert forall k :: 0 <= k < |a| ==> s[k] == a[k];
  }

  /** Splitting undoes joining, whenever no piece holds the separator. */
  lemma {:induction false} SplitJoin(parts: seq<string>, sep: char)
    requires |parts| >= 1
    requires forall k :: 0 <= k < |parts| ==> sep !in parts[k]
    ensures Split(Join(parts, sep), sep) == parts
    decreases |parts|
  {
    if |parts| == 1 {
      assert IndexOf(parts[0], sep) < 0;
    } else {
      var tail := Join(parts[1..], sep);
      var s := parts[0] + [sep] + tail;
      assert parts == [parts[0]] + parts[1..];
      JoinCons(parts[0], parts[1..], sep);
      IndexOfAfterPrefix(parts[0], sep, tail);
      assert s[..|parts[0]|] == parts[0];
      assert s[|parts[0]| + 1..] == tail;
      SplitJoin(parts[1..], sep);
    }
  }

  /** `split` yields one piece more than there are separators. */
  lemma {:induction false} SplitLength(s: string, sep: char)
    ensures |Split(s, sep)| == multiset(s)[sep] + 1
    decreases |s|
  {
    var i := IndexOf(s, sep);
    if i < 0 {
      assert sep !in multiset(s);
    } else {
      var rest := s[i + 1..];
      SplitLength(rest, sep);
      assert |Split(s, sep)| == 1 + |Split(rest, sep)|;
      assert sep !in s[..i];
      assert multiset(s[..i])[sep] == 0;
      calc {
        multiset(s)[sep];
        { assert s == s[..i] + [sep] + rest; }
        multiset(s[..i] + [sep] + rest)[sep];
        multiset(s[..i])[sep] + 1 + multiset(rest)[sep];
      }
    }
  }

  /** Joining `n` pieces puts at least `n - 1` separators into the result. */
  lemma {:induction false} JoinSeparators(parts: seq<string>, sep: char)
    requires |parts| >= 1
    ensures multiset(Join(parts, sep))[sep] >= |parts| - 1
    decreases |parts|
  {
    if |parts| > 1 {
      JoinSeparators(parts[1..], sep);
      var tail := Join(parts[1..], sep);
      assert multiset(parts[0] + [sep] + tail) == multiset(parts[0]) + multiset{sep} + multiset(tail);
    }
  }

  /** `(n).toString()` for a digit `n`. */
  function DigitChar(d: nat): (c: char)
    requires d < 10
    ensures IsDigit(c)
  {
    (48 + d) as char
  }

  function DigitValue(c: char): (d: nat)
    requires IsDigit(c)
    ensures d < 10 && DigitChar(d) == c
  {
    c as int - 48
  }

  /** The number of decimal digits of `n`. */
  function NumDigits(n: nat): nat
  {
    if n < 10 then 1 else 1 + NumDigits(n / 10)
  }

  /** `Number.prototype.toString()` on a non-negative integer: decimal digits,
      no leading zero, as many as `NumDigits` says. */
  function NatToString(n: nat): (s: string)
    ensures |s| == NumDigits(n)
    ensures AllDigits(s)
    ensures s[0] == '0' ==> n == 0
  {
    if n < 10 then [DigitChar(n)] else NatToString(n / 10) + [DigitChar(n % 10)]
  }

  /** The value of a run of decimal digits, as `parseInt` reads a non-empty
      one (leading zeros allowed). The empty run, which `parseInt` reads as
      `NaN`, gives 0 here; the pattern's `\d+` never captures it. */
  function ParseDigits(s: string): nat
    requires AllDigits(s)
  {
    if s == [] then 0 else 10 * ParseDigits(s[..|s| - 1]) + DigitValue(s[|s| - 1])
  }

  /** Reading back a printed number gives the number. */
  lemma {:induction false} ParseNatToString(n: nat)
    ensures ParseDigits(NatToString(n)) == n
  {
    var s := NatToString(n);
    if n >= 10 {
      ParseNatToString(n / 10);
      assert s[..|s| - 1] == NatToString(n / 10);
      assert DigitValue(s[|s| - 1]) == n % 10;
    }
  }

  /** A larger number never has fewer digits. */
  lemma {:induction false} NumDigitsMonotone(a: nat, b: nat)
    requires a <= b
    ensures NumDigits(a) <= NumDigits(b)
    decreases b
  {
    if a >= 10 {
      NumDigitsMonotone(a / 10, b / 10);
    }
  }

  /** A text is its prefix up to any index followed by its suffix from there. */
  lemma PrefixSuffix(s: string, p: nat)
    requires p <= |s|
    ensures s == s[..p] + s[p..]
  {
  }

  /** The character right after `a` in `a + b + c` is the first one of `b`. */
  lemma CharAfter(a: string, b: string, c: string)
    requires b != ""
    ensures |a| < |a + b + c| && (a + b + c)[|a|] == b[0]
  {
  }

  /** `b` is what `a + b` ends with. */
  lemma EndsWith(a: string, b: string)
    ensures |b| <= |a + b| && (a + b)[|a + b| - |b|..] == b
  {
  }

  /** A suffix that starts with `sep` is `sep` followed by the rest. */
  lemma SuffixAfter(s: string, a: nat, sep: string)
    requires a + |sep| <= |s| && forall i :: 0 <= i < |sep| ==> s[a + i] == sep[i]
    ensures s[a..] == sep + s[a + |sep|..]
  {
    assert s[a..a + |sep|] == sep;
    SuffixSplit(s, a, a + |sep|);
  }

  /** A suffix is the slice up to a later index and the suffix from there. */
  lemma SuffixSplit(s: string, a: nat, b: nat)
    requires a <= b <= |s|
    ensures s[a..] == s[a..b] + s[b..]
  {
  }

  /** `n` spaces. */
  function Spaces(n: nat): (r: string)
    ensures |r| == n && forall i :: 0 <= i < n ==> r[i] == ' '
  {
    if n == 0 then "" else " " + Spaces(n - 1)
  }

  /** `String.prototype.padStart(width)`: right-aligns `s` in a field of
      `width` spaces; a longer `s` is left as it is. */
  function PadStart(s: string, width: nat): (r: string)
    ensures |r| == if |s| >= width then |s| else width
    ensures r == Spaces(|r| - |s|) + s
  {
    if |s| >= width then s else Spaces(width - |s|) + s
  }
}
