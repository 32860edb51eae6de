# glslify-lint core, modelled in Dafny

glslify-lint checks GLSL shader source by running `glslangValidator --stdin
-S <stage>` on it and turning the validator's diagnostics into readable
messages. This project models the decision logic of `src/lib/index.ts`:

- **Stage resolution** (`getShaderStage`, module `ShaderStages`): an explicit
  stage wins if it is one of `vert`, `frag`, `conf`, `tesc`, `tese`, `geom`,
  `comp`; otherwise the filename's extension, taken as written, if it is a
  stage name; otherwise the source is sniffed (`{` or white space, then
  `gl_Position`, white space and `=` gives `vert`; an assignment to
  `gl_FragColor` or `gl_FragData` gives `frag`); otherwise `frag`. The
  regular expressions are explicit predicates, and `path.extname` is Node's
  POSIX rule written out.
- **Code snippet** (`getCodeSnippet`, module `CodeSnippet`): a method with
  the source's loop, proved equal to a specification function. The window is
  the reported line with two lines each side, clamped to the source. Each
  number is right-aligned to the width of `line + 3` and followed by `| `.
  The reported line is highlighted.
- **Diagnostic reformatting** (`getErrors`, module `Diagnostics`): strip a
  leading `\s*stdin\s*`, trim, split at newlines, rewrite each line that
  matches `^(.*?): (\d+):(\d+): ` and append the snippet centred on the
  second integer. The lazy `(.*?)` is a search for the smallest index.
- **Outcome** (the `exit` handler of `lint`, module `Lint`): exit code 0
  resolves. Any other code rejects with the reformatted text, or with
  `exit code is not zero, and no output` when that text is empty.

`Text` holds the JavaScript string built-ins the code relies on: `\s`,
`trim`, `split` and `join` on one character, `toString`, `padStart`, and
`parseInt` on digits. `Styling` keeps `chalk.red` and `chalk.bgRed.white` as
opaque string functions, so every property holds for any terminal.

Behaviour worth knowing:

- The extension is compared as written, with no case folding: `shader.VERT`
  does not select `vert`.
- An explicit stage outside the set is ignored, not rejected, and the
  filename and the source then decide.
- The rewritten prefix shows both integers of the diagnostic in order:
  `ERROR: 0:1:` becomes `ERROR: a.frag[0, 1]:`.
- The number column is as wide as `line + 3` has digits, even when the
  largest number shown has fewer.

## Model

| member | source | states |
|---|---|---|
| ShaderStages.GetShaderStage | src/lib/index.ts:22-39 | the stage returned is always one of the seven stage names |
| ShaderStages.ExplicitStageWins | src/lib/index.ts:22-25 | a valid explicit stage is returned whatever the filename and the source |
| ShaderStages.InvalidStageIgnored | src/lib/index.ts:23-38 | an explicit stage outside the set gives the same result as no stage, and no error |
| ShaderStages.ExtensionOverridesContent | src/lib/index.ts:26-30 | with no explicit stage, an extension naming a stage is returned and the source text makes no difference |
| ShaderStages.UnknownExtensionIgnored | src/lib/index.ts:26-31 | an extension that names no stage is as good as no filename |
| ShaderStages.ExtensionIsCaseSensitive | src/lib/index.ts:27-28 | a file `name.ext` whose `ext` is not exactly a stage name (such as `VERT`) is ignored |
| ShaderStages.ExtensionOfFile | src/lib/index.ts:27 | the extension of `dir/name.ext` is `ext`, dots in the name included |
| ShaderStages.Extension | src/lib/index.ts:27 | the extension holds no dot and no slash |
| ShaderStages.ExtName | src/lib/index.ts:27 | `extname` is empty or a dot followed by no further dot or slash |
| ShaderStages.BaseName | src/lib/index.ts:27 | the last path segment holds no slash |
| ShaderStages.TrimTrailingSlashes | src/lib/index.ts:27 | only a run of trailing slashes is removed, and the result does not end in one |
| ShaderStages.AssignsAtIsPattern | src/lib/index.ts:17-18 | the greedy reading of `\s*=` agrees with the backtracking regular expression |
| ShaderStages.AssignsAt | src/lib/index.ts:17-18 | `{` or white space, the name, white space and `=` at one index, the white space read greedily; `AssignsAtIsPattern` proves it equal to the backtracking pattern |
| ShaderStages.IsVert | src/lib/index.ts:17 | `isVert`: `gl_Position` assigned somewhere; `SniffedStage` states the `vert` choice it makes in terms of the backtracking pattern |
| ShaderStages.IsFrag | src/lib/index.ts:18 | `isFrag`: `gl_FragColor` or `gl_FragData` assigned somewhere; `SniffedStage` shows it never changes the result, which is `frag` either way |
| ShaderStages.SniffedStage | src/lib/index.ts:17-38 | with no usable stage or extension the result is `vert` iff `gl_Position` is assigned after `{` or white space, and `frag` otherwise |
| CodeSnippet.GetCodeSnippet | src/lib/index.ts:45-56 | the loop builds exactly the entries of lines `max(1, line-2)` to `min(len, line+2)`, in order, joined by newlines |
| CodeSnippet.Snippet | src/lib/index.ts:45-56 | the snippet as the entries of the window joined by newlines; `GetCodeSnippet` is proved equal to it, and `WindowIsClamped`, `EntryAt` and `EntryIsRow` state its window and its entries |
| CodeSnippet.Entry | src/lib/index.ts:49-53 | the entry of one line; `EntryIsRow` states its layout and highlighting |
| CodeSnippet.WindowIsClamped | src/lib/index.ts:48 | line `i` is shown iff the source has it and it is within two of the reported line; at most five lines; none iff the source is empty or the line is beyond its end by more than two |
| CodeSnippet.EmptyWindowEmptySnippet | src/lib/index.ts:48-55 | an empty window gives the empty string |
| CodeSnippet.EntryAt | src/lib/index.ts:48-54 | entry `k` of the snippet is the entry of source line `first + k`, which exists |
| CodeSnippet.EntryIsRow | src/lib/index.ts:49-53 | the entry of line `i` is its number right-aligned in exactly `padLen` columns, then a bar, a space and the line, highlighted iff it is the reported line |
| CodeSnippet.NumberFits | src/lib/index.ts:46-49 | every number in the window fits in `padLen` columns, so `padStart` never keeps a number longer than the field |
| Text.Trim | src/lib/index.ts:62 | the result is empty iff the text is all white space, otherwise a slice between white-space runs that starts and ends with non-space |
| Text.Split | src/lib/index.ts:63 | at least one piece, none holding the separator, and joining them gives the text back |
| Text.SplitJoin | src/lib/index.ts:63 | splitting undoes joining |
| Text.SplitLength | src/lib/index.ts:63 | `split` yields one piece more than there are separators |
| Text.Join | src/lib/index.ts:55 | `join` on one character; `SplitJoin` proves `split` undoes it and `JoinSeparators` counts its separators |
| Text.JoinSeparators | src/lib/index.ts:73 | joining `n` pieces puts at least `n - 1` separators into the text |
| Text.NatToString | src/lib/index.ts:46 | `toString` gives decimal digits without a leading zero, as many as the number has |
| Text.ParseNatToString | src/lib/index.ts:70 | `parseInt` reads back what `toString` printed |
| Text.ParseDigits | src/lib/index.ts:70 | `parseInt` on decimal digits; `ParseNatToString` proves it reads back `toString` |
| Text.PadStart | src/lib/index.ts:49 | the text is right-aligned with spaces in a field of the given width, or kept when longer |
| Diagnostics.StripStdin | src/lib/index.ts:61 | a suffix is kept; text is removed iff it starts with white space and `stdin`, and what is removed is white space, `stdin` and all the white space after it |
| Diagnostics.HeaderAt | src/lib/index.ts:42 | a header found at `p` has the first `p` characters as its severity and two digit groups |
| Diagnostics.HeaderAtSplits | src/lib/index.ts:42 | a header found splits the line into severity, `: `, digits, `:`, digits, `: ` and the rest |
| Diagnostics.HeaderAtIsPattern | src/lib/index.ts:42 | the greedy digit runs match iff the backtracking pattern `: (\d+):(\d+): ` does |
| Diagnostics.FindHeader | src/lib/index.ts:42 | the search returns the match at the smallest index with no line terminator before it, or none when there is no such index |
| Diagnostics.MatchError | src/lib/index.ts:65 | `match` returns the leftmost match of `ERROR_REGEX`, or none when no index matches |
| Diagnostics.MatchErrorSplits | src/lib/index.ts:65 | a match splits the line into its captured parts |
| Diagnostics.FirstMatch | src/lib/index.ts:42 | the match is the header at the first index where one is found |
| Diagnostics.CutAtSeparators | src/lib/index.ts:42 | a line cut at the separators `: `, `:` and `: ` is its pieces and separators, in order |
| Diagnostics.ShapeGivesHeader | src/lib/index.ts:42 | where the backtracking pattern finds groups ending at `q` and `r`, the greedy reading finds the same groups |
| Diagnostics.HeaderOfLine | src/lib/index.ts:42 | the header of `<sev>: <n>:<m>: <rest>` is found right after the severity, with `n` and `m` as its groups |
| Diagnostics.SeverityPrefix | src/lib/index.ts:42 | no match ends inside a severity that holds no colon and no line break |
| Diagnostics.MatchOfLine | src/lib/index.ts:65 | `<sev>: <n>:<m>: <rest>` with such a severity matches with exactly these captured parts |
| Diagnostics.FormatLine | src/lib/index.ts:64-71 | the `.map` callback, with the filename printed as given; `MatchedLineLayout` and `LineKeptOrTailed` state what it does to a line |
| Diagnostics.MatchedLineLayout | src/lib/index.ts:64-70 | `<sev>: <n>:<m>: <rest>` becomes `<badge(sev)>: <filename>[<n>, <m>]: <rest>`, a newline and the snippet centred on `m` |
| Diagnostics.UnmatchedTextPassesThrough | src/lib/index.ts:64-68 | when no line matches, the cleaned-up text is returned unchanged |
| Diagnostics.DiagnosticLines | src/lib/index.ts:60-63 | the lines `split` finds in the trimmed output without its `stdin` marker; `StripStdin`, `Trim` and `Split` state each stage |
| Diagnostics.GetErrors | src/lib/index.ts:58-74 | `getErrors`; `NoLineDropped`, `EmptyExactlyWhenNothingPrinted`, `UnmatchedTextPassesThrough` and `FormattedLine` state what it returns |
| Diagnostics.LineKeptOrTailed | src/lib/index.ts:64-71 | the callback keeps an unmatched line; a matched one ends with its rest, a newline and the snippet centred on its second integer |
| Diagnostics.FormattedLine | src/lib/index.ts:59-72 | the same holds for output line `k` and diagnostic line `k`, the snippet taken from the source split at newlines |
| Diagnostics.FormatLines | src/lib/index.ts:63-72 | one output line per diagnostic line |
| Diagnostics.NoLineDropped | src/lib/index.ts:60-73 | the output has at least as many lines as the cleaned-up input |
| Diagnostics.EmptyExactlyWhenNothingPrinted | src/lib/index.ts:58-74 | the output is empty iff only white space and the `stdin` marker were printed |
| Diagnostics.Substitute | src/lib/index.ts:69 | the `$` patterns of `replace`'s replacement string; `SubstituteLiteral`, `SubstituteGroup`, `SubstituteAmpersand` and `HeaderTail` state its rules |
| Diagnostics.SubstituteLiteral | src/lib/index.ts:69 | text without `$` passes through the replacement template unchanged |
| Diagnostics.SubstituteGroup | src/lib/index.ts:69 | `$1` to `$3` not followed by a digit stand for the capture groups |
| Diagnostics.HeaderTail | src/lib/index.ts:69 | the template tail `[$2, $3]: ` becomes `[<n>, <m>]: ` |
| Diagnostics.ShownNameWithoutDollar | src/lib/index.ts:69 | the shown name (the filename, or `{snippet}` when it is absent or empty) holds no `$` when the filename holds none |
| Diagnostics.NameAndCoordinates | src/lib/index.ts:69 | a name without `$` followed by `[$2, $3]: ` expands to the name and `[<n>, <m>]: ` |
| Diagnostics.FormatLineAsWritten | src/lib/index.ts:64-70 | the callback as written, the filename pasted into the replacement string; `AsWrittenAgreesWithoutDollar` and `MatchedTextForDollarAmpersand` state how it compares with `FormatLine` |
| Diagnostics.AsWrittenAgreesWithoutDollar | src/lib/index.ts:69-70 | for a filename without `$` the source's rewriting equals the intended one |
| Diagnostics.GetErrorsAsWritten | src/lib/index.ts:58-74 | `getErrors` as written; `GetErrorsAgreeWithoutDollar` ties it to `GetErrors` |
| Diagnostics.GetErrorsAgreeWithoutDollar | src/lib/index.ts:58-74 | for a filename without `$` the whole output as written is the intended one, so every property proved of `GetErrors` holds of the source's output |
| Diagnostics.SubstituteAmpersand | src/lib/index.ts:69 | `$&` at the start of the replacement string becomes the matched text |
| Diagnostics.AmpersandFirst | src/lib/index.ts:69 | with a name starting with `$&`, the character after the badge is the first of the matched text |
| Diagnostics.MatchedTextForDollarAmpersand | src/lib/index.ts:69 | as written, for a filename starting with `$&`, the first character after the badge and `: ` is the first character of the diagnostic line |
| Diagnostics.NameAfterBadge | src/lib/index.ts:69 | as intended, the first character after the badge and `: ` is the first character of the filename |
| Diagnostics.DollarInFilenameIsExpanded | src/lib/index.ts:69 | for a file named `$&.frag` the source prints the matched text where the name belongs, while the intended rewriting prints the name |
| Lint.ValidatorArgs | src/lib/index.ts:78 | the validator gets three arguments, the last being the stage |
| Lint.ValidatorStage | src/lib/index.ts:78 | the validator is always asked for one of the seven stages, and for a valid explicit stage that one |
| Lint.Settle | src/lib/index.ts:80-90 | the promise resolves iff the exit code is 0, whatever was printed; a rejection never has an empty message |
| Lint.LintWith | src/lib/index.ts:76-90 | `lint` with the validator as a parameter; `ValidatorStage`, `InvalidStageSameOutcome` and the `Settle` lemmas state how it runs and settles |
| Lint.RejectedWithDiagnostics | src/lib/index.ts:83-86 | a failing run that printed a diagnostic rejects with the reformatted text |
| Lint.RejectedWithoutOutput | src/lib/index.ts:84-89 | a failing run that printed only white space and `stdin` rejects with `ERR_NO_OUTPUT` |
| Lint.BlankOutputIsNoOutput | src/lib/index.ts:84-89 | a failing run with blank output rejects with `ERR_NO_OUTPUT` |
| Lint.InvalidStageSameOutcome | src/lib/index.ts:76-78 | an explicit stage outside the set makes no difference to the run or its outcome |

## Left out

- Spawning `glslangValidator`, writing the source to its standard input, and the `exit` and `error` events are left out. They are process I/O. The validator is a function parameter of `Lint.LintWith`.
- The accumulation of standard-output chunks (`errors += chunk`) is left out. The model takes the whole captured output as one string.
- The spawn-error path and the unsupported-platform error are left out. Both come from Node's `child_process`.
- `lintSync` is left out. It spawns the validator synchronously and tests the truthiness of a `Buffer`.
- `src/index.ts` is not part of this model. It is the glslify transform adapter that calls `lint` or `lintSync`.
- The ANSI codes of `chalk` are left out. They are the two opaque functions of `Styling.Style`.
- Windows paths are left out. `ShaderStages.ExtName` follows Node's POSIX `path.extname`.
- JavaScript strings are UTF-16 code units. The model works on Unicode scalar values, which differ for characters outside the Basic Multilingual Plane and cannot hold a lone surrogate, which a JavaScript string can.
- Text.ParseDigits: `parseInt` is exact here. JavaScript loses precision above 2^53, a line number no source reaches.
- The TypeScript type `ShaderStage` on `stage` is not enforced at run time. The model takes any string, as the running code does.

## Findings

| source | as written | input that shows it | evidently intended | confidence | as-written member | corrected member |
|---|---|---|---|---|---|---|
| src/lib/index.ts:69 | the filename is pasted into the replacement string of `String.prototype.replace`, so `$&`, `$1`, `$$` and the like in it are expanded | filename `$&.frag`, diagnostic line `ERROR: 0:1: x`: the matched text `ERROR: 0:1: ` is printed where the filename belongs | the filename is printed as given | not executed | Diagnostics.DollarInFilenameIsExpanded | Diagnostics.MatchedLineLayout |

`Diagnostics.FormatLineAsWritten` models the line rewriting as written. It
uses `Diagnostics.Substitute`, the substitution rule of section 22.1.3.19.1
of ECMAScript 2023. `Diagnostics.FormatLine` is the corrected rewriting, and
`Diagnostics.GetErrors` uses it.
`Diagnostics.AsWrittenAgreesWithoutDollar` shows that the two agree on every
filename without `$`, and `Diagnostics.GetErrorsAgreeWithoutDollar` lifts
this to the whole output, `Diagnostics.GetErrorsAsWritten`. The properties of
`GetErrors` and of the `Lint` outcomes therefore hold of the source as written
whenever the filename holds no `$`.
