/** Stage resolution (`getShaderStage` in src/lib/index.ts): which of the
    seven recognised stages a shader source is linted as. An explicit
    stage wins, then the filename extension, then a look at the source text;
    the first rule that applies decides. */
module ShaderStages {
  import opened Wrappers
  import opened Text

  /** `shaderStages`: the stage names the linter recognises. */
  const Stages: seq<string> := ["vert", "frag", "conf", "tesc", "tese", "geom", "comp"]

  /** `DEFAULT_STAGE`. */
  const DefaultStage: string := "frag"

  predicate IsStage(s: string)
  {
    s in Stages
  }

  // ---------------------------------------------------------------------------
  // Content sniffing: `isVert` and `isFrag`
  // ---------------------------------------------------------------------------

  /** The `(\{|\s)` that must come right before the identifier. */
  predicate IsOpener(c: char)
  {
    c == '{' || IsSpace(c)
  }

  /** At index `i` stands `{` or white space, then `name`, then white space,
      then `=`: the `\s*` is read greedily, and since `=` is not white space
      the `=` must follow the whole run. */
  predicate AssignsAt(s: string, i: nat, name: string)
  {
    var j := i + 1 + |name|;
    && j <= |s|
    && IsOpener(s[i])
    && s[i + 1..j] == name
    && var k := SkipSpaces(s, j); k < |s| && s[k] == '='
  }

  /** `/(\{|\s)name\s*=/.test(s)`: the pattern matches somewhere in `s`. */
  predicate Assigns(s: string, name: string)
  {
    exists i | 0 <= i < |s| :: AssignsAt(s, i, name)
  }

  /** `isVert`: an assignment to `gl_Position`. */
  predicate IsVert(s: string)
  {
    Assigns(s, "gl_Position")
  }

  /** `isFrag`: an assignment to `gl_FragColor` or to `gl_FragData`. */
  predicate IsFrag(s: string)
  {
    Assigns(s, "gl_FragColor") || Assigns(s, "gl_FragData")
  }

  /** The pattern `(\{|\s)name\s*=` read as a regular expression with
      backtracking: some run of white space, of any length, ends at an `=`. */
  ghost predicate PatternAt(s: string, i: nat, name: string)
  {
    var j := i + 1 + |name|;
    && j <= |s|
    && IsOpener(s[i])
    && s[i + 1..j] == name
    && exists k :: j <= k < |s| && s[k] == '=' && AllSpaces(s[j..k])
  }

  /** The greedy reading of `\s*=` agrees with the backtracking one. */
  lemma AssignsAtIsPattern(s: string, i: nat, name: string)
    ensures AssignsAt(s, i, name) <==> PatternAt(s, i, name)
  {
    var j := i + 1 + |name|;
    if j <= |s| {
      var k := SkipSpaces(s, j);
      if AssignsAt(s, i, name) {
        assert AllSpaces(s[j..k]);
      }
      if PatternAt(s, i, name) {
        var k' :| j <= k' < |s| && s[k'] == '=' && AllSpaces(s[j..k']);
        if k < k' {
          assert s[j..k'][k - j] == s[k];
        }
      }
    }
  }

  // ---------------------------------------------------------------------------
  // `path.extname(filename).substr(1)`
  // ---------------------------------------------------------------------------

  /** `path` without the slashes at its end. */
  function TrimTrailingSlashes(path: string): (r: string)
    ensures |r| <= |path| && r == path[..|r|]
    ensures r == "" || r[|r| - 1] != '/'
    ensures forall i :: |r| <= i < |path| ==> path[i] == '/'
  {
    if path != "" && path[|path| - 1] == '/' then TrimTrailingSlashes(path[..|path| - 1]) else path
  }

  /** The last segment of a POSIX path, trailing slashes ignored. */
  function BaseName(path: string): (b: string)
    ensures '/' !in b
  {
    var t := TrimTrailingSlashes(path);
    t[LastIndexOf(t, '/') + 1..]
  }

  /** Node's POSIX `path.extname`: from the last `.` of the last segment to
      its end; empty when the segment has no `.`, when its only candidate dot
      is the segment's first character (`.bashrc`), or for `..`. */
  function ExtName(path: string): (e: string)
    ensures e == "" || (e[0] == '.' && '/' !in e && '.' !in e[1..])
  {
    var b := BaseName(path);
    var d := LastIndexOf(b, '.');
    if d <= 0 || b == ".." then "" else b[d..]
  }

  /** `extname(filename).substr(1)`: the extension without its dot, taken
      as it is (no case folding). */
  function Extension(filename: string): (x: string)
    ensures '.' !in x && '/' !in x
  {
    var e := ExtName(filename);
    if e == "" then "" else e[1..]
  }

  lemma {:induction false} LastIndexOfAfter(x: string, c: char, y: string)
    requires c !in y
    ensures LastIndexOf(x + [c] + y, c) == |x|
  {
    var s := x + [c] + y;
    var i := LastIndexOf(s, c);
    assert s[|x|] == c;
  }

  /** The last segment of `dir + base`, for a `base` without slashes that
      does not end the path with one. */
  lemma {:induction false} BaseNameOfFile(dir: string, base: string)
    requires dir == "" || dir[|dir| - 1] == '/'
    requires base != "" && '/' !in base
    ensures BaseName(dir + base) == base
  {
    var path := dir + base;
    assert path[|path| - 1] == base[|base| - 1];
    assert TrimTrailingSlashes(path) == path;
    if dir == "" {
      assert path == base;
      assert LastIndexOf(path, '/') == -1;
    } else {
      var x := dir[..|dir| - 1];
      assert path == x + ['/'] + base;
      LastIndexOfAfter(x, '/', base);
      assert BaseName(path) == path[|dir|..];
      assert path[|dir|..] == base;
    }
  }

  /** A last segment `name.ext` with a non-empty name has extension `.ext`. */
  lemma {:induction false} ExtNameOfBase(path: string, name: string, ext: string)
    requires name != "" && ext != "" && '.' !in ext
    requires BaseName(path) == name + "." + ext
    ensures ExtName(path) == "." + ext
  {
    var base := name + "." + ext;
    assert base == name + ['.'] + ext;
    LastIndexOfAfter(name, '.', ext);
    var d := LastIndexOf(base, '.');
    assert d == |name| && d > 0;
    assert base != ".." by { assert |base| >= 3; }
    assert base[d..] == "." + ext;
  }

  /** A file `name.ext` in any directory has extension `ext`, whatever the
      name holds (dots included), as long as neither part is empty. */
  lemma {:induction false} ExtensionOfFile(dir: string, name: string, ext: string)
    requires dir == "" || dir[|dir| - 1] == '/'
    requires name != "" && '/' !in name
    requires ext != "" && '/' !in ext && '.' !in ext
    ensures Extension(dir + name + "." + ext) == ext
  {
    var base := name + "." + ext;
    assert '/' !in base by {
      assert base == name + ['.'] + ext;
    }
    assert dir + name + "." + ext == dir + base;
    BaseNameOfFile(dir, base);
    ExtNameOfBase(dir + base, name, ext);
  }

  // ---------------------------------------------------------------------------
  // `getShaderStage`
  // ---------------------------------------------------------------------------

  /** `getShaderStage(src, filename, stage)`. An absent or empty filename and
      an absent or empty stage are skipped, as JavaScript's truthiness test
      skips them; an explicit stage that is not a stage name is skipped too. */
  function GetShaderStage(src: string, filename: Option<string>, stage: Option<string>): (r: string)
    ensures IsStage(r)
  {
    if stage.Some? && stage.value != "" && IsStage(stage.value) then stage.value
    else if filename.Some? && filename.value != "" && IsStage(Extension(filename.value)) then
      Extension(filename.value)
    else if IsVert(src) then "vert"
    else if IsFrag(src) then "frag"
    else DefaultStage
  }

  /** A valid explicit stage is returned whatever the filename and source. */
  lemma ExplicitStageWins(src: string, filename: Option<string>, stage: string)
    requires IsStage(stage)
    ensures GetShaderStage(src, filename, Some(stage)) == stage
  {
  }

  /** An explicit stage outside the set is ignored: the result is the one
      obtained with no explicit stage at all (and never an error). */
  lemma InvalidStageIgnored(src: string, filename: Option<string>, stage: string)
    requires !IsStage(stage)
    ensures GetShaderStage(src, filename, Some(stage)) == GetShaderStage(src, filename, None)
  {
  }

  /** A filename whose extension names a stage decides the stage, whatever
      the source text would suggest. */
  lemma ExtensionOverridesContent(src: string, other: string, filename: string)
    requires IsStage(Extension(filename))
    ensures GetShaderStage(src, Some(filename), None) == Extension(filename)
    ensures GetShaderStage(src, Some(filename), None) == GetShaderStage(other, Some(filename), None)
  {
  }

  /** With neither a usable stage nor a usable extension the source decides:
      `vert` exactly when `{` or white space, `gl_Position`, white space and
      `=` occur in a row, and `frag` in every other case, whether or not a
      fragment output is assigned. */
  lemma SniffedStage(src: string, filename: Option<string>, stage: Option<string>)
    requires stage.None? || !IsStage(stage.value)
    requires filename.None? || !IsStage(Extension(filename.value))
    ensures (GetShaderStage(src, filename, stage) == "vert")
              <==> (exists i :: 0 <= i < |src| && PatternAt(src, i, "gl_Position"))
    ensures GetShaderStage(src, filename, stage) != "vert" ==> GetShaderStage(src, filename, stage) == "frag"
  {
    forall i | 0 <= i < |src| {
      AssignsAtIsPattern(src, i, "gl_Position");
    }
  }

  /** A filename whose extension names no stage is as good as none. */
  lemma UnknownExtensionIgnored(src: string, filename: string)
    requires !IsStage(Extension(filename))
    ensures GetShaderStage(src, Some(filename), None) == GetShaderStage(src, None, None)
  {
  }

  /** The extension is compared as written, with no case folding: an
      extension that is not exactly a stage name, such as `VERT` for a file
      `shader.VERT`, is ignored and the source decides. */
  lemma {:induction false} ExtensionIsCaseSensitive(src: string, dir: string, name: string, ext: string)
    requires dir == "" || dir[|dir| - 1] == '/'
    requires name != "" && '/' !in name
    requires ext != "" && '/' !in ext && '.' !in ext
    requires !IsStage(ext)
    ensures GetShaderStage(src, Some(dir + name + "." + ext), None) == GetShaderStage(src, None, None)
  {
    ExtensionOfFile(dir, name, ext);
  }
}
