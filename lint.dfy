/** How `lint` in src/lib/index.ts settles once glslangValidator has exited:
    the validator is run with `--stdin -S <stage>` on the source, and its exit
    code and what it wrote to standard output decide between success and an
    error message. The process itself is a parameter: the model takes what it
    returned, not how it was spawned. */
module Lint {
  import opened Wrappers
  import opened Text
  import opened Styling
  import opened ShaderStages
  import opened Diagnostics

  /** `ERR_NO_OUTPUT`. */
  const ErrNoOutput: string := "exit code is not zero, and no output"

  /** What a finished validator run left: its exit code (`None` when a signal
      ended it, as Node reports `null`) and its standard output. */
  datatype Run = Run(code: Option<int>, stdout: string)

  /** The promise `lint` returns, once settled. */
  datatype Outcome = Resolved | Rejected(message: string)

  /** The command line `lint` starts glslangValidator with. */
  function ValidatorArgs(stage: string): (args: seq<string>)
    ensures |args| == 3 && args[2] == stage
  {
    ["--stdin", "-S", stage]
  }

  /** The `exit` handler: exit code 0 resolves, whatever was printed; any
      other code, or none, rejects, with the reformatted diagnostics or, when
      those are empty, `ERR_NO_OUTPUT`. A rejection never carries an empty
      message. */
  function Settle(src: string, filename: Option<string>, run: Run, style: Style): (o: Outcome)
    ensures o.Resolved? <==> run.code == Some(0)
    ensures o.Rejected? ==> o.message != ""
  {
    if run.code == Some(0) then Resolved
    else
      var errors := GetErrors(src, run.stdout, filename, style);
      if errors != "" then Rejected(errors) else Rejected(ErrNoOutput)
  }

  /** `lint(src, filename, stage)`, with the validator given as a function
      from its arguments and standard input to the run it makes. */
  function LintWith(validator: (seq<string>, string) -> Run, src: string, filename: Option<string>,
                    stage: Option<string>, style: Style): Outcome
  {
    Settle(src, filename, validator(ValidatorArgs(GetShaderStage(src, filename, stage)), src), style)
  }

  /** A failing run that printed a diagnostic is rejected with the
      reformatted text of it. */
  lemma {:induction false} RejectedWithDiagnostics(src: string, filename: Option<string>, run: Run, style: Style)
    requires run.code != Some(0)
    requires Trim(StripStdin(run.stdout)) != ""
    ensures Settle(src, filename, run, style) == Rejected(GetErrors(src, run.stdout, filename, style))
  {
    EmptyExactlyWhenNothingPrinted(src, run.stdout, filename, style);
  }

  /** A failing run that printed nothing but white space and the `stdin`
      marker is rejected with `ERR_NO_OUTPUT`. */
  lemma {:induction false} RejectedWithoutOutput(src: string, filename: Option<string>, run: Run, style: Style)
    requires run.code != Some(0)
    requires Trim(StripStdin(run.stdout)) == ""
    ensures Settle(src, filename, run, style) == Rejected(ErrNoOutput)
  {
    EmptyExactlyWhenNothingPrinted(src, run.stdout, filename, style);
  }

  /** In particular a failing run whose output is only white space is
      rejected with `ERR_NO_OUTPUT`. */
  lemma {:induction false} BlankOutputIsNoOutput(src: string, filename: Option<string>, run: Run, style: Style)
    requires run.code != Some(0)
    requires AllSpaces(run.stdout)
    ensures Settle(src, filename, run, style) == Rejected(ErrNoOutput)
  {
    var t := run.stdout;
    var r := StripStdin(t);
    assert AllSpaces(r) by {
      forall i | 0 <= i < |r| ensures IsSpace(r[i]) {
        assert r[i] == t[|t| - |r| + i];
      }
    }
    RejectedWithoutOutput(src, filename, run, style);
  }

  /** An explicit stage that is not a stage name changes nothing: the
      validator is run, and the promise settles, as with no stage at all. */
  lemma InvalidStageSameOutcome(validator: (seq<string>, string) -> Run, src: string, filename: Option<string>,
                                stage: string, style: Style)
    requires !IsStage(stage)
    ensures LintWith(validator, src, filename, Some(stage), style) == LintWith(validator, src, filename, None, style)
  {
    InvalidStageIgnored(src, filename, stage);
  }

  /** The validator is always asked for one of the seven stages, and for a
      valid explicit stage it is asked for that one. */
  lemma {:induction false} ValidatorStage(src: string, filename: Option<string>, stage: Option<string>)
    ensures IsStage(ValidatorArgs(GetShaderStage(src, filename, stage))[2])
    ensures stage.Some? && IsStage(stage.value) ==> ValidatorArgs(GetShaderStage(src, filename, stage))[2] == stage.value
  {
    if stage.Some? && IsStage(stage.value) {
      ExplicitStageWins(src, filename, stage.value);
    }
  }
}
