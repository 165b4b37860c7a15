# git-ai commit assistant — decision core in Dafny

`git-commit` generates a commit message for the staged changes. It sends the
staged diff, followed by a fixed instruction block, to a local text-generation
service. It then asks the operator to commit the message, edit it once, or
discard it. This project models the program's decision core:

- **Configuration** (`config.dfy`, module `Config`). For the endpoint and the
  model, the `-s`/`-m` option wins over `GITAI_ENDPOINT`/`GITAI_MODEL`, which
  wins over the defaults `http://localhost:11434` and `llama3.2`.
- **Prompt assembly** (`prompt.dfy`, module `Prompt`). The prompt is the diff
  text followed by the instruction block. `Prompt.Instructions` holds that
  block character for character, including its leading line break and its
  three closing line breaks. `Prompt.DiffOf` is the inverse of `Prompt.Build`.
- **Operator answer** (`choice.dfy`, module `Choice`). One trailing `"\r\n"`,
  or else one `"\n"`, is removed. The rest is then matched exactly against
  `c`/`C`, `e`/`E` and `d`/`D`. `Decide` is specified independently of the six
  literals: the answer must be a single character whose ASCII lower case is
  the key letter.
- **Run** (`pipeline.dfy`, module `Pipeline`). The program is a short-circuiting
  chain: help, `which git`, `git status`, `git diff --staged` (empty output
  stops the run successfully), one generation request, one answer, an optional
  edit, and the commit. A `World` value supplies what every external step
  answers. `Run` returns an `Outcome` and the trace of external `Action`s it
  invoked. Each stage guarantees that its trace is in pipeline order.
- **Run properties** (`run_properties.dfy`, module `RunProperties`). These are
  lemmas over the outcome and the trace. They cover which early exit leaves
  what uninvoked, where a panic stops the run, which message gets committed,
  the fact that no action happens twice, and independence from the endpoint
  and from verbosity.

Exit statuses follow Rust's conventions for `main`. Every successful ending
exits 0. An error returned from `main` ("git is not installed", "no git
repository found", "Invalid option selected") exits 1. A panic from
`expect`/`unwrap` or from the option parser exits 101. All panics are modelled
as `Err(Fatal(reason))`.

Four details of the code shape the model:

- The exit status of `git commit` is never inspected. The run ends
  successfully with the captured standard output even if git refuses the
  commit. Only a spawn failure or undecodable output aborts it
  (`Pipeline.CommitMessage`).
- The exit status of `git diff --staged` is not inspected either; only the
  length of its output is.
- The endpoint is resolved, but it is used only in the verbose echo. The
  request goes to the client's default address (`Ollama::default()`). So
  only the model reaches later stages, and
  `RunProperties.RunIgnoresEndpointAndVerbosity` proves that the endpoint
  cannot change a run.
- The editor's exit status is not inspected either. A panic comes only
  from running `mktemp` or decoding its output, writing the temporary file,
  spawning or waiting for the editor, or reading the file back. After a
  non-zero editor exit the file is still read back and committed
  (`World.edited`).

## Model

| member | source | states |
|---|---|---|
| Config.Pick | git-commit/src/main.rs:25-26 | the option's value if present, else the variable's if set, else the default |
| Config.Resolve | git-commit/src/main.rs:25-63 | the endpoint follows `-s` > `GITAI_ENDPOINT` > `http://localhost:11434`; the model follows `-m` > `GITAI_MODEL` > `llama3.2`; verbosity is exactly `-v` |
| Config.ModelIndependentOfOtherSources | git-commit/src/main.rs:57-59 | the resolved model depends only on `-m` and `GITAI_MODEL` |
| Config.DefaultOnlyWhenUnset | git-commit/src/main.rs:25-26 | the result equals the default iff neither source is given, or the winning source gives the default text itself |
| Prompt.Build | git-commit/src/main.rs:100-102 | the prompt starts with the diff verbatim, ends with the instruction block, and its length is the sum of both |
| Prompt.DiffOf | git-commit/src/main.rs:8-14 | a text is recognised as a prompt exactly when it ends with the instruction block |
| Prompt.DiffOfBuild | git-commit/src/main.rs:100-102 | the diff can be read back from the prompt built from it |
| Prompt.BuildDiffOf | git-commit/src/main.rs:100-102 | every recognised prompt is the prompt built from the diff it yields |
| Prompt.BuildInjective | git-commit/src/main.rs:100-102 | different diffs give different prompts |
| Choice.StripTerminator | git-commit/src/main.rs:125-128 | the line is the result followed by the removed part; the removed part is `"\r\n"`, `"\n"` or nothing, and it is the longest of these the line ends with |
| Choice.StripCrLf | git-commit/src/main.rs:125-126 | content followed by `"\r\n"` gives back exactly the content |
| Choice.StripLf | git-commit/src/main.rs:125-127 | content followed by `"\n"` gives back the content when that content does not end in `'\r'` |
| Choice.StripNoTerminator | git-commit/src/main.rs:128 | a line without a line break is unchanged |
| Choice.StripRemovesOnlyOne | git-commit/src/main.rs:125-128 | `"c\n\n"` becomes `"c\n"`, while `"c\r\n"`, `"c\n"` and `"c"` become `"c"` |
| Choice.Decide | git-commit/src/main.rs:130-160 | Commit, Edit or Discard iff the answer is one character whose lower case is c, e or d; everything else is Invalid |
| Choice.DecideIgnoresCase | git-commit/src/main.rs:131-154 | a one-letter answer decides the same as its lower-case form |
| Choice.DecideAcceptedLines | git-commit/src/main.rs:125-156 | `"c\n"`, `"C\n"` and `"c\r\n"` mean commit; `"E\n"` means edit; `"d\r\n"` means discard |
| Choice.DecideRejectedLines | git-commit/src/main.rs:125-159 | `"x\n"`, `"\n"`, `"cc\n"` and `"c\n\n"` are invalid |
| Pipeline.Diagnostic | git-commit/src/main.rs:77-158 | every error returned from `main` carries a non-empty message |
| Pipeline.DiagnosticsDistinct | git-commit/src/main.rs:77-158 | the three returned errors have pairwise different messages, so the message names the error |
| Pipeline.ExitCode | git-commit/src/main.rs:21-22 | the status is 0 exactly for successful endings, 1 exactly for returned errors and 101 exactly for panics |
| Pipeline.Run | git-commit/src/main.rs:41-63 | every run's trace lists its actions in strictly increasing pipeline position |
| Pipeline.CheckTool | git-commit/src/main.rs:71-78 | from the tool check on, the trace is in pipeline order |
| Pipeline.CheckRepository | git-commit/src/main.rs:80-87 | from the repository check on, the trace is ordered and holds no earlier action |
| Pipeline.ReadDiff | git-commit/src/main.rs:89-98 | from the diff on, the trace is ordered and holds no earlier action |
| Pipeline.GenerateMessage | git-commit/src/main.rs:100-111 | from the generation request on, the trace is ordered and holds no earlier action |
| Pipeline.Review | git-commit/src/main.rs:119-160 | from the operator's answer on, the trace is ordered and holds no earlier action |
| Pipeline.Respond | git-commit/src/main.rs:130-160 | from the response to the answer on, the trace is ordered and holds nothing before the edit, so the answer is not asked again |
| Pipeline.EditThenCommit | git-commit/src/main.rs:132-153 | from the edit on, the trace is ordered and holds no earlier action, so the answer is never asked again |
| Pipeline.CommitMessage | git-commit/src/main.rs:166-179 | the trace holds commit actions only |
| RunProperties.EachActionAtMostOnce | git-commit/src/main.rs:48-179 | no kind of action occurs twice: at most one request, one answer and one commit |
| RunProperties.ActionsInPipelineOrder | git-commit/src/main.rs:48-179 | any two actions of a run occur in pipeline order, which follows from every stage's ordered trace |
| RunProperties.MalformedInvokesNothing | git-commit/src/main.rs:41-46 | an unparsable command line panics before any action |
| RunProperties.HelpInvokesNothing | git-commit/src/main.rs:48-51 | `-h` ends the run with status 0 and an empty trace |
| RunProperties.ToolMissingStopsBeforeStatus | git-commit/src/main.rs:71-78 | a failed `which git` gives "git is not installed", status 1 and the trace `[LocateGit]` |
| RunProperties.NoRepositoryStopsBeforeDiff | git-commit/src/main.rs:80-87 | a failed `git status` gives "no git repository found", status 1 and the trace `[LocateGit, QueryStatus]` |
| RunProperties.EarlyExitNeverGenerates | git-commit/src/main.rs:71-98 | a run whose checks fail, or whose diff is empty or unreadable, invokes nothing from the generation request on |
| RunProperties.EmptyStagingStops | git-commit/src/main.rs:89-98 | an empty staged diff ends successfully after reading it; nothing is generated or committed |
| RunProperties.GenerationCarriesPrompt | git-commit/src/main.rs:100-111 | a request is sent only for a non-empty diff, with the resolved model and the prompt built from that diff |
| RunProperties.RespondCommitsOnlyAcceptOrEdit | git-commit/src/main.rs:130-160 | after the answer, a commit carries the generated message for c and the edited text for e; no other answer commits |
| RunProperties.CommitOnlyAfterAcceptOrEdit | git-commit/src/main.rs:130-179 | a commit happens only after commit (with the generated message unchanged) or edit (with exactly the edited text) |
| RunProperties.EarlyExitNeverEdits | git-commit/src/main.rs:71-123 | a run that stops before the operator's answer is read neither edits nor commits |
| RunProperties.RunThroughReview | git-commit/src/main.rs:71-128 | a run that reaches the answer is the two checks, the diff, the request with the resolved model and built prompt, and the question, followed by the response to that answer |
| RunProperties.DiscardAndInvalidNeverCommit | git-commit/src/main.rs:154-159 | after discard or an invalid answer, neither an edit nor a commit is invoked |
| RunProperties.AcceptCommitsGenerated | git-commit/src/main.rs:130-179 | answering c commits the generated message right after the answer; the outcome is the commit's output |
| RunProperties.EditCommitsEdited | git-commit/src/main.rs:132-179 | answering e edits the generated message once, then commits exactly the edited text without asking again |
| RunProperties.DiscardEndsSuccessfully | git-commit/src/main.rs:154-156 | answering d ends with status 0 right after the answer |
| RunProperties.InvalidAnswerFails | git-commit/src/main.rs:157-159 | any other answer ends with "Invalid option selected" and status 1 right after the answer |
| RunProperties.CommittedMeansCommitLast | git-commit/src/main.rs:166-179 | the run ends `Committed` iff its last action is a commit and the commit's output could be read |
| RunProperties.PanicStopsAtFailingStep | git-commit/src/main.rs:41-179 | a panic exits 101; a run invokes no step exactly when the command line is malformed or asks for help, and then panics exactly when it is malformed; otherwise it panics exactly when the world's answer to the last step invoked is a failure, and with that step's panic |
| RunProperties.FailingStepPanics | git-commit/src/main.rs:71-179 | a step that is reached and whose answer is a failure (an unspawnable `which` or `git status`, an unreadable diff, no response, no answer, a failed edit, an unreadable commit output) is the last step, and the run ends in that step's panic |
| RunProperties.RunIgnoresEndpointAndVerbosity | git-commit/src/main.rs:53-111 | runs that differ only in endpoint or verbosity settings are identical |

## Left out

- Subprocesses (`which`, `git`, `mktemp`, the editor) are not executed. Their exit statuses and outputs are fields of `Pipeline.World`. The exact argument lists are not modelled.
- The generation request is asynchronous network I/O. It is modelled as one `Generate(model, prompt)` action whose answer is `World.generated`, and a failed request is the `unwrap` panic.
- The temporary-file and editor round-trip is file-system and process I/O. It is modelled as one `EditMessage(draft)` action whose result is the opaque text `World.edited`. Not modelled: the `EDITOR` variable, its `vi` fallback, and the fact that the `mktemp` path keeps its trailing newline.
- Option parsing and usage formatting belong to the `getopts` library. Parsed options arrive as `Config.Flags`, and a parse failure arrives as `CommandLine.Malformed`.
- UTF-8 decoding is not modelled. Undecodable subprocess output is the `Unreadable` case or a `None` output, which ends the run in a panic.
- The verbose `println!` diagnostics and the framed display of the message are output only; a panic when standard output cannot be written is not modelled.
- Panic messages are not modelled. `Pipeline.Panic` records only the kind of step that raised a panic, and `which git`, `git status` and `git diff --staged` share `SubprocessFailed`; the step itself is the trace's last action.
- Pipeline.CheckTool: its contract states only that its trace is in pipeline order. What the tool check decides is stated by RunProperties.ToolMissingStopsBeforeStatus, and its spawn-failure panic by RunProperties.PanicStopsAtFailingStep and FailingStepPanics.
- Pipeline.CheckRepository: its contract states only trace order. The repository check's outcome is stated by RunProperties.NoRepositoryStopsBeforeDiff, and its spawn-failure panic by RunProperties.PanicStopsAtFailingStep and FailingStepPanics.
- Pipeline.ReadDiff: its contract states only trace order. The empty-diff exit is stated by RunProperties.EmptyStagingStops, the unreadable-output panic by RunProperties.PanicStopsAtFailingStep and FailingStepPanics, and the request's contents by RunProperties.GenerationCarriesPrompt.
- Pipeline.GenerateMessage: its contract states only trace order. The request's contents are stated by RunProperties.GenerationCarriesPrompt and the failed-request panic by RunProperties.PanicStopsAtFailingStep and FailingStepPanics.
- Pipeline.Review: its contract states only trace order. The four answers are covered by RunProperties.AcceptCommitsGenerated, EditCommitsEdited, DiscardEndsSuccessfully and InvalidAnswerFails, and an unreadable answer by RunProperties.PanicStopsAtFailingStep and FailingStepPanics.
- Pipeline.Respond: its contract states only trace order. What each decision leads to is stated by RunProperties.RespondCommitsOnlyAcceptOrEdit, AcceptCommitsGenerated, EditCommitsEdited, DiscardEndsSuccessfully and InvalidAnswerFails.
- Pipeline.EditThenCommit: its contract states only trace order. The edited message is stated by RunProperties.EditCommitsEdited and a failed edit step by RunProperties.PanicStopsAtFailingStep and FailingStepPanics.
- Pipeline.CommitMessage: its contract states only trace order. The committed outcome is stated by RunProperties.CommittedMeansCommitLast and the spawn or decoding panic by RunProperties.PanicStopsAtFailingStep and FailingStepPanics.
