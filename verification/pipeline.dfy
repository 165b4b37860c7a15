/**
  One run of the assistant, as a strictly sequential, short-circuiting chain:

    help -> locate git -> git status -> staged diff (empty: stop, success)
         -> generate -> read the operator's choice -> (edit) -> commit

  Every external step (subprocesses, the generation request, the terminal,
  the editor round-trip) is an input: `World` holds what each one would
  answer. `Run` returns how the run ends together with the trace of external
  actions it invoked, in order, so that ordering and "never reached"
  properties can be stated over the trace.
 */
module Pipeline {
  import opened Base
  import Config
  import Prompt
  import Choice

  /** How the command line looked to the option parser. */
  datatype CommandLine = Parsed(flags: Config.Flags) | Malformed

  /** A subprocess whose exit status is inspected. */
  datatype Probe = Succeeded | Failed | Unspawnable

  /** A subprocess whose standard output is taken as text. */
  datatype Captured = Captured(text: string) | Unreadable

  /** What each external step answers during one run. */
  datatype World = World(
    whichGit: Probe,               // `which git`
    gitStatus: Probe,              // `git status`
    stagedDiff: Captured,          // stdout of `git diff --staged`; exit status ignored
    generated: Option<string>,     // the generation response; None when the request fails
    choiceLine: Option<string>,    // the line read from standard input; None when reading fails
    // The temporary file read back after the editor exits, whatever its exit status;
    // None when `mktemp`, the write, the editor spawn or wait, or the read-back panics.
    edited: Option<string>,
    commitOutput: Option<string>)  // stdout of `git commit -m`; None when it cannot be spawned or decoded

  /** The external actions a run can invoke. */
  datatype Action =
    | LocateGit
    | QueryStatus
    | ReadStagedDiff
    | Generate(model: string, prompt: string)
    | ReadChoice
    | EditMessage(draft: string)
    | CommitWith(message: string)

  /** Which step aborted the process (an `expect`/`unwrap` or parser panic). */
  datatype Panic = BadArguments | SubprocessFailed | GenerationFailed | InputUnreadable | EditFailed | CommitFailed

  /** Errors returned from the program's entry point, and panics. */
  datatype Failure = GitMissing | NoRepository | InvalidOption | Fatal(panic: Panic)

  /** The non-error ways a run ends. */
  datatype Completion = UsageShown | StagingEmpty | Discarded | Committed(output: string)

  datatype Outcome = Ok(completion: Completion) | Err(failure: Failure)

  datatype RunResult = RunResult(outcome: Outcome, trace: seq<Action>)

  /** The text the program reports for each error it returns. */
  function Diagnostic(f: Failure): (text: string)
    requires !f.Fatal?
    ensures |text| > 0
  {
    match f
    case GitMissing => "git is not installed"
    case NoRepository => "no git repository found"
    case InvalidOption => "Invalid option selected"
  }

  /** Each returned error has its own message, so the message names the error. */
  lemma DiagnosticsDistinct(f: Failure, g: Failure)
    requires !f.Fatal? && !g.Fatal? && f != g
    ensures Diagnostic(f) != Diagnostic(g)
  {
  }

  /**
    The process exit status: 0 for every non-error ending, 1 for an error
    returned from the entry point, 101 for a panic.
   */
  function ExitCode(o: Outcome): (code: nat)
    ensures code == 0 <==> o.Ok?
    ensures code == 1 <==> o.Err? && !o.failure.Fatal?
    ensures code == 101 <==> o.Err? && o.failure.Fatal?
  {
    match o
    case Ok(_) => 0
    case Err(Fatal(_)) => 101
    case Err(_) => 1
  }

  // ---------------------------------------------------------------------------
  // Trace order

  /** Position of each action kind in the pipeline. */
  function Rank(a: Action): nat {
    match a
    case LocateGit => 0
    case QueryStatus => 1
    case ReadStagedDiff => 2
    case Generate(_, _) => 3
    case ReadChoice => 4
    case EditMessage(_) => 5
    case CommitWith(_) => 6
  }

  /** Actions appear in strictly increasing pipeline position. */
  ghost predicate InPipelineOrder(t: seq<Action>) {
    forall i, j :: 0 <= i < j < |t| ==> Rank(t[i]) < Rank(t[j])
  }

  /** Every action of `t` is at pipeline position `k` or later. */
  ghost predicate From(t: seq<Action>, k: nat) {
    forall i :: 0 <= i < |t| ==> k <= Rank(t[i])
  }

  /**
    `t` starts at pipeline position `k` or later, and each action comes
    strictly after the one before it. Stated one neighbour at a time, so that
    a stage's guarantee unfolds step by step along its trace.
   */
  ghost predicate Ascending(t: seq<Action>, k: nat) {
    |t| == 0 || (k <= Rank(t[0]) && Ascending(t[1..], Rank(t[0]) + 1))
  }

  /** An ascending trace is in pipeline order and holds nothing before `k`. */
  lemma {:induction false} AscendingIsOrdered(t: seq<Action>, k: nat)
    requires Ascending(t, k)
    ensures InPipelineOrder(t) && From(t, k)
  {
    if |t| > 0 {
      var tail := t[1..];
      AscendingIsOrdered(tail, Rank(t[0]) + 1);
      forall i, j | 0 <= i < j < |t|
        ensures Rank(t[i]) < Rank(t[j])
      {
        assert t[j] == tail[j - 1];
        if i > 0 {
          assert t[i] == tail[i - 1];
        }
      }
      forall i | 0 < i < |t|
        ensures k <= Rank(t[i])
      {
        assert t[i] == tail[i - 1];
      }
    }
  }

  /** An ascending trace holds no action from before its starting position. */
  lemma {:induction false} AscendingExcludes(t: seq<Action>, k: nat, a: Action)
    requires Ascending(t, k) && Rank(a) < k
    ensures a !in t
  {
    if |t| > 0 {
      AscendingExcludes(t[1..], Rank(t[0]) + 1, a);
      assert t == [t[0]] + t[1..];
    }
  }

  /** No action of a non-empty ascending trace comes after its last one. */
  lemma {:induction false} AscendingUpToLast(t: seq<Action>, k: nat)
    requires Ascending(t, k) && |t| > 0
    ensures forall a :: a in t ==> Rank(a) <= Rank(t[|t| - 1])
  {
    if |t| > 1 {
      var tail := t[1..];
      AscendingUpToLast(tail, Rank(t[0]) + 1);
      assert tail[|tail| - 1] == t[|t| - 1];
      assert tail[0] in tail;
      assert t == [t[0]] + tail;
    }
  }

  /** The run ends here with `o`, invoking nothing more. */
  function Stop(o: Outcome): RunResult {
    RunResult(o, [])
  }

  /** Action `a` is invoked, then the run continues as `rest`. */
  function Then(a: Action, rest: RunResult): RunResult {
    RunResult(rest.outcome, [a] + rest.trace)
  }

  /** Invoking an action before a later stage keeps the trace ordered. */
  lemma ThenKeepsOrder(a: Action, rest: RunResult, k: nat)
    requires Ascending(rest.trace, k) && Rank(a) < k
    ensures Ascending(Then(a, rest).trace, Rank(a))
  {
    assert Then(a, rest).trace[1..] == rest.trace;
  }

  // ---------------------------------------------------------------------------
  // Stages

  /** The whole run for one command line, environment and world. */
  function Run(cmd: CommandLine, env: Config.EnvVars, w: World): (r: RunResult)
    ensures Ascending(r.trace, 0)
  {
    match cmd
    case Malformed => Stop(Err(Fatal(BadArguments)))
    case Parsed(flags) =>
      if flags.help then Stop(Ok(UsageShown))
      else
        // The endpoint and verbosity are resolved too, but only the model
        // reaches a later stage: the request goes to the client's default address.
        CheckTool(Config.Resolve(flags, env).model, w)
  }

  /** `which git`: a failure ends the run before `git status`. */
  function CheckTool(model: string, w: World): (r: RunResult)
    ensures Ascending(r.trace, Rank(LocateGit))
  {
    var rest := match w.whichGit
      case Unspawnable => Stop(Err(Fatal(SubprocessFailed)))
      case Failed => Stop(Err(GitMissing))
      case Succeeded => CheckRepository(model, w);
    ThenKeepsOrder(LocateGit, rest, Rank(QueryStatus));
    Then(LocateGit, rest)
  }

  /** `git status`: a failure ends the run before the diff is read. */
  function CheckRepository(model: string, w: World): (r: RunResult)
    ensures Ascending(r.trace, Rank(QueryStatus))
  {
    var rest := match w.gitStatus
      case Unspawnable => Stop(Err(Fatal(SubprocessFailed)))
      case Failed => Stop(Err(NoRepository))
      case Succeeded => ReadDiff(model, w);
    ThenKeepsOrder(QueryStatus, rest, Rank(ReadStagedDiff));
    Then(QueryStatus, rest)
  }

  /** `git diff --staged`: empty output ends the run successfully. */
  function ReadDiff(model: string, w: World): (r: RunResult)
    ensures Ascending(r.trace, Rank(ReadStagedDiff))
  {
    var rest := match w.stagedDiff
      case Unreadable => Stop(Err(Fatal(SubprocessFailed)))
      case Captured(diff) =>
        if |diff| == 0 then Stop(Ok(StagingEmpty)) else GenerateMessage(model, diff, w);
    ThenKeepsOrder(ReadStagedDiff, rest, Rank(Generate("", "")));
    Then(ReadStagedDiff, rest)
  }

  /** One generation request carrying the model and the assembled prompt. */
  function GenerateMessage(model: string, diff: string, w: World): (r: RunResult)
    ensures Ascending(r.trace, Rank(Generate("", "")))
  {
    var rest := match w.generated
      case None => Stop(Err(Fatal(GenerationFailed)))
      case Some(message) => Review(message, w);
    ThenKeepsOrder(Generate(model, Prompt.Build(diff)), rest, Rank(ReadChoice));
    Then(Generate(model, Prompt.Build(diff)), rest)
  }

  /** One line from the operator decides: commit as is, edit once, discard, or fail. */
  function Review(message: string, w: World): (r: RunResult)
    ensures Ascending(r.trace, Rank(ReadChoice))
  {
    var rest := match w.choiceLine
      case None => Stop(Err(Fatal(InputUnreadable)))
      case Some(line) => Respond(message, Choice.Decide(Choice.StripTerminator(line)), w);
    ThenKeepsOrder(ReadChoice, rest, Rank(EditMessage("")));
    Then(ReadChoice, rest)
  }

  /** What follows the operator's decision about the generated `message`. */
  function Respond(message: string, d: Choice.Decision, w: World): (r: RunResult)
    ensures Ascending(r.trace, Rank(EditMessage("")))
  {
    match d
    case Commit => CommitMessage(message, w)
    case Edit => EditThenCommit(message, w)
    case Discard => Stop(Ok(Discarded))
    case Invalid => Stop(Err(InvalidOption))
  }

  /** The editor round-trip; its result is committed without a second review. */
  function EditThenCommit(draft: string, w: World): (r: RunResult)
    ensures Ascending(r.trace, Rank(EditMessage("")))
  {
    var rest := match w.edited
      case None => Stop(Err(Fatal(EditFailed)))
      case Some(message) => CommitMessage(message, w);
    ThenKeepsOrder(EditMessage(draft), rest, Rank(CommitWith("")));
    Then(EditMessage(draft), rest)
  }

  /** `git commit -m message`; its output is shown and the run succeeds whatever git's exit status. */
  function CommitMessage(message: string, w: World): (r: RunResult)
    ensures Ascending(r.trace, Rank(CommitWith("")))
  {
    var rest := match w.commitOutput
      case None => Stop(Err(Fatal(CommitFailed)))
      case Some(output) => Stop(Ok(Committed(output)));
    Then(CommitWith(message), rest)
  }
}
