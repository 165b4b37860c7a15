/**
  Properties of a whole run, stated over its outcome and its action trace:
  what each early exit leaves uninvoked, which message is committed, how
  often each action can happen, and which configuration the run depends on.
 */
module RunProperties {
  import opened Base
  import Config
  import Prompt
  import Choice
  import opened Pipeline

  /** Number of actions in `t` at pipeline position `k`. */
  function Occurrences(t: seq<Action>, k: nat): nat {
    if |t| == 0 then 0
    else (if Rank(t[0]) == k then 1 else 0) + Occurrences(t[1..], k)
  }

  /** A trace whose actions all come after position `k` contains none at `k`. */
  lemma {:induction false} NoneBefore(t: seq<Action>, k: nat)
    requires From(t, k + 1)
    ensures Occurrences(t, k) == 0
  {
    if |t| > 0 {
      assert From(t[1..], k + 1) by {
        forall i | 0 <= i < |t[1..]|
          ensures k + 1 <= Rank(t[1..][i])
        {
          assert t[1..][i] == t[i + 1];
        }
      }
      NoneBefore(t[1..], k);
    }
  }

  /** In an ordered trace every kind of action happens at most once. */
  lemma {:induction false} OrderedOccursAtMostOnce(t: seq<Action>, k: nat)
    requires InPipelineOrder(t)
    ensures Occurrences(t, k) <= 1
  {
    if |t| > 0 {
      var tail := t[1..];
      assert InPipelineOrder(tail) by {
        forall i, j | 0 <= i < j < |tail|
          ensures Rank(tail[i]) < Rank(tail[j])
        {
          assert tail[i] == t[i + 1] && tail[j] == t[j + 1];
        }
      }
      if Rank(t[0]) == k {
        assert From(tail, k + 1) by {
          forall i | 0 <= i < |tail|
            ensures k + 1 <= Rank(tail[i])
          {
            assert tail[i] == t[i + 1];
          }
        }
        NoneBefore(tail, k);
      } else {
        OrderedOccursAtMostOnce(tail, k);
      }
    }
  }

  /**
    No action is invoked twice in a run: one generation request, one question
    to the operator (an edited message is never re-confirmed), at most one
    commit.
   */
  lemma EachActionAtMostOnce(cmd: CommandLine, env: Config.EnvVars, w: World, a: Action)
    ensures Occurrences(Run(cmd, env, w).trace, Rank(a)) <= 1
  {
    AscendingIsOrdered(Run(cmd, env, w).trace, 0);
    OrderedOccursAtMostOnce(Run(cmd, env, w).trace, Rank(a));
  }

  /** Any two actions of a run occur in pipeline order. */
  lemma ActionsInPipelineOrder(cmd: CommandLine, env: Config.EnvVars, w: World)
    ensures InPipelineOrder(Run(cmd, env, w).trace)
  {
    AscendingIsOrdered(Run(cmd, env, w).trace, 0);
  }

  /** A malformed command line aborts before anything is invoked. */
  lemma MalformedInvokesNothing(env: Config.EnvVars, w: World)
    ensures Run(Malformed, env, w) == RunResult(Err(Fatal(BadArguments)), [])
  {
  }

  /** `-h` shows usage and ends successfully before any subprocess or request. */
  lemma HelpInvokesNothing(flags: Config.Flags, env: Config.EnvVars, w: World)
    requires flags.help
    ensures Run(Parsed(flags), env, w) == RunResult(Ok(UsageShown), [])
    ensures ExitCode(Run(Parsed(flags), env, w).outcome) == 0
  {
  }

  /** A failed `which git` is an error, and `git status` never runs. */
  lemma ToolMissingStopsBeforeStatus(flags: Config.Flags, env: Config.EnvVars, w: World)
    requires !flags.help && w.whichGit == Failed
    ensures Run(Parsed(flags), env, w) == RunResult(Err(GitMissing), [LocateGit])
    ensures Diagnostic(Run(Parsed(flags), env, w).outcome.failure) == "git is not installed"
    ensures ExitCode(Run(Parsed(flags), env, w).outcome) == 1
  {
  }

  /** A failed `git status` is an error, and the diff is never read. */
  lemma NoRepositoryStopsBeforeDiff(flags: Config.Flags, env: Config.EnvVars, w: World)
    requires !flags.help && w.whichGit == Succeeded && w.gitStatus == Failed
    ensures Run(Parsed(flags), env, w) == RunResult(Err(NoRepository), [LocateGit, QueryStatus])
    ensures Diagnostic(Run(Parsed(flags), env, w).outcome.failure) == "no git repository found"
    ensures ExitCode(Run(Parsed(flags), env, w).outcome) == 1
  {
  }

  /** An empty staging area ends the run successfully; nothing is generated or committed. */
  lemma EmptyStagingStops(flags: Config.Flags, env: Config.EnvVars, w: World)
    requires !flags.help && w.whichGit == Succeeded && w.gitStatus == Succeeded
    requires w.stagedDiff == Captured("")
    ensures Run(Parsed(flags), env, w) == RunResult(Ok(StagingEmpty), [LocateGit, QueryStatus, ReadStagedDiff])
    ensures forall a :: a in Run(Parsed(flags), env, w).trace ==> !a.Generate? && !a.CommitWith?
  {
  }

  /** The checks pass and the staged diff is non-empty, so a generation request is made. */
  ghost predicate ReachesGeneration(flags: Config.Flags, w: World) {
    && !flags.help
    && w.whichGit == Succeeded
    && w.gitStatus == Succeeded
    && w.stagedDiff.Captured? && |w.stagedDiff.text| > 0
  }

  /** A run that stops before the generation request invokes only the checks and the diff. */
  lemma EarlyExitNeverGenerates(cmd: CommandLine, env: Config.EnvVars, w: World)
    requires !(cmd.Parsed? && ReachesGeneration(cmd.flags, w))
    ensures forall a :: a in Run(cmd, env, w).trace ==> Rank(a) < Rank(Generate("", ""))
  {
    var r := Run(cmd, env, w);
    if cmd.Malformed? || cmd.flags.help {
      assert r.trace == [];
    } else if w.whichGit != Succeeded {
      assert r.trace == [LocateGit];
    } else if w.gitStatus != Succeeded {
      assert r.trace == [LocateGit, QueryStatus];
    } else {
      assert r.trace == [LocateGit, QueryStatus, ReadStagedDiff];
    }
  }

  /** An action of `Then(a, rest)` other than `a` is an action of `rest`. */
  lemma InThenRest(a: Action, rest: RunResult, b: Action)
    requires b in Then(a, rest).trace && b != a
    ensures b in rest.trace
  {
    assert Then(a, rest).trace == [a] + rest.trace;
  }

  /** A trace ascending from position `k` whose first action is at `k` holds no other action at `k`. */
  lemma OnlyFirstAtItsPosition(t: seq<Action>, k: nat, b: Action)
    requires Ascending(t, k) && |t| > 0 && Rank(t[0]) == k
    requires b in t && Rank(b) == k
    ensures b == t[0]
  {
    AscendingExcludes(t[1..], k + 1, b);
    assert t == [t[0]] + t[1..];
  }

  /** The request made after the diff is read carries the model and the non-empty diff. */
  lemma DiffStageRequest(model: string, w: World, m: string, p: string)
    requires Generate(m, p) in ReadDiff(model, w).trace
    ensures w.stagedDiff.Captured? && |w.stagedDiff.text| > 0
    ensures m == model && p == Prompt.Build(w.stagedDiff.text)
  {
    if w.stagedDiff.Captured? && |w.stagedDiff.text| > 0 {
      var generation := GenerateMessage(model, w.stagedDiff.text, w);
      assert ReadDiff(model, w) == Then(ReadStagedDiff, generation);
      InThenRest(ReadStagedDiff, generation, Generate(m, p));
      assert generation.trace[0] == Generate(model, Prompt.Build(w.stagedDiff.text));
      OnlyFirstAtItsPosition(generation.trace, Rank(Generate("", "")), Generate(m, p));
    }
  }

  lemma RepositoryStageRequest(model: string, w: World, m: string, p: string)
    requires Generate(m, p) in CheckRepository(model, w).trace
    ensures w.stagedDiff.Captured? && |w.stagedDiff.text| > 0
    ensures m == model && p == Prompt.Build(w.stagedDiff.text)
  {
    if w.gitStatus == Succeeded {
      assert CheckRepository(model, w) == Then(QueryStatus, ReadDiff(model, w));
      InThenRest(QueryStatus, ReadDiff(model, w), Generate(m, p));
      DiffStageRequest(model, w, m, p);
    }
  }

  lemma ToolStageRequest(model: string, w: World, m: string, p: string)
    requires Generate(m, p) in CheckTool(model, w).trace
    ensures w.stagedDiff.Captured? && |w.stagedDiff.text| > 0
    ensures m == model && p == Prompt.Build(w.stagedDiff.text)
  {
    if w.whichGit == Succeeded {
      assert CheckTool(model, w) == Then(LocateGit, CheckRepository(model, w));
      InThenRest(LocateGit, CheckRepository(model, w), Generate(m, p));
      RepositoryStageRequest(model, w, m, p);
    }
  }

  /**
    The generation request, if made at all, carries the resolved model and
    the prompt built from a non-empty staged diff.
   */
  lemma GenerationCarriesPrompt(cmd: CommandLine, env: Config.EnvVars, w: World, model: string, prompt: string)
    requires Generate(model, prompt) in Run(cmd, env, w).trace
    ensures cmd.Parsed? && model == Config.Resolve(cmd.flags, env).model
    ensures w.stagedDiff.Captured? && |w.stagedDiff.text| > 0
    ensures prompt == Prompt.Build(w.stagedDiff.text)
    ensures Prompt.DiffOf(prompt) == Some(w.stagedDiff.text)
  {
    if cmd.Parsed? && !cmd.flags.help {
      ToolStageRequest(Config.Resolve(cmd.flags, env).model, w, model, prompt);
      Prompt.DiffOfBuild(w.stagedDiff.text);
    }
  }

  /** `message` is what the operator approved: the generated text (c) or the edited text (e). */
  ghost predicate Approved(message: string, w: World) {
    && w.generated.Some? && w.choiceLine.Some?
    && var d := Choice.Decide(Choice.StripTerminator(w.choiceLine.value));
      || (d == Choice.Commit && message == w.generated.value)
      || (d == Choice.Edit && w.edited == Some(message))
  }

  /** A commit after the operator's answer follows c (the message as it is) or e (the edited text). */
  lemma ReviewStageCommits(g: string, w: World, message: string)
    requires CommitWith(message) in Review(g, w).trace
    ensures w.choiceLine.Some?
    ensures var d := Choice.Decide(Choice.StripTerminator(w.choiceLine.value));
      (d == Choice.Commit && message == g) || (d == Choice.Edit && w.edited == Some(message))
  {
    if w.choiceLine.Some? {
      var d := Choice.Decide(Choice.StripTerminator(w.choiceLine.value));
      assert Review(g, w) == Then(ReadChoice, Respond(g, d, w));
      InThenRest(ReadChoice, Respond(g, d, w), CommitWith(message));
      RespondCommitsOnlyAcceptOrEdit(g, d, w, message);
    }
  }

  lemma GenerationStageCommits(model: string, diff: string, w: World, message: string)
    requires CommitWith(message) in GenerateMessage(model, diff, w).trace
    ensures Approved(message, w)
  {
    if w.generated.Some? {
      assert GenerateMessage(model, diff, w) == Then(Generate(model, Prompt.Build(diff)), Review(w.generated.value, w));
      InThenRest(Generate(model, Prompt.Build(diff)), Review(w.generated.value, w), CommitWith(message));
      ReviewStageCommits(w.generated.value, w, message);
    }
  }

  lemma DiffStageCommits(model: string, w: World, message: string)
    requires CommitWith(message) in ReadDiff(model, w).trace
    ensures Approved(message, w)
  {
    if w.stagedDiff.Captured? && |w.stagedDiff.text| > 0 {
      assert ReadDiff(model, w) == Then(ReadStagedDiff, GenerateMessage(model, w.stagedDiff.text, w));
      InThenRest(ReadStagedDiff, GenerateMessage(model, w.stagedDiff.text, w), CommitWith(message));
      GenerationStageCommits(model, w.stagedDiff.text, w, message);
    }
  }

  lemma RepositoryStageCommits(model: string, w: World, message: string)
    requires CommitWith(message) in CheckRepository(model, w).trace
    ensures Approved(message, w)
  {
    if w.gitStatus == Succeeded {
      assert CheckRepository(model, w) == Then(QueryStatus, ReadDiff(model, w));
      InThenRest(QueryStatus, ReadDiff(model, w), CommitWith(message));
      DiffStageCommits(model, w, message);
    }
  }

  lemma ToolStageCommits(model: string, w: World, message: string)
    requires CommitWith(message) in CheckTool(model, w).trace
    ensures Approved(message, w)
  {
    if w.whichGit == Succeeded {
      assert CheckTool(model, w) == Then(LocateGit, CheckRepository(model, w));
      InThenRest(LocateGit, CheckRepository(model, w), CommitWith(message));
      RepositoryStageCommits(model, w, message);
    }
  }

  /** After the answer, a commit carries the generated message (c) or the edited text (e). */
  lemma RespondCommitsOnlyAcceptOrEdit(g: string, d: Choice.Decision, w: World, message: string)
    requires CommitWith(message) in Respond(g, d, w).trace
    ensures (d == Choice.Commit && message == g) || (d == Choice.Edit && w.edited == Some(message))
  {
    if d == Choice.Edit {
      assert w.edited.Some? ==> Respond(g, d, w).trace == [EditMessage(g), CommitWith(w.edited.value)];
    }
  }

  /**
    A commit happens only after the operator chose commit or edit: with the
    generated message unchanged, or with exactly the edited text.
   */
  lemma CommitOnlyAfterAcceptOrEdit(cmd: CommandLine, env: Config.EnvVars, w: World, message: string)
    requires CommitWith(message) in Run(cmd, env, w).trace
    ensures w.generated.Some? && w.choiceLine.Some?
    ensures var d := Choice.Decide(Choice.StripTerminator(w.choiceLine.value));
      || (d == Choice.Commit && message == w.generated.value)
      || (d == Choice.Edit && w.edited == Some(message))
  {
    if cmd.Parsed? && !cmd.flags.help {
      ToolStageCommits(Config.Resolve(cmd.flags, env).model, w, message);
    }
  }

  /** Discard and unrecognised answers never reach the commit. */
  lemma DiscardAndInvalidNeverCommit(cmd: CommandLine, env: Config.EnvVars, w: World)
    requires w.choiceLine.Some?
    requires Choice.Decide(Choice.StripTerminator(w.choiceLine.value)) in {Choice.Discard, Choice.Invalid}
    ensures forall a :: a in Run(cmd, env, w).trace ==> !a.CommitWith? && !a.EditMessage?
  {
    if cmd.Parsed? && ReachesReview(cmd.flags, w) {
      if Choice.Decide(Choice.StripTerminator(w.choiceLine.value)) == Choice.Discard {
        DiscardEndsSuccessfully(cmd.flags, env, w);
      } else {
        InvalidAnswerFails(cmd.flags, env, w);
      }
      NothingAfterReview(Run(cmd, env, w).trace);
    } else {
      EarlyExitNeverEdits(cmd, env, w);
    }
  }

  /** The stages up to the operator's answer, all succeeding. */
  ghost predicate ReachesReview(flags: Config.Flags, w: World) {
    && ReachesGeneration(flags, w)
    && w.generated.Some?
    && w.choiceLine.Some?
  }

  /** The actions every run that reaches the operator's answer starts with. */
  function ReviewPrefix(flags: Config.Flags, env: Config.EnvVars, w: World): seq<Action>
    requires w.stagedDiff.Captured?
  {
    [LocateGit, QueryStatus, ReadStagedDiff,
     Generate(Config.Resolve(flags, env).model, Prompt.Build(w.stagedDiff.text)),
     ReadChoice]
  }

  /** A run whose checks pass and whose diff is non-empty is the three checks, then the generation stage. */
  lemma RunThroughChecks(flags: Config.Flags, env: Config.EnvVars, w: World)
    requires ReachesGeneration(flags, w)
    ensures Run(Parsed(flags), env, w) ==
      Then(LocateGit, Then(QueryStatus, Then(ReadStagedDiff,
        GenerateMessage(Config.Resolve(flags, env).model, w.stagedDiff.text, w))))
  {
    var model := Config.Resolve(flags, env).model;
    var staged := ReadDiff(model, w);
    assert staged == Then(ReadStagedDiff, GenerateMessage(model, w.stagedDiff.text, w));
    var status := CheckRepository(model, w);
    assert status == Then(QueryStatus, staged);
    assert CheckTool(model, w) == Then(LocateGit, status);
  }

  /** With a response and an answer, the generation stage is the request, the question, then the response to the answer. */
  lemma GenerationThroughReview(model: string, diff: string, w: World)
    requires w.generated.Some? && w.choiceLine.Some?
    ensures var rest := Respond(w.generated.value, Choice.Decide(Choice.StripTerminator(w.choiceLine.value)), w);
      GenerateMessage(model, diff, w) == Then(Generate(model, Prompt.Build(diff)), Then(ReadChoice, rest))
  {
    var g := w.generated.value;
    var rest := Respond(g, Choice.Decide(Choice.StripTerminator(w.choiceLine.value)), w);
    assert Review(g, w) == Then(ReadChoice, rest);
  }

  /** The five actions of the common prefix, in front of any continuation. */
  lemma ReviewPrefixThen(flags: Config.Flags, env: Config.EnvVars, w: World, rest: RunResult)
    requires w.stagedDiff.Captured?
    ensures var request := Generate(Config.Resolve(flags, env).model, Prompt.Build(w.stagedDiff.text));
      Then(LocateGit, Then(QueryStatus, Then(ReadStagedDiff, Then(request, Then(ReadChoice, rest))))) ==
        RunResult(rest.outcome, ReviewPrefix(flags, env, w) + rest.trace)
  {
    var request := Generate(Config.Resolve(flags, env).model, Prompt.Build(w.stagedDiff.text));
    assert [LocateGit] + ([QueryStatus] + ([ReadStagedDiff] + ([request] + ([ReadChoice] + rest.trace)))) ==
      ReviewPrefix(flags, env, w) + rest.trace;
  }

  /** A run that reaches the operator's answer is the common prefix, then the response to that answer. */
  lemma RunThroughReview(flags: Config.Flags, env: Config.EnvVars, w: World)
    requires ReachesReview(flags, w)
    ensures var rest := Respond(w.generated.value, Choice.Decide(Choice.StripTerminator(w.choiceLine.value)), w);
      Run(Parsed(flags), env, w) == RunResult(rest.outcome, ReviewPrefix(flags, env, w) + rest.trace)
  {
    var model := Config.Resolve(flags, env).model;
    var rest := Respond(w.generated.value, Choice.Decide(Choice.StripTerminator(w.choiceLine.value)), w);
    RunThroughChecks(flags, env, w);
    GenerationThroughReview(model, w.stagedDiff.text, w);
    ReviewPrefixThen(flags, env, w, rest);
  }

  /** A run trace that ends no later than the operator's answer neither edits nor commits. */
  lemma NothingAfterReview(t: seq<Action>)
    requires Ascending(t, 0)
    requires |t| > 0 ==> Rank(t[|t| - 1]) <= Rank(ReadChoice)
    ensures forall a :: a in t ==> !a.CommitWith? && !a.EditMessage?
  {
    if |t| > 0 {
      AscendingUpToLast(t, 0);
    }
  }

  /** A run that stops before the operator's answer neither edits nor commits. */
  lemma EarlyExitNeverEdits(cmd: CommandLine, env: Config.EnvVars, w: World)
    requires !(cmd.Parsed? && ReachesReview(cmd.flags, w))
    ensures forall a :: a in Run(cmd, env, w).trace ==> !a.CommitWith? && !a.EditMessage?
  {
    var t := Run(cmd, env, w).trace;
    if cmd.Parsed? && ReachesGeneration(cmd.flags, w) {
      var model := Config.Resolve(cmd.flags, env).model;
      var diff := w.stagedDiff.text;
      var request := Generate(model, Prompt.Build(diff));
      RunThroughChecks(cmd.flags, env, w);
      if w.generated.None? {
        assert GenerateMessage(model, diff, w) == Then(request, Stop(Err(Fatal(GenerationFailed))));
        assert t == [LocateGit, QueryStatus, ReadStagedDiff, request];
        NothingAfterReview(Run(cmd, env, w).trace);
      } else {
        assert Review(w.generated.value, w) == Then(ReadChoice, Stop(Err(Fatal(InputUnreadable))));
        assert GenerateMessage(model, diff, w) == Then(request, Review(w.generated.value, w));
        assert t == [LocateGit, QueryStatus, ReadStagedDiff, request, ReadChoice];
        NothingAfterReview(Run(cmd, env, w).trace);
      }
    } else if cmd.Malformed? || cmd.flags.help {
      assert t == [];
      NothingAfterReview(Run(cmd, env, w).trace);
    } else if w.whichGit != Succeeded {
      assert t == [LocateGit];
      NothingAfterReview(Run(cmd, env, w).trace);
    } else if w.gitStatus != Succeeded {
      assert t == [LocateGit, QueryStatus];
      NothingAfterReview(Run(cmd, env, w).trace);
    } else {
      assert t == [LocateGit, QueryStatus, ReadStagedDiff];
      NothingAfterReview(Run(cmd, env, w).trace);
    }
  }

  /** Answering c or C commits the generated message as it is. */
  lemma AcceptCommitsGenerated(flags: Config.Flags, env: Config.EnvVars, w: World)
    requires ReachesReview(flags, w)
    requires Choice.Decide(Choice.StripTerminator(w.choiceLine.value)) == Choice.Commit
    ensures Run(Parsed(flags), env, w).trace == ReviewPrefix(flags, env, w) + [CommitWith(w.generated.value)]
    ensures Run(Parsed(flags), env, w).outcome ==
      if w.commitOutput.Some? then Ok(Committed(w.commitOutput.value)) else Err(Fatal(CommitFailed))
  {
    RunThroughReview(flags, env, w);
  }

  /** Answering e or E commits exactly the edited text, without asking again. */
  lemma EditCommitsEdited(flags: Config.Flags, env: Config.EnvVars, w: World)
    requires ReachesReview(flags, w) && w.edited.Some?
    requires Choice.Decide(Choice.StripTerminator(w.choiceLine.value)) == Choice.Edit
    ensures Run(Parsed(flags), env, w).trace ==
      ReviewPrefix(flags, env, w) + [EditMessage(w.generated.value), CommitWith(w.edited.value)]
    ensures Run(Parsed(flags), env, w).outcome ==
      if w.commitOutput.Some? then Ok(Committed(w.commitOutput.value)) else Err(Fatal(CommitFailed))
  {
    RunThroughReview(flags, env, w);
    var g := w.generated.value;
    var commit := CommitMessage(w.edited.value, w);
    assert commit.trace == [CommitWith(w.edited.value)];
    assert EditThenCommit(g, w) == Then(EditMessage(g), commit);
    assert Respond(g, Choice.Edit, w) == EditThenCommit(g, w);
  }

  /** Answering d or D ends successfully with nothing committed. */
  lemma DiscardEndsSuccessfully(flags: Config.Flags, env: Config.EnvVars, w: World)
    requires ReachesReview(flags, w)
    requires Choice.Decide(Choice.StripTerminator(w.choiceLine.value)) == Choice.Discard
    ensures Run(Parsed(flags), env, w) == RunResult(Ok(Discarded), ReviewPrefix(flags, env, w))
    ensures ExitCode(Run(Parsed(flags), env, w).outcome) == 0
  {
    RunThroughReview(flags, env, w);
  }

  /** Any other answer is the error "Invalid option selected". */
  lemma InvalidAnswerFails(flags: Config.Flags, env: Config.EnvVars, w: World)
    requires ReachesReview(flags, w)
    requires Choice.Decide(Choice.StripTerminator(w.choiceLine.value)) == Choice.Invalid
    ensures Run(Parsed(flags), env, w) == RunResult(Err(InvalidOption), ReviewPrefix(flags, env, w))
    ensures Diagnostic(Run(Parsed(flags), env, w).outcome.failure) == "Invalid option selected"
    ensures ExitCode(Run(Parsed(flags), env, w).outcome) == 1
  {
    RunThroughReview(flags, env, w);
  }

  /**
    A run ends in `Committed` exactly when its last action is a commit whose
    output could be read.
   */
  lemma CommittedMeansCommitLast(cmd: CommandLine, env: Config.EnvVars, w: World)
    ensures var r := Run(cmd, env, w);
      r.outcome.Ok? && r.outcome.completion.Committed? <==>
        |r.trace| > 0 && r.trace[|r.trace| - 1].CommitWith? && w.commitOutput.Some?
  {
    if cmd.Parsed? && !cmd.flags.help {
      ToolStageEnds(Config.Resolve(cmd.flags, env).model, w);
    }
  }

  /** The world's answer makes step `a` panic. */
  ghost predicate FailsAt(a: Action, w: World) {
    match a
    case LocateGit => w.whichGit == Unspawnable
    case QueryStatus => w.gitStatus == Unspawnable
    case ReadStagedDiff => w.stagedDiff == Unreadable
    case Generate(_, _) => w.generated.None?
    case ReadChoice => w.choiceLine.None?
    case EditMessage(_) => w.edited.None?
    case CommitWith(_) => w.commitOutput.None?
  }

  /** The panic a failing step `a` raises; the three git subprocess steps share one. */
  function FailurePanic(a: Action): Panic {
    match a
    case LocateGit | QueryStatus | ReadStagedDiff => SubprocessFailed
    case Generate(_, _) => GenerationFailed
    case ReadChoice => InputUnreadable
    case EditMessage(_) => EditFailed
    case CommitWith(_) => CommitFailed
  }

  /** Every action of `t` except the last one got a usable answer from the world. */
  ghost predicate SucceedsBeforeLast(t: seq<Action>, w: World) {
    |t| <= 1 || (!FailsAt(t[0], w) && SucceedsBeforeLast(t[1..], w))
  }

  /** The same fact, position by position. */
  lemma {:induction false} SucceedsBeforeLastAt(t: seq<Action>, w: World)
    requires SucceedsBeforeLast(t, w)
    ensures forall i :: 0 <= i < |t| - 1 ==> !FailsAt(t[i], w)
  {
    if |t| > 1 {
      var tail := t[1..];
      SucceedsBeforeLastAt(tail, w);
      forall i | 1 <= i < |t| - 1
        ensures !FailsAt(t[i], w)
      {
        assert t[i] == tail[i - 1];
      }
    }
  }

  /**
    `r` invokes at least one step, every step but the last succeeds, and `r`
    panics exactly when its last step fails, with that step's panic.
   */
  ghost predicate EndsAtFailingStep(r: RunResult, w: World) {
    && |r.trace| > 0
    && SucceedsBeforeLast(r.trace, w)
    && var last := r.trace[|r.trace| - 1];
      && (r.outcome.Err? && r.outcome.failure.Fatal? <==> FailsAt(last, w))
      && (r.outcome.Err? && r.outcome.failure.Fatal? ==> r.outcome.failure.panic == FailurePanic(last))
  }

  /** `r` ends committed exactly when its last action is a commit whose output could be read. */
  ghost predicate CommitsLast(r: RunResult, w: World) {
    r.outcome.Ok? && r.outcome.completion.Committed? <==>
      |r.trace| > 0 && r.trace[|r.trace| - 1].CommitWith? && w.commitOutput.Some?
  }

  /** A step that succeeds, in front of a continuation, keeps how the continuation ends. */
  lemma ThenKeepsEnding(a: Action, rest: RunResult, w: World)
    requires !FailsAt(a, w) && EndsAtFailingStep(rest, w)
    ensures EndsAtFailingStep(Then(a, rest), w)
    ensures CommitsLast(rest, w) ==> CommitsLast(Then(a, rest), w)
  {
    assert Then(a, rest).trace[1..] == rest.trace;
  }

  lemma CommitStageEnds(message: string, w: World)
    ensures EndsAtFailingStep(CommitMessage(message, w), w)
    ensures CommitsLast(CommitMessage(message, w), w)
  {
  }

  lemma EditStageEnds(draft: string, w: World)
    ensures EndsAtFailingStep(EditThenCommit(draft, w), w)
    ensures CommitsLast(EditThenCommit(draft, w), w)
  {
    if w.edited.Some? {
      CommitStageEnds(w.edited.value, w);
      ThenKeepsEnding(EditMessage(draft), CommitMessage(w.edited.value, w), w);
    }
  }

  lemma ReviewStageEnds(message: string, w: World)
    ensures EndsAtFailingStep(Review(message, w), w)
    ensures CommitsLast(Review(message, w), w)
  {
    if w.choiceLine.Some? {
      match Choice.Decide(Choice.StripTerminator(w.choiceLine.value))
      case Commit =>
        CommitStageEnds(message, w);
        ThenKeepsEnding(ReadChoice, CommitMessage(message, w), w);
      case Edit =>
        EditStageEnds(message, w);
        ThenKeepsEnding(ReadChoice, EditThenCommit(message, w), w);
      case Discard =>
      case Invalid =>
    }
  }

  lemma GenerationStageEnds(model: string, diff: string, w: World)
    ensures EndsAtFailingStep(GenerateMessage(model, diff, w), w)
    ensures CommitsLast(GenerateMessage(model, diff, w), w)
  {
    var request := Generate(model, Prompt.Build(diff));
    if w.generated.Some? {
      assert GenerateMessage(model, diff, w) == Then(request, Review(w.generated.value, w));
      ReviewStageEnds(w.generated.value, w);
      ThenKeepsEnding(request, Review(w.generated.value, w), w);
    } else {
      assert GenerateMessage(model, diff, w) == Then(request, Stop(Err(Fatal(GenerationFailed))));
    }
  }

  lemma DiffStageEnds(model: string, w: World)
    ensures EndsAtFailingStep(ReadDiff(model, w), w)
    ensures CommitsLast(ReadDiff(model, w), w)
  {
    if w.stagedDiff.Captured? && |w.stagedDiff.text| > 0 {
      assert ReadDiff(model, w) == Then(ReadStagedDiff, GenerateMessage(model, w.stagedDiff.text, w));
      GenerationStageEnds(model, w.stagedDiff.text, w);
      ThenKeepsEnding(ReadStagedDiff, GenerateMessage(model, w.stagedDiff.text, w), w);
    } else if w.stagedDiff.Captured? {
      assert ReadDiff(model, w) == Then(ReadStagedDiff, Stop(Ok(StagingEmpty)));
    } else {
      assert ReadDiff(model, w) == Then(ReadStagedDiff, Stop(Err(Fatal(SubprocessFailed))));
    }
  }

  lemma RepositoryStageEnds(model: string, w: World)
    ensures EndsAtFailingStep(CheckRepository(model, w), w)
    ensures CommitsLast(CheckRepository(model, w), w)
  {
    if w.gitStatus == Succeeded {
      DiffStageEnds(model, w);
      ThenKeepsEnding(QueryStatus, ReadDiff(model, w), w);
    }
  }

  lemma ToolStageEnds(model: string, w: World)
    ensures EndsAtFailingStep(CheckTool(model, w), w)
    ensures CommitsLast(CheckTool(model, w), w)
  {
    if w.whichGit == Succeeded {
      RepositoryStageEnds(model, w);
      ThenKeepsEnding(LocateGit, CheckRepository(model, w), w);
    }
  }

  /**
    A panic exits with status 101. A run invokes no step exactly when the
    command line is malformed or asks for help, and then it panics exactly
    when the command line is malformed. Otherwise it panics exactly when the
    last step it invoked failed, and with that step's panic.
   */
  lemma PanicStopsAtFailingStep(cmd: CommandLine, env: Config.EnvVars, w: World)
    ensures var r := Run(cmd, env, w);
      var fatal := r.outcome.Err? && r.outcome.failure.Fatal?;
      && (fatal ==> ExitCode(r.outcome) == 101)
      && (|r.trace| == 0 <==> cmd.Malformed? || cmd.flags.help)
      && (|r.trace| == 0 ==> (fatal <==> cmd.Malformed?))
      && (|r.trace| == 0 && fatal ==> r.outcome.failure.panic == BadArguments)
      && (|r.trace| > 0 ==>
            var last := r.trace[|r.trace| - 1];
            && (fatal <==> FailsAt(last, w))
            && (fatal ==> r.outcome.failure.panic == FailurePanic(last)))
  {
    if cmd.Parsed? && !cmd.flags.help {
      ToolStageEnds(Config.Resolve(cmd.flags, env).model, w);
    }
  }

  /** In a result that ends at its failing step, any failing step is the last one, and the result is its panic. */
  lemma FailureEndsRun(r: RunResult, w: World, a: Action)
    requires EndsAtFailingStep(r, w) && a in r.trace && FailsAt(a, w)
    ensures r.trace[|r.trace| - 1] == a && r.outcome == Err(Fatal(FailurePanic(a)))
  {
    SucceedsBeforeLastAt(r.trace, w);
    var i :| 0 <= i < |r.trace| && r.trace[i] == a;
  }

  /**
    A step the run reaches whose answer is a failure panics: it is the last
    step invoked, and the run ends in that step's panic.
   */
  lemma FailingStepPanics(cmd: CommandLine, env: Config.EnvVars, w: World, a: Action)
    requires a in Run(cmd, env, w).trace && FailsAt(a, w)
    ensures var r := Run(cmd, env, w);
      r.trace[|r.trace| - 1] == a && r.outcome == Err(Fatal(FailurePanic(a)))
  {
    if cmd.Parsed? && !cmd.flags.help {
      var model := Config.Resolve(cmd.flags, env).model;
      ToolStageEnds(model, w);
      assert Run(cmd, env, w) == CheckTool(model, w);
      FailureEndsRun(Run(cmd, env, w), w, a);
    }
  }

  /**
    The endpoint (from `-s`, `GITAI_ENDPOINT` or the default) and the verbosity
    flag do not change what a run does: the request goes to the client's own
    default address, and verbose output is diagnostics only.
   */
  lemma RunIgnoresEndpointAndVerbosity(f1: Config.Flags, e1: Config.EnvVars, f2: Config.Flags, e2: Config.EnvVars, w: World)
    requires f1.help == f2.help && f1.model == f2.model && e1.gitaiModel == e2.gitaiModel
    ensures Run(Parsed(f1), e1, w) == Run(Parsed(f2), e2, w)
  {
  }
}
