/**
  Run configuration of the commit-message assistant: which generation endpoint
  and which model to use, and whether to echo diagnostics.

  Each setting has three possible sources. The command-line option (`-s`,
  `-m`) wins over the environment variable (`GITAI_ENDPOINT`, `GITAI_MODEL`),
  which wins over the built-in default.
 */
module Config {
  import opened Base

  const DefaultEndpoint: string := "http://localhost:11434"
  const DefaultModel: string := "llama3.2"

  /** What the option parser reports: `-h`, `-s ENDPOINT`, `-m MODEL`, `-v`. */
  datatype Flags = Flags(help: bool, endpoint: Option<string>, model: Option<string>, verbose: bool)

  /** The two environment variables the program reads (`None` when unset or not valid Unicode). */
  datatype EnvVars = EnvVars(gitaiEndpoint: Option<string>, gitaiModel: Option<string>)

  /** The configuration the run proceeds with. */
  datatype Settings = Settings(endpoint: string, model: string, verbose: bool)

  /** One setting: the option value if given, else the variable if set, else the default. */
  function Pick(option: Option<string>, variable: Option<string>, default: string): (r: string)
    ensures option.Some? ==> r == option.value
    ensures option.None? && variable.Some? ==> r == variable.value
    ensures option.None? && variable.None? ==> r == default
  {
    // The program first reads the variable (falling back to the default),
    // then overwrites the result when the option is present.
    var fromEnvironment := variable.GetOr(default);
    if option.Some? then option.value else fromEnvironment
  }

  /** The settings a run uses, resolved from its options and environment. */
  function Resolve(flags: Flags, env: EnvVars): (s: Settings)
    ensures flags.endpoint.Some? ==> s.endpoint == flags.endpoint.value
    ensures flags.endpoint.None? && env.gitaiEndpoint.Some? ==> s.endpoint == env.gitaiEndpoint.value
    ensures flags.endpoint.None? && env.gitaiEndpoint.None? ==> s.endpoint == DefaultEndpoint
    ensures flags.model.Some? ==> s.model == flags.model.value
    ensures flags.model.None? && env.gitaiModel.Some? ==> s.model == env.gitaiModel.value
    ensures flags.model.None? && env.gitaiModel.None? ==> s.model == DefaultModel
    ensures s.verbose <==> flags.verbose
  {
    Settings(
      Pick(flags.endpoint, env.gitaiEndpoint, DefaultEndpoint),
      Pick(flags.model, env.gitaiModel, DefaultModel),
      flags.verbose)
  }

  /** The model setting depends on nothing but `-m` and `GITAI_MODEL`. */
  lemma ModelIndependentOfOtherSources(f1: Flags, e1: EnvVars, f2: Flags, e2: EnvVars)
    requires f1.model == f2.model && e1.gitaiModel == e2.gitaiModel
    ensures Resolve(f1, e1).model == Resolve(f2, e2).model
  {
  }

  /**
    The default is used only when neither source supplies a value, or when a
    source supplies exactly the default text.
   */
  lemma DefaultOnlyWhenUnset(option: Option<string>, variable: Option<string>, default: string)
    ensures Pick(option, variable, default) == default <==>
      (option.None? && variable.None?)
      || (option.Some? && option.value == default)
      || (option.None? && variable.Some? && variable.value == default)
  {
  }
}
