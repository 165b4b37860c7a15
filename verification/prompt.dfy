/**
  Prompt assembly: the staged diff text followed by a fixed instruction block
  that asks for a one-line commit message and nothing else.
 */
module Prompt {
  import opened Base

  /**
    The instruction block, character for character: it opens with a line
    break (the raw literal starts on the line after its opening delimiter) and
    closes with three line breaks.
   */
  const Instructions: string :=
    "\nThe text above is a diff from a git commit, but it needs a commit message.\n"
    + "Write an appropriate commit message for the piece of code given above.\n"
    + "Make it a one-liner and do not output anything beside the commit message.\n"
    + "\n\n"

  /** The prompt sent for generation: the diff, then the instructions appended in place. */
  function Build(diff: string): (prompt: string)
    ensures |prompt| == |diff| + |Instructions|
    ensures StartsWith(prompt, diff)
    ensures EndsWith(prompt, Instructions)
  {
    diff + Instructions
  }

  /** Recovers the diff from a prompt, or `None` if the text is not a prompt. */
  function DiffOf(prompt: string): (diff: Option<string>)
    ensures diff.Some? <==> EndsWith(prompt, Instructions)
    ensures diff.Some? ==> |diff.value| + |Instructions| == |prompt|
  {
    if EndsWith(prompt, Instructions) then Some(prompt[..|prompt| - |Instructions|]) else None
  }

  /** Building a prompt loses nothing: the diff can be read back from it. */
  lemma DiffOfBuild(diff: string)
    ensures DiffOf(Build(diff)) == Some(diff)
  {
    assert Build(diff)[..|diff|] == diff;
  }

  /** Every text `DiffOf` accepts is exactly the prompt built from what it returns. */
  lemma BuildDiffOf(prompt: string)
    requires DiffOf(prompt).Some?
    ensures Build(DiffOf(prompt).value) == prompt
  {
    var d := prompt[..|prompt| - |Instructions|];
    assert prompt == d + prompt[|prompt| - |Instructions|..];
  }

  /** Different diffs give different prompts. */
  lemma BuildInjective(a: string, b: string)
    requires Build(a) == Build(b)
    ensures a == b
  {
    DiffOfBuild(a);
    DiffOfBuild(b);
  }
}
