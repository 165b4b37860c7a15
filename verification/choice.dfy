/**
  The operator's decision after seeing the generated message: one line read
  from standard input, with one line terminator removed, matched exactly
  against the letters c, e and d in either case.
 */
module Choice {
  import opened Base

  const CrLf: string := "\r\n"
  const Lf: string := "\n"

  /**
    Removes one trailing line terminator: `"\r\n"` if the line ends with it,
    otherwise `"\n"` if the line ends with that, otherwise nothing.

    The result followed by the removed part is the line again, and the removed
    part is the longest terminator the line ends with.
   */
  function StripTerminator(line: string): (r: string)
    ensures |r| <= |line| && line == r + line[|r|..]
    ensures line[|r|..] == CrLf || line[|r|..] == Lf || line[|r|..] == ""
    ensures line[|r|..] == "" <==> !EndsWith(line, Lf)
    ensures line[|r|..] == Lf ==> !EndsWith(line, CrLf)
  {
    if EndsWith(line, CrLf) then line[..|line| - |CrLf|]
    else if EndsWith(line, Lf) then line[..|line| - |Lf|]
    else line
  }

  /** A line ended by `"\r\n"` gives back exactly its content. */
  lemma StripCrLf(content: string)
    ensures StripTerminator(content + CrLf) == content
  {
    assert (content + CrLf)[..|content|] == content;
  }

  /** A line ended by a lone `"\n"` gives back its content, unless that content ends in `'\r'`. */
  lemma StripLf(content: string)
    requires !EndsWith(content, "\r")
    ensures StripTerminator(content + Lf) == content
  {
    var line := content + Lf;
    assert line[..|content|] == content;
    assert !EndsWith(line, CrLf) by {
      if |content| >= 1 {
        assert line[|line| - 2..] == [content[|content| - 1], '\n'];
        assert content[|content| - 1..] == [content[|content| - 1]];
      }
    }
  }

  /** A line without terminator is left as it is. */
  lemma StripNoTerminator(line: string)
    requires !EndsWith(line, Lf)
    ensures StripTerminator(line) == line
  {
  }

  /** Only one terminator goes: two line breaks leave one behind. */
  lemma StripRemovesOnlyOne()
    ensures StripTerminator("c\n\n") == "c\n"
    ensures StripTerminator("c\r\n") == "c"
    ensures StripTerminator("c\n") == "c"
    ensures StripTerminator("c") == "c"
  {
    StripCrLf("c");
    StripLf("c");
    StripLf("c\n");
  }

  /** What the operator asked for. */
  datatype Decision = Commit | Edit | Discard | Invalid

  /** ASCII lower-casing of one character; other characters are unchanged. */
  function Lower(ch: char): char {
    if 'A' <= ch <= 'Z' then (ch as int - 'A' as int + 'a' as int) as char else ch
  }

  /**
    Exact match of the whole normalised line against the six accepted
    spellings; everything else, the empty line included, is invalid.

    Stated independently of the six literals: a decision is recognised exactly
    when the line is one character whose lower-case form is its key letter.
   */
  function Decide(choice: string): (d: Decision)
    ensures d == Commit <==> |choice| == 1 && Lower(choice[0]) == 'c'
    ensures d == Edit <==> |choice| == 1 && Lower(choice[0]) == 'e'
    ensures d == Discard <==> |choice| == 1 && Lower(choice[0]) == 'd'
  {
    // Equality with a one-character literal is a length check and a character check.
    if |choice| != 1 then Invalid
    else match choice[0]
      case 'c' | 'C' => Commit
      case 'e' | 'E' => Edit
      case 'd' | 'D' => Discard
      case _ => Invalid
  }

  /** The decision of a one-letter answer does not depend on its case. */
  lemma DecideIgnoresCase(ch: char)
    ensures Decide([ch]) == Decide([Lower(ch)])
  {
  }

  /** The answers the operator is told about, with the terminators a terminal sends. */
  lemma DecideAcceptedLines()
    ensures Decide(StripTerminator("c\n")) == Commit
    ensures Decide(StripTerminator("C\n")) == Commit
    ensures Decide(StripTerminator("c\r\n")) == Commit
    ensures Decide(StripTerminator("E\n")) == Edit
    ensures Decide(StripTerminator("d\r\n")) == Discard
  {
    StripLf("c");
    StripLf("C");
    StripCrLf("c");
    StripLf("E");
    StripCrLf("d");
  }

  /** Anything but a single key letter is refused, even a doubled line break. */
  lemma DecideRejectedLines()
    ensures Decide(StripTerminator("x\n")) == Invalid
    ensures Decide(StripTerminator("\n")) == Invalid
    ensures Decide(StripTerminator("cc\n")) == Invalid
    ensures Decide(StripTerminator("c\n\n")) == Invalid
  {
    StripLf("x");
    StripLf("");
    StripLf("cc");
    StripLf("c\n");
    assert |StripTerminator("cc\n")| == 2 && |StripTerminator("c\n\n")| == 2;
  }
}
