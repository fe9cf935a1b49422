/** The regular expressions of the scanner, kept abstract.

    The header pattern (`block\s*\(.*\)\s*"Español"...`), the block-name token
    (`[A-Z0-9]\w+\(...\)`) and the full interpret clause
    (`interpret\s*{(...)}\s*as\s*{...};`) are supplied as total functions;
    the regex engine itself is not modelled. */
module Patterns {
  import opened Wrappers
  import opened Text

  /** A match of the full-clause pattern: the whole match and its group 1. */
  datatype ClauseMatch = ClauseMatch(whole: string, expr: string)

  datatype Patterns = Patterns(
    /** `block.search(line)`, giving the matched text */
    header: string -> Option<string>,
    /** `blk_name.findall(text)`, every name token in order */
    names: string -> seq<string>,
    /** `interpret.search(text)` */
    clause: string -> Option<ClauseMatch>
  )

  /** `blk_name.search(text)`: the leftmost name token is the first one `findall` lists. */
  function FirstName(p: Patterns, text: string): (r: Option<string>)
    ensures r.Some? <==> |p.names(text)| > 0
    ensures r.Some? ==> r.value in p.names(text)
  {
    if |p.names(text)| > 0 then Some(p.names(text)[0]) else None
  }

  /** `'--&' in line`: an example query of the open block. */
  predicate IsQueryLine(line: string)
  {
    Contains(line, "--&")
  }

  /** A query line is one in which `--&` occurs at some position. */
  lemma QueryMarkerAt(line: string)
    ensures IsQueryLine(line) <==> exists k :: OccursAt(line, "--&", k)
  {
    ContainsAt(line, "--&");
  }

  /** `line.strip()[4:]`: the query with its marker and one separator removed. */
  function QueryText(line: string): (r: string)
    ensures |r| <= |line|
    ensures |Strip(line)| >= 4 ==> Strip(line)[..4] + r == Strip(line)
    ensures |Strip(line)| <= 4 ==> r == ""
  {
    var t := Strip(line);
    if |t| <= 4 then "" else t[4..]
  }

  /** The test that opens an interpret clause (`interpret` occurs in the
      line, the line is not a `--` comment, and it starts with `interpret`
      once leading whitespace is removed). */
  predicate OpensInterpret(line: string)
  {
    Contains(line, "interpret") && !StartsWith(line, "--") && StartsWith(LStrip(line), "interpret")
  }

  /** The first conjunct of the test follows from the third: a clause opens
      on exactly the lines that are not `--` comments and start with
      `interpret` after their leading whitespace. */
  lemma OpensInterpretIff(line: string)
    ensures OpensInterpret(line) <==> !StartsWith(line, "--") && StartsWith(LStrip(line), "interpret")
  {
    var t := LStrip(line);
    ContainsAt(line, "interpret");
    if StartsWith(t, "interpret") {
      assert line[|line| - |t|..][..9] == line[|line| - |t|..|line| - |t| + 9];
      assert OccursAt(line, "interpret", |line| - |t|);
    }
  }
}
