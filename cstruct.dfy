/** `parse_c_struct`: the lexical passes followed by the recursive parse. */
module CStruct {
  import opened Results
  import opened StructureField
  import opened Stripping
  import opened StructParser

  /** `code.replace('\r', '\n')`. */
  function ReplaceCR(code: string): (r: string)
    ensures |r| == |code| && '\r' !in r
  {
    seq(|code|, i requires 0 <= i < |code| => if code[i] == '\r' then '\n' else code[i])
  }

  /** The text `parse_c_struct` hands to `parse_expr`. */
  function Normalize(code: string): string
  {
    RemoveSpaces(RemoveKeywords(RemoveComments(ReplaceCR(code))))
  }

  /** `parse_c_struct`. */
  function ParseCStruct(code: string): Result<seq<Node>>
  {
    Parse(Normalize(code))
  }

  /** What the parser sees is collapsed: every whitespace run a single space. */
  lemma NormalizeCollapses(code: string)
    ensures Collapsed(Normalize(code))
  {
    RemoveSpacesCollapses(RemoveKeywords(RemoveComments(ReplaceCR(code))));
  }

  /** Without carriage returns the first pass changes nothing. */
  lemma ReplaceCRUnchanged(code: string)
    requires '\r' !in code
    ensures ReplaceCR(code) == code
  {
  }

  /** Text with no carriage return, no comment, no unused keyword and no
      space to collapse reaches the parser as it is. */
  lemma ParseCStructOfCleanText(code: string)
    requires '\r' !in code
    requires MatchesNowhere(LineComment, code) && MatchesNowhere(BlockComment, code)
    requires MatchesNowhere(UnusedKeyword, code)
    requires Collapsed(code)
    ensures Normalize(code) == code
  {
    ReplaceCRUnchanged(code);
    SubstituteUnchanged(LineComment, code);
    SubstituteUnchanged(BlockComment, code);
    SubstituteUnchanged(UnusedKeyword, code);
    CollapsedUnchanged(code);
  }
}
