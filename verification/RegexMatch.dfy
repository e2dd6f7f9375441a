/** From the text of a pattern to the answer of a match: the whole of internal/regex.h in one contract. */
module RegexMatch {
  import opened RegexLanguage
  import opened RegexPattern
  import opened RegexCompiler
  import opened RegexSearch
  import opened RegexSyntax

  /** Compiles the text of `p` and matches all of `input`: the answer is membership in the language of `p`. */
  method MatchPattern(p: Pattern, begin: bool, end: bool, input: Word) returns (matched: bool)
    requires WellFormed(p) && LoopsProductive(TreeOf(p))
    ensures matched <==> input in LangOf(TreeOf(p))
  {
    hide LangOf, TreeOf, WellFormed, Read, AnchoredText;
    ReadBack(p, begin, end);
    var regex := new GenericRegex(AnchoredText(p, begin, end));
    var search := new GenericRegexSearch(regex, TreeOf(p));
    matched := search.Match(input);
  }

  /** The same for a search that keeps the pattern's own anchors. */
  method SearchPattern(p: Pattern, begin: bool, end: bool, input: Word) returns (matched: bool)
    requires WellFormed(p) && LoopsProductive(TreeOf(p))
    ensures matched <==> Reported(LangOf(TreeOf(p)), begin, end, input)
  {
    hide LangOf, TreeOf, WellFormed, Read, AnchoredText;
    ReadBack(p, begin, end);
    var regex := new GenericRegex(AnchoredText(p, begin, end));
    var search := new GenericRegexSearch(regex, TreeOf(p));
    matched := search.Search(input);
  }
}
