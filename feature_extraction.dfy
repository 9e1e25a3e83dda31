/**
 * The feature-extraction script carries its own copy of `clean_text`, written
 * with the same calls as the trait-prediction one.
 */
module FeatureExtraction {
  import opened Strings
  import Traits = SpacyExtractTraits

  /** `clean_text` of the feature-extraction script: it agrees with the other copy on every input. */
  function CleanText(txt: string): (r: string)
    ensures r == Traits.CleanText(txt)
    ensures Traits.OnlyBlankWhitespace(txt) ==> r == Join(Traits.Words(txt), " ")
  {
    var r := Strip(Traits.SqueezeSpaces(Traits.ReplaceChar(Traits.ReplaceChar(txt, '\t', ' '), '\n', ' ')));
    assert Traits.OnlyBlankWhitespace(txt) ==> r == Join(Traits.Words(txt), " ") by {
      if Traits.OnlyBlankWhitespace(txt) {
        Traits.CleanTextIsJoinOfWords(txt);
      }
    }
    r
  }
}
