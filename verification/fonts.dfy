/** The fonts recommended for learning Japanese, and the membership test the
    font picker uses to badge them. */
module RecommendedFonts {

  const RecommendedFontNames: seq<string> := [
    "Zen Maru Gothic",
    "Noto Sans JP",
    "Klee One",
    "BIZ UDMincho",
    "Shippori Mincho",
    "M PLUS 1",
    "Sawarabi Gothic",
    "Zen Old Mincho"
  ]

  /** `isRecommendedFont`: `Array.prototype.includes`, which for strings is
      exact, case-sensitive equality with some listed name. */
  function IsRecommendedFont(fontName: string): (r: bool)
    ensures r <==> exists i :: 0 <= i < |RecommendedFontNames| && RecommendedFontNames[i] == fontName
  {
    fontName in RecommendedFontNames
  }

  /** Every listed name is recommended. */
  lemma ListedFontsAreRecommended()
    ensures forall i :: 0 <= i < |RecommendedFontNames| ==> IsRecommendedFont(RecommendedFontNames[i])
  {
  }

  /** Any name outside the list is not recommended. */
  lemma UnlistedFontsAreNot(fontName: string)
    requires forall i :: 0 <= i < |RecommendedFontNames| ==> RecommendedFontNames[i] != fontName
    ensures !IsRecommendedFont(fontName)
  {
  }

  /** The match is case-sensitive: the lower-cased spelling of a listed name is not recommended. */
  lemma MatchIsCaseSensitive()
    ensures IsRecommendedFont("Noto Sans JP")
    ensures !IsRecommendedFont("noto sans jp")
  {
    forall i | 0 <= i < |RecommendedFontNames| ensures RecommendedFontNames[i] != "noto sans jp" {
      assert RecommendedFontNames[i][0] != 'n';
    }
  }

  /** The list holds eight pairwise-distinct names. */
  lemma EightDistinctNames()
    ensures |RecommendedFontNames| == 8
    ensures forall i, j :: 0 <= i < j < |RecommendedFontNames| ==> RecommendedFontNames[i] != RecommendedFontNames[j]
  {
  }
}
