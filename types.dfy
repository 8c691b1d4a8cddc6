/** The records the application passes around (types.ts). */
module Types {
  import opened Wrappers

  /** The six scorecard indicators: five pass/fail checks and the word count. */
  datatype Scorecard = Scorecard(
    conversationalTone: bool,
    scannability: bool,
    creativeFormatting: bool,
    wordCount: int,
    packaging: bool,
    adminCheck: bool)

  /**
   * The structured reply of the evaluation service. The rating is declared
   * as one of three strings, but the reply is only cast to this shape and
   * never checked, so the model lets it be any string.
   */
  datatype EvaluationResult = EvaluationResult(
    scorecard: Scorecard,
    readinessRating: string,
    editorNotes: seq<string>,
    polishedDraft: string)

  /** The controller's state record: `null` is `None`. */
  datatype AppState = AppState(
    draft: string,
    evaluation: Option<EvaluationResult>,
    isLoading: bool,
    error: Option<string>)

  /** The three ratings the declared type admits. */
  const ReadinessRatings: set<string> := {"Ready for Review", "Needs Minor Polish", "Needs Structural Rework"}

  /** Field names of `Scorecard`, in declaration order. */
  const ScorecardFields: seq<string> :=
    ["conversationalTone", "scannability", "creativeFormatting", "wordCount", "packaging", "adminCheck"]

  /** Field names of `EvaluationResult`, in declaration order. */
  const EvaluationResultFields: seq<string> := ["scorecard", "readinessRating", "editorNotes", "polishedDraft"]
}
