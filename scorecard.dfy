/**
 * The display rules of the scorecard panel (components/Scorecard.tsx): the
 * class strings chosen for the rating badge, the five check icons and the
 * word-count badge, and the text of the length label.
 */
module ScorecardView {
  import opened Wrappers
  import opened Types
  import JsString

  const ReadyClasses := "bg-green-100 text-green-800 border-green-200"
  const MinorPolishClasses := "bg-yellow-100 text-yellow-800 border-yellow-200"
  const StructuralReworkClasses := "bg-red-100 text-red-800 border-red-200"
  const DefaultRatingClasses := "bg-gray-100 text-gray-800 border-gray-200"

  /** `getRatingColor`: one colour per declared rating, gray for anything else. */
  function RatingColor(rating: string): (classes: string)
    ensures rating == "Ready for Review" ==> classes == ReadyClasses
    ensures rating == "Needs Minor Polish" ==> classes == MinorPolishClasses
    ensures rating == "Needs Structural Rework" ==> classes == StructuralReworkClasses
    ensures rating !in ReadinessRatings ==> classes == DefaultRatingClasses
  {
    match rating
    case "Ready for Review" => ReadyClasses
    case "Needs Minor Polish" => MinorPolishClasses
    case "Needs Structural Rework" => StructuralReworkClasses
    case _ => DefaultRatingClasses
  }

  /** The four badge styles are pairwise distinct. */
  lemma RatingColorsDistinct()
    ensures |{ReadyClasses, MinorPolishClasses, StructuralReworkClasses, DefaultRatingClasses}| == 4
  {
    assert ReadyClasses != MinorPolishClasses && ReadyClasses != StructuralReworkClasses;
    assert MinorPolishClasses != StructuralReworkClasses;
    assert DefaultRatingClasses != ReadyClasses && DefaultRatingClasses != MinorPolishClasses;
    assert DefaultRatingClasses != StructuralReworkClasses;
  }

  /** A badge is coloured exactly when the rating is one of the three declared ones, and the colour identifies the rating. */
  lemma RatingColorIdentifiesRating(a: string, b: string)
    ensures RatingColor(a) != DefaultRatingClasses <==> a in ReadinessRatings
    ensures a in ReadinessRatings && RatingColor(a) == RatingColor(b) ==> a == b
  {
    RatingColorsDistinct();
  }

  const CheckedClasses := "bg-green-100 border-green-500 text-green-700"
  const UncheckedClasses := "bg-gray-100 border-gray-300 text-gray-400"
  const CheckGlyph := "fas fa-check text-xs"
  const TimesGlyph := "fas fa-times text-xs"

  /** The box classes and the glyph of one check icon. */
  datatype IconStyle = IconStyle(classes: string, glyph: string)

  /** `CheckIcon`: green with a check mark when checked, gray with a cross otherwise. */
  function CheckIcon(checked: bool): (icon: IconStyle)
    ensures icon.classes == CheckedClasses <==> checked
    ensures icon.glyph == CheckGlyph <==> checked
    ensures icon.classes == UncheckedClasses <==> !checked
    ensures icon.glyph == TimesGlyph <==> !checked
  {
    assert CheckedClasses != UncheckedClasses && CheckGlyph != TimesGlyph;
    if checked then IconStyle(CheckedClasses, CheckGlyph) else IconStyle(UncheckedClasses, TimesGlyph)
  }

  /** What a reader of the panel sees an icon say. */
  predicate ShowsChecked(icon: IconStyle) {
    icon.glyph == CheckGlyph
  }

  const CheckLabels: seq<string> := [
    "Conversational Tone", "Scannability", "Creative Formatting",
    "\"Packaging\" (Title/Hook)", "Admin Check (Copyright)"]

  /** One line of the checklist: its caption and its icon. */
  datatype CheckRow = CheckRow(caption: string, icon: IconStyle)

  /** The five boolean scorecard fields, in the order the panel shows them. */
  function Checks(sc: Scorecard): seq<bool> {
    [sc.conversationalTone, sc.scannability, sc.creativeFormatting, sc.packaging, sc.adminCheck]
  }

  /** The checklist of the panel. */
  function CheckRows(sc: Scorecard): (rows: seq<CheckRow>)
    ensures |rows| == |CheckLabels| == 5
    ensures forall i :: 0 <= i < 5 ==> rows[i].caption == CheckLabels[i]
  {
    [ CheckRow(CheckLabels[0], CheckIcon(sc.conversationalTone)),
      CheckRow(CheckLabels[1], CheckIcon(sc.scannability)),
      CheckRow(CheckLabels[2], CheckIcon(sc.creativeFormatting)),
      CheckRow(CheckLabels[3], CheckIcon(sc.packaging)),
      CheckRow(CheckLabels[4], CheckIcon(sc.adminCheck)) ]
  }

  /** Each check icon shows exactly its own field, in the fixed order: the five booleans can be read back from the panel. */
  lemma CheckRowsShowChecks(sc: Scorecard)
    ensures forall i :: 0 <= i < 5 ==> ShowsChecked(CheckRows(sc)[i].icon) == Checks(sc)[i]
  {
  }

  /** Two scorecards whose checklists look alike agree on all five checks. */
  lemma CheckRowsDetermineChecks(a: Scorecard, b: Scorecard)
    requires CheckRows(a) == CheckRows(b)
    ensures Checks(a) == Checks(b)
  {
    CheckRowsShowChecks(a);
    CheckRowsShowChecks(b);
    assert forall i :: 0 <= i < 5 ==> Checks(a)[i] == Checks(b)[i];
  }

  const WordLimit := 750
  const WithinLimitClasses := "bg-blue-50 border-blue-200 text-blue-600"
  const OverLimitClasses := "bg-red-50 border-red-200 text-red-600"

  /** The word-count badge: blue up to and including the limit, red above it. */
  function WordCountBadge(wordCount: int): (classes: string)
    ensures classes == WithinLimitClasses <==> wordCount <= WordLimit
    ensures classes == OverLimitClasses <==> wordCount > WordLimit
  {
    assert WithinLimitClasses != OverLimitClasses;
    if wordCount <= WordLimit then WithinLimitClasses else OverLimitClasses
  }

  const LengthPrefix := "Length: "
  const LengthSuffix := " / 750 max"

  /**
   * The length label: the word count's decimal numeral (no leading zero, no
   * `-0`) between a fixed prefix and suffix, from which it can be read back.
   */
  function LengthLabel(wordCount: int): (text: string)
    ensures |text| > |LengthPrefix| + |LengthSuffix|
    ensures text[..|LengthPrefix|] == LengthPrefix
    ensures text[|text| - |LengthSuffix|..] == LengthSuffix
    ensures text[|LengthPrefix|..|text| - |LengthSuffix|] == JsString.IntToString(wordCount)
    ensures JsString.ParseInt(text[|LengthPrefix|..|text| - |LengthSuffix|]) == Some(wordCount)
  {
    var digits := JsString.IntToString(wordCount);
    JsString.IntToStringRoundTrip(wordCount);
    var text := LengthPrefix + digits + LengthSuffix;
    assert text[|LengthPrefix|..|text| - |LengthSuffix|] == digits;
    text
  }
}
