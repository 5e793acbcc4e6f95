/** The dashboard's fixed configuration: the four known allegation categories. */
module Config {

  /** FADO_ORDER: the four known categories, in legend order. */
  const FadoOrder: seq<string> := ["Abuse of Authority", "Force", "Discourtesy", "Offensive Language"]

  /** The same four categories as a set (`new Set(FADO_ORDER)`). */
  const FadoSet: set<string> := set f | f in FadoOrder

  /** The catch-all label for a missing category or disposition. */
  const Unknown: string := "Unknown"

  /** The one label every "Substantiated ..." disposition collapses to. */
  const Substantiated: string := "Substantiated"

  /** The disposition view keeps at most this many labels. */
  const TopDispositions: nat := 12

  /** The summary panel lists at most this many categories. */
  const TopCategories: nat := 4

  lemma UnknownIsNotACategory()
    ensures Unknown !in FadoSet
    ensures |FadoSet| == |FadoOrder| == 4
  {
    assert FadoSet == {"Abuse of Authority", "Force", "Discourtesy", "Offensive Language"};
  }
}
