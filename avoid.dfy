/** Substring search as the avoid-list repair uses it: Python's `needle in text`
    and `text.index(needle)`. */
module Avoid {
  import opened Options

  /** needle occurs in text starting at index i. */
  predicate MatchAt(text: string, needle: string, i: nat)
  {
    i + |needle| <= |text| && text[i..i + |needle|] == needle
  }

  /** The first start index at or after from where needle occurs, if any. */
  function FirstMatchFrom(text: string, needle: string, from: nat): (r: Option<nat>)
    ensures r.Some? ==> from <= r.value && MatchAt(text, needle, r.value)
    ensures r.Some? ==> forall j :: from <= j < r.value ==> !MatchAt(text, needle, j)
    ensures r.None? ==> forall j :: from <= j ==> !MatchAt(text, needle, j)
    decreases |text| - from
  {
    if from + |needle| > |text| then None
    else if text[from..from + |needle|] == needle then Some(from)
    else FirstMatchFrom(text, needle, from + 1)
  }

  /** `needle in text`. */
  function Contains(text: string, needle: string): (b: bool)
    ensures b <==> exists i :: MatchAt(text, needle, i)
  {
    FirstMatchFrom(text, needle, 0).Some?
  }

  /** `text.index(needle)`, which the source only calls once `needle in text` holds. */
  function Find(text: string, needle: string): (i: nat)
    requires Contains(text, needle)
    ensures MatchAt(text, needle, i)
    ensures forall j :: 0 <= j < i ==> !MatchAt(text, needle, j)
  {
    FirstMatchFrom(text, needle, 0).value
  }

  /** An empty entry is found in every text, at index 0. */
  lemma EmptyNeedle(text: string)
    ensures Contains(text, "") && Find(text, "") == 0
  {
    assert MatchAt(text, "", 0);
  }
}
