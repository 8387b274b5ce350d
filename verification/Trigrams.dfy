/** Trigram postings, which answer `LIKE '%needle%'`. */
module Trigrams {
  import opened Wrappers
  import Like

  function Window(text: string, i: nat): string
    requires i + 3 <= |text|
  {
    text[i..i + 3]
  }

  ghost function Grams(text: string): set<string> {
    set i: nat | i + 3 <= |text| :: Window(text, i)
  }

  lemma GramsEmptyIffShort(text: string)
    ensures Grams(text) == {} <==> |text| < 3
  {
    if |text| >= 3 {
      assert Window(text, 0) in Grams(text);
    }
  }

  method TrigramsForText(value: string) returns (grams: set<string>)
    ensures grams == Grams(value)
  {
    grams := {};
    if |value| < 3 {
      return;
    }
    for i := 0 to |value| - 2
      invariant grams == set k: nat | k < i :: Window(value, k)
    {
      grams := grams + {Window(value, i)};
    }
  }

  /** A text has every trigram of what it contains. */
  lemma ContainedGrams(text: string, needle: string)
    requires Like.Contains(text, needle)
    ensures Grams(needle) <= Grams(text)
  {
    var at :| 0 <= at <= |text| && needle <= text[at..];
    forall g | g in Grams(needle) ensures g in Grams(text) {
      var i: nat :| i + 3 <= |needle| && Window(needle, i) == g;
      assert forall k :: 0 <= k < |needle| ==> needle[k] == text[at + k];
      assert Window(text, at + i) == Window(needle, i);
    }
  }

  /** The ids in the postings of every trigram of the needle; none when a trigram has no postings. */
  method CandidateIdsForContains(postings: map<string, set<nat>>, needle: string) returns (ids: Option<set<nat>>)
    ensures ids.None? <==> |needle| < 3 || exists g :: g in Grams(needle) && g !in postings
    ensures ids.Some? ==> forall id :: id in ids.value <==> forall g :: g in Grams(needle) ==> id in postings[g]
  {
    var grams := TrigramsForText(needle);
    GramsEmptyIffShort(needle);
    if grams == {} {
      return None;
    }
    ids := None;
    var todo := grams;
    while todo != {}
      invariant todo <= grams
      invariant forall g :: g in grams - todo ==> g in postings
      invariant ids.None? <==> todo == grams
      invariant ids.Some? ==> forall id :: id in ids.value <==> forall g :: g in grams - todo ==> id in postings[g]
    {
      var gram :| gram in todo;
      if gram !in postings {
        return None;
      }
      assert grams - (todo - {gram}) == grams - todo + {gram};
      ids := Some(if ids.None? then postings[gram] else ids.value * postings[gram]);
      todo := todo - {gram};
    }
  }
}
