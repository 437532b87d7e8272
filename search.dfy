/** The search box: the `filter` step of the table pipeline (DataView.tsx:44-48). */
module Search {
  import opened FoodEntries
  import Text

  /** An entry is kept when its lowercased food item or meal type includes the lowercased term. */
  predicate Matches(e: FoodEntry, term: string)
    ensures term == "" ==> Matches(e, term)
    ensures Matches(e, term) ==> |term| <= |e.foodItem| || |term| <= |e.mealType|
  {
    || Text.Includes(Text.Lower(e.foodItem), Text.Lower(term))
    || Text.Includes(Text.Lower(e.mealType), Text.Lower(term))
  }

  function Filter(entries: seq<FoodEntry>, term: string): (r: seq<FoodEntry>)
    ensures |r| <= |entries|
    ensures forall e | e in r :: e in entries && Matches(e, term)
  {
    if entries == [] then []
    else if Matches(entries[0], term) then [entries[0]] + Filter(entries[1..], term)
    else Filter(entries[1..], term)
  }

  /** Each entry is kept exactly as often as it occurs, if it matches, and dropped otherwise. */
  lemma {:induction false} FilterKeepsExactlyMatches(entries: seq<FoodEntry>, term: string, e: FoodEntry)
    ensures multiset(Filter(entries, term))[e] == if Matches(e, term) then multiset(entries)[e] else 0
  {
    if entries != [] {
      FilterKeepsExactlyMatches(entries[1..], term, e);
      assert entries == [entries[0]] + entries[1..];
    }
  }

  /** Filtering is done entry by entry, so it keeps the relative order of what it keeps. */
  lemma {:induction false} FilterConcat(a: seq<FoodEntry>, b: seq<FoodEntry>, term: string)
    ensures Filter(a + b, term) == Filter(a, term) + Filter(b, term)
  {
    if a == [] {
      assert a + b == b;
    } else {
      assert (a + b)[0] == a[0] && (a + b)[1..] == a[1..] + b;
      FilterConcat(a[1..], b, term);
    }
  }

  /** The empty search term keeps every entry, in order. */
  lemma {:induction false} FilterEmptyTerm(entries: seq<FoodEntry>)
    ensures Filter(entries, "") == entries
  {
    if entries != [] {
      Text.IncludesEmpty(Text.Lower(entries[0].foodItem));
      FilterEmptyTerm(entries[1..]);
    }
  }

  /** Matching ignores the case of the term and of the two searched fields. */
  lemma MatchesIgnoresCase(e: FoodEntry, term: string)
    ensures Matches(e, term) == Matches(e, Text.Lower(term))
    ensures Matches(e, term) == Matches(e.(foodItem := Text.Lower(e.foodItem), mealType := Text.Lower(e.mealType)), term)
  {
    Text.LowerIdempotent(term);
    Text.LowerIdempotent(e.foodItem);
    Text.LowerIdempotent(e.mealType);
  }
}
