/** The completed screen: the list of learned words. */
module CompletedView {
  import opened Words
  import opened Keys
  import opened Selection
  import opened Sorting
  import opened WordStore
  import ListView

  /** Every word on the screen, listed or found, is a learned one. */
  ghost predicate OnlyCompleted(s: ListView.ListState) {
    forall w :: (w in s.words || w in s.searchResults) ==> w.isCompleted
  }

  /**
   * `getWords`: an emission of the completed-words query replaces both
   * lists with those words, stably sorted under the screen's configuration:
   * words with equal keys keep the store's insertion order.
   */
  function GetWords(s: ListView.ListState, store: Store): (r: ListView.ListState)
    ensures r.config == s.config && r.searchResults == r.words
    ensures Sorted(s.config, r.words)
    ensures multiset(r.words) == multiset(CompletedWords(store))
    ensures SameTies(s.config.sortType, r.words, CompletedWords(store))
    ensures OnlyCompleted(r)
  {
    QueriesPartition(store);
    var r := ListView.OnEmission(s, CompletedWords(store));
    assert forall w :: w in r.words ==> w in multiset(CompletedWords(store));
    r
  }

  /**
   * `setSortCompleted`: the new configuration re-sorts the held words only;
   * the screen still shows learned words only.
   */
  function SetSortCompleted(s: ListView.ListState, t: SortType, o: SortOrder): (r: ListView.ListState)
    ensures r.config == SortConfig(t, o) && r.searchResults == s.searchResults
    ensures Sorted(r.config, r.words) && SameTies(t, r.words, s.words)
    ensures multiset(r.words) == multiset(s.words)
    ensures OnlyCompleted(s) ==> OnlyCompleted(r)
  {
    var r := ListView.SetSort(s, t, o);
    assert forall w :: w in r.words ==> w in multiset(s.words);
    r
  }

  /**
   * `searchWords` on the completed screen: the blank query shows every
   * learned word, any other exactly the matching ones in list order; the
   * list is untouched.
   */
  function SearchWords(s: ListView.ListState, query: string): (r: ListView.ListState)
    ensures r.words == s.words && r.config == s.config
    ensures Text.IsBlank(query) ==> r.searchResults == s.words
    ensures !Text.IsBlank(query) ==> forall w ::
              w in r.searchResults <==> w in s.words && Text.ContainsIgnoringCase(w.title, query)
    ensures !Text.IsBlank(query) ==> IsSubsequence(r.searchResults, s.words)
    ensures !Text.IsBlank(query) ==> forall w ::
              multiset(r.searchResults)[w] == if Text.ContainsIgnoringCase(w.title, query) then multiset(s.words)[w] else 0
    ensures OnlyCompleted(s) ==> OnlyCompleted(r)
  {
    var r := ListView.SearchWords(s, query);
    forall w ensures !Text.IsBlank(query) ==> (w in r.searchResults <==> w in s.words && Text.ContainsIgnoringCase(w.title, query)) {
      if !Text.IsBlank(query) { ListView.SearchMembers(s, query, w); }
    }
    r
  }
}
