/** The main screen: the list of words not yet learned. */
module HomeView {
  import opened Words
  import opened Keys
  import opened Sorting
  import opened WordStore
  import opened ListView

  /**
   * `getWords`: an emission of the unlearned-words query replaces both
   * lists with those words, stably sorted under the screen's configuration:
   * words with equal keys keep the store's insertion order.
   */
  function GetWords(s: ListState, store: Store): (r: ListState)
    ensures r.config == s.config && r.searchResults == r.words
    ensures Sorted(s.config, r.words)
    ensures multiset(r.words) == multiset(UnlearnedWords(store))
    ensures SameTies(s.config.sortType, r.words, UnlearnedWords(store))
    ensures forall w :: w in r.words ==> !w.isCompleted && w in AllWords(store)
  {
    QueriesPartition(store);
    var r := OnEmission(s, UnlearnedWords(store));
    assert forall w :: w in r.words ==> w in multiset(UnlearnedWords(store));
    r
  }

  /** A newly opened screen lists every unlearned word, oldest first. */
  lemma OpenedScreen(store: Store)
    ensures var r := GetWords(Initial, store);
      r.config == SortConfig(Date, Ascending) &&
      (forall i, j :: 0 <= i < j < |r.words| ==> r.words[i].date <= r.words[j].date) &&
      (forall w :: w in AllWords(store) && !w.isCompleted ==> w in r.words)
  {
    var r := GetWords(Initial, store);
    forall w | w in AllWords(store) && !w.isCompleted ensures w in r.words {
      assert w in UnlearnedWords(store);
      assert w in multiset(r.words);
    }
  }
}
