/**
 * The state behind a word-list screen: the displayed `words`, an
 * independently filtered `searchResults`, and the sort configuration.
 * Each command is a pure step from one state to the next.
 */
module ListView {
  import opened Words
  import opened Text
  import opened Keys
  import opened Selection
  import opened Sorting

  datatype ListState = ListState(words: seq<Word>, searchResults: seq<Word>, config: SortConfig)

  /** A fresh screen: both lists empty, sorted by date ascending. */
  const Initial := ListState([], [], DefaultConfig)

  /**
   * One emission of the repository query: the emitted list is sorted under
   * the current configuration and becomes both `words` and `searchResults`.
   */
  function OnEmission(s: ListState, emitted: seq<Word>): (r: ListState)
    ensures r.config == s.config
    ensures r.words == r.searchResults
    ensures Sorted(s.config, r.words)
    ensures multiset(r.words) == multiset(emitted)
    ensures SameTies(s.config.sortType, r.words, emitted)
  {
    var sorted := Sort(s.config, emitted);
    ListState(sorted, sorted, s.config)
  }

  /**
   * `setSort`: record the new type and order and re-sort the words already
   * held, without querying again; the search results are left as they were.
   */
  function SetSort(s: ListState, t: SortType, o: SortOrder): (r: ListState)
    ensures r.config == SortConfig(t, o)
    ensures r.searchResults == s.searchResults
    ensures Sorted(r.config, r.words)
    ensures multiset(r.words) == multiset(s.words)
    ensures SameTies(t, r.words, s.words)
  {
    var config := SortConfig(t, o);
    ListState(Sort(config, s.words), s.searchResults, config)
  }

  /**
   * `searchWords`: a blank query shows every word; otherwise the words whose
   * title contains the query, ignoring case, in list order. The word list
   * itself never changes.
   */
  function SearchWords(s: ListState, query: string): (r: ListState)
    ensures r.words == s.words && r.config == s.config
    ensures IsBlank(query) ==> r.searchResults == s.words
    ensures !IsBlank(query) ==> IsSubsequence(r.searchResults, s.words)
    ensures !IsBlank(query) ==> forall w ::
              multiset(r.searchResults)[w] == if ContainsIgnoringCase(w.title, query) then multiset(s.words)[w] else 0
  {
    if IsBlank(query) then s.(searchResults := s.words)
    else s.(searchResults := Select(TitleContains(query), s.words))
  }

  /**
   * What every reachable state satisfies: the words are sorted under the
   * current configuration and the search results show no word, and no
   * copy of a word, that the word list does not hold.
   */
  ghost predicate Coherent(s: ListState) {
    Sorted(s.config, s.words) && multiset(s.searchResults) <= multiset(s.words)
  }

  /** Every command keeps a screen coherent, starting from a fresh one. */
  lemma CommandsKeepCoherent(s: ListState, emitted: seq<Word>, t: SortType, o: SortOrder, query: string)
    requires Coherent(s)
    ensures Coherent(Initial)
    ensures Coherent(OnEmission(s, emitted))
    ensures Coherent(SetSort(s, t, o))
    ensures Coherent(SearchWords(s, query))
  {
    var r := SearchWords(s, query);
    if !IsBlank(query) {
      assert forall w :: multiset(r.searchResults)[w] <= multiset(s.words)[w];
    }
  }

  /** Choosing the configuration already in force leaves the word list as it is. */
  lemma SetSortSameConfig(s: ListState)
    requires Coherent(s)
    ensures SetSort(s, s.config.sortType, s.config.sortOrder) == s
  {
    SortSorted(s.config, s.words);
  }

  /**
   * Searching is non-destructive: whatever was searched before, a blank
   * query brings the search results back to the full word list.
   */
  lemma BlankSearchRestores(s: ListState, query: string, blank: string)
    requires IsBlank(blank)
    ensures SearchWords(SearchWords(s, query), blank).searchResults == s.words
    ensures SearchWords(SearchWords(s, query), blank).words == s.words
  {
  }

  /** A word shows up in the search results exactly when it is listed and its title matches. */
  lemma SearchMembers(s: ListState, query: string, w: Word)
    requires !IsBlank(query)
    ensures w in SearchWords(s, query).searchResults <==> w in s.words && ContainsIgnoringCase(w.title, query)
  {
    SelectMembers(TitleContains(query), s.words, w);
  }
}
