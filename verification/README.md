# Word list core of the vocabulary app, modelled in Dafny

The app keeps a personal vocabulary list. Each entry is a `Word`: a title, a
definition, synonyms, free-text details, a learned flag (`isCompleted`) and a
creation date. This project models the app's logic apart from the UI:

- **The list screens** (`HomeViewModel` for unlearned words,
  `CompletedViewModel` for learned ones). Each holds `words`,
  `searchResults` and a sort configuration. The configuration is a sort type
  (title or date) and an order (ascending or descending); it starts as date,
  ascending. A repository emission is sorted and written to both lists.
  `setSort` re-sorts `words` only. `searchWords` sets `searchResults` to all of
  `words` for a blank query, and otherwise to the words whose title contains
  the query, ignoring case.
- **The stable sort** behind `sortedBy` / `sortedByDescending`. Words with equal
  keys keep their input order in both directions.
- **The in-memory store** (`WordsRepoOld`). It maps ids to words and keeps a
  counter of ids handed out. It supports add, get, update, delete and the
  completed/unlearned queries.
- **The create and edit forms** (`AddWordViewModel`, `EditWordViewModel`).
  Both run a two-step non-blank check. Each command reports its outcome as a
  list of effects: store calls, then one finish or error signal.

Modules, in dependency order:

| file | module | models |
|---|---|---|
| wrappers.dfy | `Wrappers` | nullable values as `Option` |
| words.dfy | `Words` | the `Word` record |
| text.dfy | `Text` | `isBlank`, case-insensitive `contains`, `String.compareTo` |
| keys.dfy | `Keys` | sort type, order, configuration and the induced order on words |
| selection.dfy | `Selection` | order-preserving `filter` |
| sorting.dfy | `Sorting` | stable sort, its uniqueness, direction facts |
| store.dfy | `WordStore` | `WordsRepoOld` |
| list_view.dfy | `ListView` | the list-screen state shared by both screens |
| home_view.dfy | `HomeView` | the unlearned-words screen |
| completed_view.dfy | `CompletedView` | the learned-words screen |
| effects.dfy | `Effects` | store calls and signals as data; the shared validation |
| add_word.dfy | `AddWord` | the create form |
| edit_word.dfy | `EditWord` | the edit form |

The sort is insertion sort. The library's own stable sort computes the same result,
because `Sorting.SortedTiesUnique` proves that only one list is sorted and
keeps every group of equal-key words in input order. Stability is stated as
`SameTies`: for every key, the words with that key appear in the same order in
the input and in the output.

Title order is Kotlin's `String.compareTo`: it compares characters one by one,
and a proper prefix comes first. This order is case-sensitive. Dates are
integers, so chronological order is integer order.

The store keeps the map's insertion order as well (`order`), because
`mutableMapOf` is a `LinkedHashMap` and `getAllWords` returns values in that
order. An overwrite keeps the entry's position. A new key goes to the end.

Three points of the code's behaviour are easy to get wrong, and the model
states them:
- `updateWord` on an id that is not stored does not fail. It inserts the word
  (`WordStore.Update`). An id that was never handed out can later be
  overwritten by an add (`WordStore.UnissuedUpdateIsOverwritten`).
- Descending is not ascending reversed when keys tie
  (`Sorting.DescendingIsNotReverse`). It is the reverse when all keys are
  distinct (`Sorting.DistinctKeysReverse`).
- The edit form has no toggle of the learned flag. Only the four text fields
  change (`EditWord.EditedWord`).

## Model

| member | source | states |
|---|---|---|
| Text.IsBlank | app/src/main/java/com/dx/wordapp/ui/home/HomeViewModel.kt:66 | a query is blank exactly when every character of it is whitespace, so the empty query is blank |
| Text.IndexOf | app/src/main/java/com/dx/wordapp/ui/home/HomeViewModel.kt:71 | the index found is the first position at or after the start where the query occurs ignoring case; -1 means there is no such position |
| Text.ContainsIff | app/src/main/java/com/dx/wordapp/ui/home/HomeViewModel.kt:71 | a title "contains" the query, ignoring case, exactly when the query occurs at some position of it |
| Text.CompareTo | app/src/main/java/com/dx/wordapp/ui/home/HomeViewModel.kt:85-86 | when one title is a prefix of the other the result is the difference of their lengths; otherwise it is the difference of the characters at the first position where they differ |
| Text.CompareToAntisymmetric | app/src/main/java/com/dx/wordapp/ui/home/HomeViewModel.kt:85-86 | comparing titles the other way round negates the result |
| Text.CompareToZero | app/src/main/java/com/dx/wordapp/ui/home/HomeViewModel.kt:85-86 | two titles compare equal exactly when they are identical, so title ties are equal titles (case-sensitive) |
| Text.CompareToTransitive | app/src/main/java/com/dx/wordapp/ui/home/HomeViewModel.kt:85-86 | title order is transitive |
| Keys.InOrderTotal | app/src/main/java/com/dx/wordapp/ui/home/HomeViewModel.kt:83-91 | under any configuration, any two words can be put in some order |
| Keys.InOrderTransitive | app/src/main/java/com/dx/wordapp/ui/home/HomeViewModel.kt:83-91 | the order used by all four sort variants is transitive |
| Keys.InOrderBothWays | app/src/main/java/com/dx/wordapp/ui/home/HomeViewModel.kt:83-91 | two words are in order both ways exactly when their sort keys (title or date) are equal |
| Selection.Select | app/src/main/java/com/dx/wordapp/data/repo/WordsRepoOld.kt:24-26 | a filter result is an in-order subsequence of its input; it holds each kept word as often as the input does and no other word |
| Selection.SelectMembers | app/src/main/java/com/dx/wordapp/ui/home/HomeViewModel.kt:70-72 | filtering is sound and complete: a word is in the result exactly when it is in the input and kept |
| Selection.CompletedUnlearnedPartition | app/src/main/java/com/dx/wordapp/data/repo/WordsRepoOld.kt:24-26 | the completed and unlearned filters of a list are disjoint and together hold every word of it |
| Sorting.Sort | app/src/main/java/com/dx/wordapp/ui/home/HomeViewModel.kt:82-92 | sorting yields a list in order under the configuration, a permutation of the input, and stable: each group of equal keys keeps its input order, in both directions |
| Sorting.InsertSorted | app/src/main/java/com/dx/wordapp/ui/home/HomeViewModel.kt:84-90 | inserting into an ordered list keeps it ordered |
| Sorting.InsertTies | app/src/main/java/com/dx/wordapp/ui/home/HomeViewModel.kt:84-90 | an inserted word goes before every word with its key and leaves other groups of equal keys unchanged |
| Sorting.TiesSameWords | app/src/main/java/com/dx/wordapp/ui/home/HomeViewModel.kt:82-92 | lists with the same groups of equal keys are permutations of each other |
| Sorting.SortedTiesUnique | app/src/main/java/com/dx/wordapp/ui/home/HomeViewModel.kt:82-92 | two ordered lists with the same groups of equal keys are equal, so a stable sort has exactly one result |
| Sorting.SortUnique | app/src/main/java/com/dx/wordapp/ui/home/HomeViewModel.kt:82-92 | any ordered list that keeps the input's groups of equal keys is the sort of the input |
| Sorting.SortSorted | app/src/main/java/com/dx/wordapp/ui/home/HomeViewModel.kt:82-92 | sorting an already ordered list returns it unchanged |
| Sorting.SortIdempotent | app/src/main/java/com/dx/wordapp/ui/home/HomeViewModel.kt:76-79 | applying the same sort twice gives the same list as applying it once |
| Sorting.DescendingIsNotReverse | app/src/main/java/com/dx/wordapp/ui/home/HomeViewModel.kt:88-90 | two words with the same date keep their order both ascending and descending, so descending is not ascending reversed |
| Sorting.DistinctKeysReverse | app/src/main/java/com/dx/wordapp/ui/home/HomeViewModel.kt:83-91 | when no two words share a key, descending is exactly ascending reversed |
| WordStore.AllWords | app/src/main/java/com/dx/wordapp/data/repo/WordsRepoOld.kt:22 | in a consistent store, all words are listed once per key, position `i` holding the word stored under the `i`-th key inserted, and every stored word is listed |
| WordStore.CompletedWords | app/src/main/java/com/dx/wordapp/data/repo/WordsRepoOld.kt:24 | the completed words are exactly the learned words of all words, in the same relative order |
| WordStore.UnlearnedWords | app/src/main/java/com/dx/wordapp/data/repo/WordsRepoOld.kt:26 | the unlearned words are exactly the not-yet-learned words of all words, in the same relative order |
| WordStore.Get | app/src/main/java/com/dx/wordapp/data/repo/WordsRepoOld.kt:16 | reading an id gives the stored word, or none for a missing id rather than a failure |
| WordStore.Add | app/src/main/java/com/dx/wordapp/data/repo/WordsRepoOld.kt:11-14 | adding increments the counter, stores the word under the new counter with that counter as its id, and changes no other entry |
| WordStore.Update | app/src/main/java/com/dx/wordapp/data/repo/WordsRepoOld.kt:18-20 | updating fails exactly when the id is null; otherwise the word is stored under its id (overwrite or insert), and the counter and all other entries are unchanged |
| WordStore.Delete | app/src/main/java/com/dx/wordapp/data/repo/WordsRepoOld.kt:29-31 | deleting removes that id only; the counter and all other entries are unchanged |
| WordStore.DeleteAbsent | app/src/main/java/com/dx/wordapp/data/repo/WordsRepoOld.kt:29-31 | deleting a missing id is a no-op, not an error |
| WordStore.EmptyValid | app/src/main/java/com/dx/wordapp/data/repo/WordsRepoOld.kt:8-9 | the new store satisfies the invariants and holds no words |
| WordStore.AddValid | app/src/main/java/com/dx/wordapp/data/repo/WordsRepoOld.kt:11-14 | adding keeps key = id, insertion order and "every key is an id already handed out"; the new id is not in use; the new word is appended to the list of all words |
| WordStore.UpdateValid | app/src/main/java/com/dx/wordapp/data/repo/WordsRepoOld.kt:18-20 | updating a word whose id was handed out keeps the invariants; for a stored id the list of all words changes only at that word's position |
| WordStore.DeleteValid | app/src/main/java/com/dx/wordapp/data/repo/WordsRepoOld.kt:29-31 | deleting keeps the invariants and shortens the list of all words by one exactly when the id was stored; the counter is untouched, so ids are never handed out twice |
| WordStore.DeleteCutsOut | app/src/main/java/com/dx/wordapp/data/repo/WordsRepoOld.kt:29-31 | deleting a stored id removes its word from the list of all words at its position, every other word keeping its relative order; deleting a missing id leaves the list unchanged |
| WordStore.DeleteAt | app/src/main/java/com/dx/wordapp/data/repo/WordsRepoOld.kt:29-31 | deleting the key inserted `i`-th removes exactly position `i` from the list of all words |
| WordStore.QueriesPartition | app/src/main/java/com/dx/wordapp/data/repo/WordsRepoOld.kt:22-26 | completed and unlearned words are disjoint, together make up all words, each keeps the order of all words, and each holds only words with its flag value |
| WordStore.AddThenGet | app/src/main/java/com/dx/wordapp/data/repo/WordsRepoOld.kt:11-16 | reading back a just-added word gives it with every field as given except the id, which is the new counter |
| WordStore.UnissuedUpdateIsOverwritten | app/src/main/java/com/dx/wordapp/data/repo/WordsRepoOld.kt:11-20 | an update that inserts an id never handed out is overwritten by the next add of a different word |
| ListView.OnEmission | app/src/main/java/com/dx/wordapp/ui/home/HomeViewModel.kt:49-53 | an emission sets `words` and `searchResults` to the same list: the emitted words sorted (ordered, permutation, stable) under the current configuration |
| ListView.SetSort | app/src/main/java/com/dx/wordapp/ui/home/HomeViewModel.kt:59-63 | `setSort` stores the new configuration and re-sorts the held words into order, as a stable permutation; `searchResults` is left untouched |
| ListView.SearchWords | app/src/main/java/com/dx/wordapp/ui/home/HomeViewModel.kt:65-73 | a blank query sets `searchResults` to `words`; any other query sets it to the in-order subsequence of words whose title contains the query ignoring case; `words` and the configuration are unchanged |
| ListView.CommandsKeepCoherent | app/src/main/java/com/dx/wordapp/ui/home/HomeViewModel.kt:28-36 | from the initial state, every command keeps `words` ordered under the current configuration and keeps every search result among `words` |
| ListView.SetSortSameConfig | app/src/main/java/com/dx/wordapp/ui/home/HomeViewModel.kt:76-79 | re-selecting the configuration already in force changes nothing |
| ListView.BlankSearchRestores | app/src/main/java/com/dx/wordapp/ui/home/HomeViewModel.kt:65-69 | after any search, a blank query restores `searchResults` to `words`, and `words` is never affected |
| ListView.SearchMembers | app/src/main/java/com/dx/wordapp/ui/home/HomeViewModel.kt:70-72 | for a non-blank query a word is found exactly when it is listed and its title matches |
| HomeView.GetWords | app/src/main/java/com/dx/wordapp/ui/home/HomeViewModel.kt:46-56 | the main screen shows exactly the store's unlearned words (as a multiset), sorted under its configuration, in both lists; words with equal sort keys keep the store's insertion order |
| HomeView.OpenedScreen | app/src/main/java/com/dx/wordapp/ui/home/HomeViewModel.kt:35-40 | a newly opened screen is sorted by date ascending and lists every unlearned word |
| CompletedView.GetWords | app/src/main/java/com/dx/wordapp/ui/home/CompletedViewModel.kt:46-55 | the completed screen shows exactly the store's learned words, sorted under its configuration, in both lists, and nothing else; words with equal sort keys keep the store's insertion order |
| CompletedView.SetSortCompleted | app/src/main/java/com/dx/wordapp/ui/home/CompletedViewModel.kt:58-62 | `setSortCompleted` re-sorts only the held words (ordered, stable permutation), leaves `searchResults` unchanged and keeps the screen learned-only |
| CompletedView.SearchWords | app/src/main/java/com/dx/wordapp/ui/home/CompletedViewModel.kt:64-72 | blank query resets the results to `words`; otherwise the results are the in-order subsequence of `words` whose title matches, each match as often as it is listed; `words` untouched; the screen stays learned-only |
| Effects.Validate | app/src/main/java/com/dx/wordapp/ui/manage/EditWordViewModel.kt:75-78 | input passes exactly when title and definition are both non-blank; the title is checked first, and the message is that of the first blank field |
| AddWord.AddWord | app/src/main/java/com/dx/wordapp/ui/manage/AddWordViewModel.kt:39-63 | a blank title gives only "Title cannot be blank" (also when both are blank). A blank definition gives only "Definition cannot be blank". Otherwise there is one add of a word with no id, not learned, stamped now, with the four texts verbatim (synonym and details unchecked), then one finish |
| AddWord.RejectedAddKeepsStore | app/src/main/java/com/dx/wordapp/ui/manage/AddWordViewModel.kt:40-51 | a rejected form does not touch the store |
| AddWord.AcceptedAddRoundTrip | app/src/main/java/com/dx/wordapp/ui/manage/AddWordViewModel.kt:44-62 | an accepted form stores the word under the next id with its fields as entered. The store stays valid, the word is appended to all words, and it is among the unlearned words |
| EditWord.LoadWord | app/src/main/java/com/dx/wordapp/ui/manage/EditWordViewModel.kt:46-56 | a stored id loads that word with no signal; a missing id emits "Item not found in logistics network" and keeps the previous state |
| EditWord.EditedWord | app/src/main/java/com/dx/wordapp/ui/manage/EditWordViewModel.kt:99-112 | the edited word has the four new texts; restoring the old texts gives back the loaded word, so id, learned flag and date are preserved |
| EditWord.HandleError | app/src/main/java/com/dx/wordapp/ui/manage/EditWordViewModel.kt:138-140 | a failure's own message is shown unchanged; only a failure without a message shows "Assembly machine malfunction" |
| EditWord.UpdateWord | app/src/main/java/com/dx/wordapp/ui/manage/EditWordViewModel.kt:62-93 | a blank name gives only "Item name cannot be empty". A blank description gives only "Item description cannot be empty". Valid input with nothing loaded gives only "No item loaded in assembly machine". Otherwise there is one update with the edited copy, then one finish. The loaded word never changes |
| EditWord.LoadThenUpdate | app/src/main/java/com/dx/wordapp/ui/manage/EditWordViewModel.kt:84-122 | loading a stored word and saving valid edits stores the edited copy under the same id. Other entries, the counter, the invariants and the number of words are unchanged |
| EditWord.FailedUpdateKeepsStore | app/src/main/java/com/dx/wordapp/ui/manage/EditWordViewModel.kt:62-69 | a rejected edit, or one with nothing loaded, does not touch the store |
| EditWord.LoadedWordKeepsId | app/src/main/java/com/dx/wordapp/ui/manage/EditWordViewModel.kt:48-50 | a loaded word carries the id it was loaded by, so the later update targets the same entry |

## Left out

- WordStore.Add: the counter is a Kotlin `Int`. After 2^31 - 1 additions it wraps to negative values, and after 2^32 additions ids repeat. The model's counter is unbounded.
- Coroutines, `StateFlow`/`SharedFlow` and dispatchers. Each command is one sequential step. Signals are listed in program order. In the edit form, the update and the finish signal are launched as two separate coroutines, so their real order is not guaranteed. An exception thrown inside a launched coroutine (for instance by the store) is not caught by the create form's `try`, and the model does not cover it.
- The error fallback "Assembly machine malfunction" (`EditWord.HandleError`) is modelled but never reached. Both validation failures carry a non-null message.
- Clock and time zone: `LocalDateTime.now()` becomes the parameter `now`. Dates are integers. The date converter for the database is not part of this model.
- The Room store (`WordsDao`, `MyDatabase`, `MyApp`) and `WordsRepo`, which only delegates to it, are not modelled. The screens are modelled over the in-memory store, whose semantics the model makes explicit. Room's `@Update` ignores a missing row; the in-memory `updateWord` inserts it.
- Text.IsWhitespace: covers Kotlin's whitespace set within Latin-1 only. Case folding is ASCII only.
- Text.CompareTo: compares Unicode scalar values, whereas Kotlin compares UTF-16 code units. The two differ only for characters outside the Basic Multilingual Plane.
- Fragments, the adapter, the activity, navigation, dialogs, the view-model factories and the singleton `getInstance` are UI wiring or plumbing.
