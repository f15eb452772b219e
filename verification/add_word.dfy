/** The create form: validates the input, then adds one new word. */
module AddWord {
  import opened Wrappers
  import opened Words
  import opened Text
  import opened WordStore
  import opened Effects

  const TitleBlank := "Title cannot be blank"
  const DefinitionBlank := "Definition cannot be blank"

  /**
   * `addWord`: a blank title or definition yields exactly one error, the
   * title checked first, and no store call. Otherwise one add of a new,
   * not yet learned word carrying the four texts verbatim, then one finish
   * signal. Synonym and details are never checked. `now` is the clock
   * reading the new word is stamped with.
   */
  function AddWord(title: string, definition: string, synonym: string, details: string, now: int): (r: seq<Effect>)
    ensures IsBlank(title) ==> r == [Error(TitleBlank)]
    ensures !IsBlank(title) && IsBlank(definition) ==> r == [Error(DefinitionBlank)]
    ensures !IsBlank(title) && !IsBlank(definition) ==>
      |r| == 2 && r[0].StoreAdd? && r[1] == Finish &&
      var w := r[0].word;
      w.id.None? && !w.isCompleted && w.date == now &&
      w.title == title && w.definition == definition && w.synonym == synonym && w.details == details
  {
    match Validate(title, definition, TitleBlank, DefinitionBlank)
    case Some(message) => [Error(message)]
    case None => [StoreAdd(Draft(title, definition, synonym, details, now)), Finish]
  }

  /**
   * A rejected form leaves the store exactly as it was.
   */
  lemma RejectedAddKeepsStore(s: Store, title: string, definition: string, synonym: string, details: string, now: int)
    requires IsBlank(title) || IsBlank(definition)
    ensures Perform(s, AddWord(title, definition, synonym, details, now)) == Some(s)
  {
  }

  /**
   * An accepted form stores the new word under the next id, with the given
   * texts, not learned, stamped `now`; it lands at the end of the word list
   * and among the unlearned words the main screen shows.
   */
  lemma AcceptedAddRoundTrip(s: Store, title: string, definition: string, synonym: string, details: string, now: int)
    requires Valid(s) && !IsBlank(title) && !IsBlank(definition)
    ensures var added := Word(Some(s.counter + 1), title, definition, synonym, details, false, now);
      var r := Perform(s, AddWord(title, definition, synonym, details, now));
      r.Some? && Valid(r.value) &&
      Get(r.value, s.counter + 1) == Some(added) &&
      AllWords(r.value) == AllWords(s) + [added] &&
      added in UnlearnedWords(r.value)
  {
    var draft := Draft(title, definition, synonym, details, now);
    var s' := Add(s, draft);
    AddValid(s, draft);
    var effects := AddWord(title, definition, synonym, details, now);
    assert effects == [StoreAdd(draft), Finish];
    assert effects[1..] == [Finish];
    assert Perform(s', [Finish]) == Some(s');
    assert Perform(s, effects) == Some(s');
    var added := Word(Some(s.counter + 1), title, definition, synonym, details, false, now);
    assert added == draft.(id := Some(s.counter + 1));
    assert added in AllWords(s');
  }
}
