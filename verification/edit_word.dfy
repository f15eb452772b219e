/**
 * The edit form: loads one word, then validates the edited texts and
 * writes back a copy of the loaded word with only those texts replaced.
 */
module EditWord {
  import opened Wrappers
  import opened Words
  import opened Text
  import opened WordStore
  import opened Effects

  /** The word currently loaded into the form, if any. */
  datatype EditState = EditState(word: Option<Word>)

  /** The state a command leaves and the effects it produced. */
  datatype Step = Step(state: EditState, effects: seq<Effect>)

  const Idle := EditState(None)

  const NotFound := "Item not found in logistics network"
  const NameEmpty := "Item name cannot be empty"
  const DescriptionEmpty := "Item description cannot be empty"
  const NothingLoaded := "No item loaded in assembly machine"
  const Malfunction := "Assembly machine malfunction"

  /**
   * `loadWord`: a stored id loads that word; a missing one emits an error
   * and keeps whatever was loaded before.
   */
  function LoadWord(s: EditState, store: Store, id: int): (r: Step)
    ensures id in store.items ==> r.state.word == Some(store.items[id]) && r.effects == []
    ensures id !in store.items ==> r.state == s && r.effects == [Error(NotFound)]
  {
    match Get(store, id)
    case Some(w) => Step(EditState(Some(w)), [])
    case None => Step(s, [Error(NotFound)])
  }

  /**
   * `createUpdatedWord`: the loaded word with the four texts replaced.
   * Putting the old texts back gives the loaded word again, so id, learned
   * flag and date are kept.
   */
  function EditedWord(current: Word, title: string, definition: string, synonym: string, details: string): (w: Word)
    ensures w.title == title && w.definition == definition && w.synonym == synonym && w.details == details
    ensures w.(title := current.title, definition := current.definition,
               synonym := current.synonym, details := current.details) == current
  {
    current.(title := title, definition := definition, synonym := synonym, details := details)
  }

  /**
   * `handleError`: the failure's own message reaches the user unchanged;
   * only a failure without a message shows the fallback text.
   */
  function HandleError(message: Option<string>): (r: string)
    ensures message.Some? ==> r == message.value
    ensures message.None? ==> r == Malfunction
  {
    message.GetOr(Malfunction)
  }

  /**
   * `updateWord`: validation failures (name first, then description) and a
   * missing loaded word each yield exactly one error and no store call;
   * otherwise one update with the edited copy of the loaded word, then one
   * finish signal. The loaded word itself is never changed.
   */
  function UpdateWord(s: EditState, title: string, definition: string, synonym: string, details: string): (r: Step)
    ensures r.state == s
    ensures IsBlank(title) ==> r.effects == [Error(NameEmpty)]
    ensures !IsBlank(title) && IsBlank(definition) ==> r.effects == [Error(DescriptionEmpty)]
    ensures !IsBlank(title) && !IsBlank(definition) && s.word.None? ==> r.effects == [Error(NothingLoaded)]
    ensures !IsBlank(title) && !IsBlank(definition) && s.word.Some? ==>
      r.effects == [StoreUpdate(EditedWord(s.word.value, title, definition, synonym, details)), Finish]
  {
    match Validate(title, definition, NameEmpty, DescriptionEmpty)
    case Some(message) => Step(s, [Error(HandleError(Some(message)))])
    case None =>
      match s.word
      case Some(current) =>
        Step(s, [StoreUpdate(EditedWord(current, title, definition, synonym, details)), Finish])
      case None => Step(s, [Error(NothingLoaded)])
  }

  /**
   * Loading a stored word and saving valid edits writes the edited copy back
   * under the same id, leaves every other entry and the counter alone, keeps
   * the store's invariants, and keeps the number of words.
   */
  lemma LoadThenUpdate(store: Store, id: int, title: string, definition: string, synonym: string, details: string)
    requires Valid(store) && id in store.items
    requires !IsBlank(title) && !IsBlank(definition)
    ensures var loaded := LoadWord(Idle, store, id).state;
      var r := Perform(store, UpdateWord(loaded, title, definition, synonym, details).effects);
      r.Some? && Valid(r.value) && r.value.counter == store.counter &&
      Get(r.value, id) == Some(EditedWord(store.items[id], title, definition, synonym, details)) &&
      (forall k :: k != id ==> Get(r.value, k) == Get(store, k)) &&
      |AllWords(r.value)| == |AllWords(store)|
  {
    var w := EditedWord(store.items[id], title, definition, synonym, details);
    assert w.id == Some(id);
    var effects := UpdateWord(LoadWord(Idle, store, id).state, title, definition, synonym, details).effects;
    assert effects == [StoreUpdate(w), Finish];
    assert effects[1..] == [Finish];
    UpdateValid(store, w);
    var updated := Update(store, w).value;
    assert Perform(updated, [Finish]) == Some(updated);
    assert Perform(store, effects) == Some(updated);
  }

  /** A rejected or unloaded edit leaves the store exactly as it was. */
  lemma FailedUpdateKeepsStore(store: Store, s: EditState, title: string, definition: string, synonym: string, details: string)
    requires IsBlank(title) || IsBlank(definition) || s.word.None?
    ensures Perform(store, UpdateWord(s, title, definition, synonym, details).effects) == Some(store)
  {
  }

  /** A loaded word carries the id it was loaded by. */
  lemma LoadedWordKeepsId(s: EditState, store: Store, id: int)
    requires KeysAreIds(store) && id in store.items
    ensures LoadWord(s, store, id).state.word.value.id == Some(id)
  {
  }
}
