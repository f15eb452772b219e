/**
 * The single domain record of the vocabulary app: one word with its
 * definition, synonyms, free-text details, a learned flag and a creation
 * timestamp.
 */
module Words {
  import opened Wrappers

  /**
   * A vocabulary entry. `id` is absent until the store assigns one;
   * `date` is the creation timestamp, modelled as an integer instant so that
   * chronological order is integer order.
   */
  datatype Word = Word(
    id: Option<int>,
    title: string,
    definition: string,
    synonym: string,
    details: string,
    isCompleted: bool,
    date: int
  )

  /**
   * A word as the create screen builds it: no id yet and not completed;
   * the timestamp is the clock reading `now` supplied by the caller.
   */
  function Draft(title: string, definition: string, synonym: string, details: string, now: int): Word
  {
    Word(None, title, definition, synonym, details, false, now)
  }
}
