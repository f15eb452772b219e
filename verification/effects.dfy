/**
 * What a create or edit command does, as data: calls into the store and
 * the one-shot signals the screen reacts to (finish, or an error message).
 */
module Effects {
  import opened Wrappers
  import opened Words
  import opened Text
  import opened WordStore

  datatype Effect =
    | StoreAdd(word: Word)
    | StoreUpdate(word: Word)
    | Finish
    | Error(message: string)

  predicate IsSignal(e: Effect) {
    e.Finish? || e.Error?
  }

  /**
   * Carries out the store calls of `effects` in order; signals leave the
   * store alone. An update without an id fails the whole run (`!!`).
   */
  function Perform(s: Store, effects: seq<Effect>): (r: Option<Store>)
    ensures (forall i :: 0 <= i < |effects| ==> IsSignal(effects[i])) ==> r == Some(s)
    decreases |effects|
  {
    if effects == [] then Some(s)
    else
      match effects[0]
      case StoreAdd(w) => Perform(Add(s, w), effects[1..])
      case StoreUpdate(w) =>
        (match Update(s, w)
         case None => None
         case Some(s') => Perform(s', effects[1..]))
      case _ => Perform(s, effects[1..])
  }

  /**
   * The two-step check both forms run before touching the store: the
   * title first, then the definition. The result is the message of the
   * first blank field, each form passing its own wording.
   */
  function Validate(title: string, definition: string, titleMessage: string, definitionMessage: string): (r: Option<string>)
    ensures r.None? <==> !IsBlank(title) && !IsBlank(definition)
    ensures IsBlank(title) ==> r == Some(titleMessage)
    ensures !IsBlank(title) && IsBlank(definition) ==> r == Some(definitionMessage)
  {
    if IsBlank(title) then Some(titleMessage)
    else if IsBlank(definition) then Some(definitionMessage)
    else None
  }
}
