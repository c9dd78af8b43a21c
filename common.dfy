/** Shared vocabulary of the meal-planning backend: row identifiers, the
    optional-value wrapper, the error outcomes of the mutations and the
    ingredient / shopping-item record. */
module Common {

  /** Identifiers as they arrive in GraphQL arguments (UUID text). */
  type GroupId = string
  type IndividualId = string
  type RecipeId = string
  type UserId = string

  datatype Option<+T> = None | Some(value: T)

  /** Every way a mutation or a save-time rule can refuse a request. */
  datatype Error =
    // lookups
    | GroupNotFound
    | GroupOrIndividualNotFound
    | RecipeNotFound
    // argument shape
    | MissingIdOrName
    | BothIdAndName
    | NoDetailsGiven
    // group membership and join requests
    | AlreadyRequested
    | NotInJoinRequests
    | NotInGroupRequests
    | InviterNotMember
    | AlreadyMember
    | NotInGroup
    | NotMember
    // database unique columns
    | DuplicateName
    // save-time integrity rules
    | DuplicateMealSlot
    | StepOrderOutOfRange
    | DuplicateStepOrder
    | DuplicateUrl
    | UrlChanged
    // recipe limits and the misspelled step relation
    | TooManyIngredients
    | TooManySteps
    | MissingStepRelation
    // account details
    | InvalidEmail
    | EmailInUse
    | InvalidUsername
    | UsernameInUse

  datatype Outcome = Ok | Err(error: Error)

  /** An ingredient of a recipe or an item of a shopping list. */
  datatype Item = Item(name: string, quantity: string, unit: string)

  /** A second update of the same key overrides the first. */
  lemma UpdateTwice<K, V>(m: map<K, V>, k: K, a: V, b: V)
    ensures m[k := a][k := b] == m[k := b]
  {
  }

  /** Creating rows for each given item, in order: the owner's list
      becomes exactly the given items. */
  method StoreItems(items: seq<Item>) returns (stored: seq<Item>)
    ensures stored == items
  {
    stored := [];
    for k := 0 to |items|
      invariant stored == items[..k]
    {
      stored := stored + [items[k]];
    }
    assert items[..|items|] == items;
  }
}
