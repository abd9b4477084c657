/** The two fixed card catalogs (editions) and the key under which an engine's
    edition is persisted. Cards are numbered 0..DeckSize(e)-1 in catalog order:
    all suspects, then all weapons, then all rooms. */
module Catalog {

  datatype Category = Suspect | Weapon | Room

  /** Categories in the order the catalogs list them. */
  const Categories: seq<Category> := [Suspect, Weapon, Room]

  /** Position of a category in Categories. */
  function CategoryIndex(cat: Category): (i: nat)
    ensures i < |Categories| && Categories[i] == cat
  {
    match cat
    case Suspect => 0
    case Weapon => 1
    case Room => 2
  }

  datatype Edition = Original | MasterDetective

  /** Number of cards of a category: 6/6/9 in the original game, 10/8/12 in
      Master Detective. */
  function CategorySize(e: Edition, cat: Category): (n: nat)
    ensures n > 0
  {
    match (e, cat)
    case (Original, Suspect) => 6
    case (Original, Weapon) => 6
    case (Original, Room) => 9
    case (MasterDetective, Suspect) => 10
    case (MasterDetective, Weapon) => 8
    case (MasterDetective, Room) => 12
  }

  /** Index of the first card of a category in the flattened deck. */
  function CategoryStart(e: Edition, cat: Category): nat
  {
    match cat
    case Suspect => 0
    case Weapon => CategorySize(e, Suspect)
    case Room => CategorySize(e, Suspect) + CategorySize(e, Weapon)
  }

  function CategoryEnd(e: Edition, cat: Category): (n: nat)
    ensures CategoryStart(e, cat) < n <= DeckSize(e)
  {
    CategoryStart(e, cat) + CategorySize(e, cat)
  }

  function DeckSize(e: Edition): (n: nat)
    ensures e == Original ==> n == 21
    ensures e == MasterDetective ==> n == 30
  {
    CategorySize(e, Suspect) + CategorySize(e, Weapon) + CategorySize(e, Room)
  }

  predicate InCategory(e: Edition, card: nat, cat: Category)
  {
    CategoryStart(e, cat) <= card < CategoryEnd(e, cat)
  }

  /** The category of a card of the deck. */
  function CategoryOf(e: Edition, card: nat): (cat: Category)
    requires card < DeckSize(e)
    ensures InCategory(e, card, cat)
    ensures forall other: Category :: InCategory(e, card, other) ==> other == cat
  {
    if card < CategoryEnd(e, Suspect) then Suspect
    else if card < CategoryEnd(e, Weapon) then Weapon
    else Room
  }

  /** The three categories partition the deck: a card is in some category iff it
      is a card of the deck. */
  lemma CategoriesPartitionDeck(e: Edition, card: nat)
    ensures card < DeckSize(e) <==> exists cat: Category :: InCategory(e, card, cat)
  {
    if card < DeckSize(e) {
      assert InCategory(e, card, CategoryOf(e, card));
    }
  }

  const OriginalKey: string := "ORIGINAL_CARDS"
  const MasterDetectiveKey: string := "MASTER_DETECTIVE_CARDS"

  /** The symbolic key stored in place of the catalog when the engine is persisted. */
  function EditionKey(e: Edition): (key: string)
    ensures key == OriginalKey || key == MasterDetectiveKey
    ensures key == MasterDetectiveKey <==> e == MasterDetective
  {
    if e == MasterDetective then MasterDetectiveKey else OriginalKey
  }

  /** The catalog restored from a persisted key; every key other than the Master
      Detective one restores the original catalog. */
  function EditionOfKey(key: string): (e: Edition)
    ensures e == MasterDetective <==> key == MasterDetectiveKey
  {
    if key == MasterDetectiveKey then MasterDetective else Original
  }

  /** Persisting an edition by its key and reloading it gives back the same catalog. */
  lemma EditionKeyRoundTrip(e: Edition)
    ensures EditionOfKey(EditionKey(e)) == e
  {
  }
}
