/** The last-holder rule of the solution check, as written and as evidently
    intended. As written (`Rules.LastHolder`) it needs the envelope cell to be
    NoCard, which only happens in a row some player holds, so it never fires
    (`Rules.LastHolderDead`). The intended rule also counts the envelope as
    excluded once another card of the same category is InEnvelope: a category
    has exactly one card in the envelope. */
module LastHolderRule {
  import opened Wrappers
  import opened Catalog
  import opened Knowledge
  import opened Rules

  /** The envelope cannot hold `card`: its cell is NoCard, or another card of
      the same category is already InEnvelope. */
  predicate EnvelopeExcluded(k: Matrix, e: Edition, card: nat, players: nat)
    requires Shaped(k, DeckSize(e), players + 1) && card < DeckSize(e)
  {
    k[card][players] == NoCard ||
    exists c :: 0 <= c < |k| && c != card && InCategory(e, c, CategoryOf(e, card)) && k[c][players] == InEnvelope
  }

  /** The intended last-holder rule: exactly one player is Unknown, every other
      player is NoCard and the envelope is excluded. */
  function IntendedLastHolder(k: Matrix, e: Edition, card: nat, players: nat): (r: Option<nat>)
    requires Shaped(k, DeckSize(e), players + 1) && card < DeckSize(e)
    ensures r.Some? ==> r.value < players && k[card][r.value] == Unknown && EnvelopeExcluded(k, e, card, players)
    ensures r.Some? ==> forall q :: 0 <= q < players && q != r.value ==> k[card][q] == NoCard
  {
    var unknown := UnknownPlayers(k[card], players);
    if |unknown| == 1 && (forall q :: 0 <= q < players && q != unknown[0] ==> k[card][q] == NoCard) &&
       EnvelopeExcluded(k, e, card, players)
    then assert unknown[0] in unknown; Some(unknown[0])
    else None
  }

  /** A deal: the location of every card, `players` standing for the envelope. */
  type Deal = seq<nat>

  /** The deal agrees with the matrix: each card lies at a location not ruled
      out, and at the location the matrix says holds it. */
  predicate DealFits(k: Matrix, d: Deal, players: nat)
    requires forall c :: 0 <= c < |k| ==> |k[c]| == players + 1
  {
    |d| == |k| &&
    forall c :: 0 <= c < |d| ==>
      d[c] <= players && k[c][d[c]] != NoCard && (k[c][players] == InEnvelope ==> d[c] == players)
  }

  /** The envelope holds at most one card of each category. */
  predicate OnePerCategory(d: Deal, e: Edition, players: nat)
    requires |d| == DeckSize(e)
  {
    forall c, c' :: 0 <= c < |d| && 0 <= c' < |d| && c != c' && d[c] == players && d[c'] == players ==>
      CategoryOf(e, c) != CategoryOf(e, c')
  }

  /** The intended rule is sound: in every deal that fits the matrix and puts
      one card per category in the envelope, the card it picks lies with the
      player it names. */
  lemma IntendedLastHolderSound(k: Matrix, e: Edition, card: nat, players: nat, d: Deal)
    requires Shaped(k, DeckSize(e), players + 1) && card < DeckSize(e)
    requires DealFits(k, d, players) && OnePerCategory(d, e, players)
    requires IntendedLastHolder(k, e, card, players).Some?
    ensures d[card] == IntendedLastHolder(k, e, card, players).value
  {
    if k[card][players] != NoCard {
      // the envelope already holds another card of the category
      var c :| 0 <= c < |k| && c != card && InCategory(e, c, CategoryOf(e, card)) && k[c][players] == InEnvelope;
      assert d[c] == players;
      assert CategoryOf(e, c) == CategoryOf(e, card);
      assert d[card] != players;
    }
  }

  /** Wherever the as-written rule picks a holder, the intended one picks the
      same holder. */
  lemma IntendedExtendsWritten(k: Matrix, e: Edition, card: nat, players: nat)
    requires Shaped(k, DeckSize(e), players + 1) && card < DeckSize(e)
    ensures LastHolder(k[card], players).Some? ==> IntendedLastHolder(k, e, card, players) == LastHolder(k[card], players)
  {
  }

  /** Three players in the Original edition: card 1 (a suspect) is InEnvelope
      and card 0, another suspect, is NoCard for players 0 and 1. */
  function ExampleMatrix(): (k: Matrix)
    ensures Shaped(k, DeckSize(Original), 4)
  {
    seq(21, c requires 0 <= c < 21 =>
      if c == 0 then [NoCard, NoCard, Unknown, Unknown]
      else if c == 1 then [NoCard, NoCard, NoCard, InEnvelope]
      else [Unknown, Unknown, Unknown, Unknown])
  }

  /** The discrepancy on a concrete matrix that the engine's invariants allow:
      player 2 must hold card 0, and the intended rule says so, but the
      as-written rule finds nobody because the envelope cell is still Unknown. */
  lemma WrittenMissesLastHolder()
    ensures Anchored(ExampleMatrix(), 3) && Placed(ExampleMatrix(), 3)
    ensures LastHolder(ExampleMatrix()[0], 3) == None
    ensures IntendedLastHolder(ExampleMatrix(), Original, 0, 3) == Some(2)
  {
    var k := ExampleMatrix();
    assert k[0] == [NoCard, NoCard, Unknown, Unknown];
    assert k[1] == [NoCard, NoCard, NoCard, InEnvelope];
    assert InCategory(Original, 1, CategoryOf(Original, 0));
    assert EnvelopeExcluded(k, Original, 0, 3);
    assert UnknownPlayers(k[0], 1) == [];
    assert UnknownPlayers(k[0], 2) == [];
    assert UnknownPlayers(k[0], 3) == [2];
  }
}
