# Clue deduction engine — a verified model

This project models the deduction engine of a Clue (Cluedo) notebook assistant
(`ClueDeductionEngine` in `clue_solver.py`), together with the two places where
the web front end writes into the engine directly: the turn handler's "passers"
and "nobody refuted" loops, and the user's own refutation (`app.py`).

The engine keeps a knowledge matrix from (card, location) to one of four
statuses, ordered Unknown < NoCard < HasCard < InEnvelope. The locations are the
players in roster order, then the envelope. Every write goes through one gate,
which only ever raises a cell. A raising write then cascades:

- a HasCard write marks every other location NoCard for that card and runs the
  hand-completion check for the holder;
- an InEnvelope write marks every player NoCard;
- both then run the solution check for the card. Its envelope rule fires when
  the envelope cell is still Unknown and every player is NoCard. Its
  last-holder rule would fire when exactly one player is still Unknown, every
  other player is NoCard and the envelope cell is NoCard.

The envelope cell becomes NoCard only in the HasCard cascade, in a row where a
player has just been given the card. So in every reachable state a row whose
envelope is NoCard has a holder, and the last-holder rule never finds anybody
(`Rules.LastHolderDead`). The model keeps the rule as written, proves it
silent, and states the intended rule separately (see "## Findings").

Around this core sit:

- the even deal of hand sizes;
- the user's hand input;
- the "two of three" rule for a refuted suggestion;
- the read-only status summary;
- the key under which the card catalog is persisted.

## Representation

- Cards are the numbers `0 .. DeckSize(e)-1`, in catalog order: all suspects,
  then all weapons, then all rooms. The Original edition has 6/6/9 = 21 cards.
  Master Detective has 10/8/12 = 30. A card name given to the engine is a
  number; it is recognised exactly when it is below the deck size.
- Locations are the players `0 .. numPlayers-1` in roster order. The envelope is
  location `numPlayers`.
- `DeductionEngine` is a class. Its fields `knowledge`, `log` and `shownTo` are
  updated in place by methods whose `modifies` clauses name them. Log entries
  are the datatype `Event`: one constructor per kind of narration line, carrying
  the players and cards the line mentions.
- The gate and the checks are mutually recursive methods. Together they
  terminate on `Potential(knowledge)`, the sum over all cells of (3 − rank),
  paired with a small rank per method. Every productive write lowers the
  potential, and no write raises it.
- `Valid()` holds the engine's invariants: the matrix has one row per card and
  one cell per location; the envelope cell is never HasCard and no player cell
  is InEnvelope (`Placed`); and an envelope cell is NoCard only in a row some
  player holds (`Anchored`).
- The outcome of every write is a function of the state before it. In module
  `Rules`, `RuleOutCell` is a NoCard write at a player followed by the
  solution check, on one row. `FillRow` is the "every other location" fill.
  `EnvelopeRule` is the envelope rule. In module `Deduction`, `RuleOutColumn`
  is the hand-completion writes over a player's column, and `CardsRuledOut` is
  NoCard writes for a list of players and a list of cards.
  `ColumnNotes`/`PlayersNotes` are the log entries those writes add.
  `CascadeOutcome` and `GateOutcome` give the matrix and log entries after a
  productive write and after any write. `HandOutcome` gives them after the
  first n names of the user's hand. The methods are proved to reach exactly
  these outcomes. Lemmas state what the outcomes mean, cell by cell
  (`…Exactly`), and what they keep (`Settles`, `AtLeast`, `HandKept`).
- `Settles(before, after, P)` says that only Unknown cells change. Each becomes
  NoCard, except an envelope cell, which becomes InEnvelope only once every
  player is NoCard. `Filled(s)` is NoCard for Unknown and `s` otherwise.
- The status summary's loops are methods without `modifies`, so the summary
  provably leaves the engine unchanged. Each method is tied to a pure function
  (`LastInEnvelope`, `PossibleCards`, `Symbol`), and the meaning of those
  functions is proved in lemmas.
- When nobody refutes, the turn handler marks every player NoCard for the three
  cards, the suggester included (`app.py:92-94`).
  `Deduction.DeductionEngine.LogTurn` does the same.

## Model

| member | source | states |
|---|---|---|
| Catalog.CategorySize | clue_solver.py:5-24 | Each category of each catalog is non-empty: 6/6/9 suspects/weapons/rooms in the original game, 10/8/12 in Master Detective. |
| Catalog.DeckSize | clue_solver.py:49-50 | The flattened deck has 21 cards in the original catalog and 30 in Master Detective. |
| Catalog.CategoryEnd | clue_solver.py:49 | A category's block of the flattened deck is non-empty and lies inside the deck. |
| Catalog.CategoryIndex | clue_solver.py:183 | Every category has a place in the catalog's category order. |
| Catalog.CategoryOf | clue_solver.py:49 | Every card of the deck belongs to exactly one category. |
| Catalog.CategoriesPartitionDeck | clue_solver.py:49 | A number is a card of the deck iff it lies in some category's block. |
| Catalog.EditionKey | clue_solver.py:77 | The persisted key is one of the two catalog keys, and it is the Master Detective key iff the catalog is Master Detective. |
| Catalog.EditionOfKey | clue_solver.py:83-84 | Restoring gives Master Detective iff the key is the Master Detective key; every other key restores the original catalog. |
| Catalog.EditionKeyRoundTrip | clue_solver.py:77-84 | Persisting the catalog by its key and restoring it gives back the same catalog. |
| Knowledge.Status.Rank | clue_solver.py:27-30 | Each status has a distinct rank in 0..3, in the order Unknown, NoCard, HasCard, InEnvelope. |
| Knowledge.RaiseLowersPotential | clue_solver.py:98-99 | Strictly raising one cell strictly lowers the termination measure. |
| Knowledge.AtLeastPotential | clue_solver.py:98-99 | A matrix that is pointwise at least as high has no larger termination measure. |
| Knowledge.RaiseAtLeast | clue_solver.py:98-99 | Writing a status no lower than the stored one gives a matrix pointwise at least as high. |
| Knowledge.SettlesAtLeast | clue_solver.py:98-99 | Changes that only fill Unknown cells lower no cell. |
| Knowledge.Symbol | clue_solver.py:33-38 | A status is shown as at most one character, and as the empty string exactly when it is Unknown. |
| Knowledge.SymbolInjective | clue_solver.py:33-38 | Distinct statuses are shown by distinct symbols. |
| HandAllocation.HandSizesPrefixSum | clue_solver.py:67-70 | The first n hands hold n·(C div P) + min(n, C mod P) cards. |
| HandAllocation.HandSizesSum | clue_solver.py:67-70 | The hand sizes add up to the number of cards in the deck. |
| HandAllocation.HandSizesBalanced | clue_solver.py:67-70 | Every hand holds C div P or C div P + 1 cards. Exactly the first C mod P players in roster order get the extra card. |
| HandAllocation.HandSizesOfStandardDecks | clue_solver.py:67-70 | 21 cards among 3 players are dealt 7/7/7, and 30 cards among 4 players 8/8/7/7. |
| HandAllocation.AllocateHands | clue_solver.py:66-70 | The loop fills each player's hand size with that player's even share. The sizes sum to the deck size. |
| Rules.UnknownPlayers | clue_solver.py:156-159 | The collected locations are exactly the players whose cell is Unknown, in roster order and without repetition. |
| Rules.LastHolder | clue_solver.py:161-164 | A picked last holder is a player whose cell is Unknown, every other player is NoCard and the envelope is NoCard. |
| Rules.LastHolderExactly | clue_solver.py:156-164 | The last-holder rule picks player p iff p is Unknown, every other player is NoCard and the envelope is NoCard. |
| Rules.LastHolderDead | clue_solver.py:156-165 | In a row whose envelope is NoCard only when some player holds the card, the last-holder rule picks nobody. |
| Rules.EnvelopeRuleSettled | clue_solver.py:151-154 | In a row some player holds, or whose envelope is InEnvelope, the envelope rule does not fire and leaves the row as it is. |
| Rules.RuleOutCellExactly | clue_solver.py:98-112 | A NoCard write at a player followed by the solution check: that cell ends NoCard where it was Unknown and unchanged otherwise, every other player is unchanged, and the envelope becomes InEnvelope exactly when the write filled a cell, the envelope was Unknown and every player now is NoCard. Otherwise the envelope is unchanged. |
| Rules.RowRuledOutExactly | clue_solver.py:98-112 | NoCard writes at a list of players, in order, each followed by the solution check: each listed player ends NoCard where it was Unknown and unchanged otherwise, every other player is unchanged, and the envelope becomes InEnvelope exactly when it was Unknown, some write filled a cell and every player now is NoCard. |
| Deduction.RuleOutColumnExactly | clue_solver.py:176-178 | Hand completion over a player's column, card by card: that player's cell of each card ends NoCard where it was Unknown and unchanged otherwise, no other player's cell changes, and a card's envelope becomes InEnvelope exactly when the write filled the cell, the envelope was Unknown and every player now is NoCard. |
| Deduction.CardsRuledOutExactly | app.py:85-94 | NoCard writes for a list of players and a list of cards: each listed player's cell of each listed card ends NoCard where it was Unknown and unchanged otherwise, no other cell of a player changes, and a listed card's envelope becomes InEnvelope exactly when it was Unknown, some write filled a cell and every player now is NoCard. No other card changes. |
| Deduction.CardsRuledOutKnown | app.py:85-87 | After the writes, no listed player is Unknown for a listed card. |
| Deduction.CardsRuledOutSettles | app.py:85-87 | The writes only fill Unknown cells. |
| Deduction.CardsRuledOutAtLeast | app.py:85-87 | The writes lower no cell. |
| Deduction.DeductionEngine.constructor | clue_solver.py:45-72 | A new engine has every cell Unknown, a (card × location) matrix with the envelope as the extra location, the even deal of hand sizes, an empty shown-card list for exactly the players other than the user, and an empty log. |
| Deduction.EmptyHistory | clue_solver.py:62-64 | The initial shown-card history has a key for exactly the players other than the user, each with an empty list. |
| Deduction.DeductionEngine.CascadeSettles | clue_solver.py:100-113 | Every cascade only fills Unknown cells: NoCard, or InEnvelope for an envelope once every player is NoCard. In particular a cascade gives no player a card. |
| Deduction.DeductionEngine.GateSettles | clue_solver.py:96-113 | The gate's outcome changes only the written cell and Unknown cells, the latter as `Settles` allows. |
| Deduction.DeductionEngine.GateAtLeast | clue_solver.py:96-113 | The gate lowers no cell, and the written cell ends at least at the requested status. |
| Deduction.DeductionEngine.CascadeCompletesHand | clue_solver.py:106-178 | After a HasCard cascade, a holder whose known-held count equals its hand size has no Unknown cell. |
| Deduction.DeductionEngine.Update | clue_solver.py:96-113 | The gate, stated as `Updated`: the matrix and log end exactly as `GateOutcome` from the old ones. A status that is not strictly higher changes nothing. Otherwise the cell is written and the cascade of `CascadeOutcome` follows: after HasCard, the deduction is logged, every other location of the card is filled, and if the holder's hand is then complete, the completion is logged and every card of the holder goes through a NoCard write and the solution check, in deck order. After InEnvelope, the deduction is logged and every player is filled. After NoCard, the envelope rule runs on the row. The invariants are kept, and the measure never rises. |
| Deduction.DeductionEngine.Cascade | clue_solver.py:100-113 | The part of the gate after a productive write ends exactly in `CascadeOutcome` from the written matrix. |
| Deduction.DeductionEngine.WriteNoCard | clue_solver.py:103-105 | One NoCard write through the gate: the card's row becomes `RuleOutCell` of the old row and the log gains exactly its notes. No other row changes. |
| Deduction.DeductionEngine.PropagateHasCard | clue_solver.py:101-106 | After a HasCard write at a player, every other location of the card is filled. If the holder's known-held count then equals its hand size, the matrix is `RuleOutColumn` of the filled matrix and the log gains the completion note and the column's notes. Otherwise the filled matrix is the result and nothing is logged. |
| Deduction.DeductionEngine.PropagateInEnvelope | clue_solver.py:108-111 | After an InEnvelope write, every player is filled for the card. No other row changes, nothing is logged, and the envelope stays InEnvelope. |
| Deduction.DeductionEngine.CheckSolution | clue_solver.py:149-165 | The envelope rule, then the last-holder rule: the card's row becomes `EnvelopeRule` of the old row, and the log gains the deduction exactly when the rule fired. No other row changes. |
| Deduction.DeductionEngine.CheckEnvelope | clue_solver.py:151-154 | If the envelope cell is Unknown and every player is NoCard, exactly the envelope cell becomes InEnvelope and that is logged. Otherwise nothing changes. |
| Deduction.DeductionEngine.CheckLastHolder | clue_solver.py:156-165 | The last-holder rule as written. In every valid state it finds nobody, so it has no `modifies` clause and changes nothing. |
| Deduction.DeductionEngine.UnknownPlayersOf | clue_solver.py:156-159 | The scan returns the players still Unknown for the card, in roster order (`UnknownPlayers`). |
| Deduction.HeldCount | clue_solver.py:172 | The number of cards a player is known to hold is at most the deck size. |
| Deduction.DeductionEngine.CheckHandComplete | clue_solver.py:167-178 | For the envelope, or when the known-held count differs from the hand size, nothing changes. When they are equal, the matrix becomes `RuleOutColumn` of the old one and the log gains the completion note and the column's notes. |
| Deduction.DeductionEngine.RuleOutUnknown | clue_solver.py:176-178 | Every card of the player goes through a NoCard write and the solution check, in deck order: the matrix becomes `RuleOutColumn` of the old one and the log gains exactly the column's notes. Each of the player's cells ends NoCard where it was Unknown and unchanged otherwise. |
| Deduction.DeductionEngine.RuleOutUnknownNext | clue_solver.py:176-178 | One more card of the hand-completion loop takes `RuleOutColumn` and `ColumnNotes` from the first c cards to the first c + 1. |
| Deduction.RecognisedCount | clue_solver.py:126 | The count of recognised names is at most the number of names, and is zero iff no name is a card of the deck. |
| Deduction.DeductionEngine.InputPlayerHand | clue_solver.py:117-126 | The log restarts. The matrix ends exactly as `HandOutcome` of the names, and the log is that outcome's entries plus the count of recognised cards. Every recognised card ends at least HasCard for the user and every unrecognised name has a warning. No cell is lowered, and apart from the user's cells of the named cards only Unknown cells change. When no name is recognised, the matrix is untouched and the log is exactly the warnings plus the count. |
| Deduction.DeductionEngine.TakeHandCards | clue_solver.py:120-124 | The loop over the names ends exactly in `HandOutcome` from the matrix and log it started from. |
| Deduction.DeductionEngine.TakeNextHandCard | clue_solver.py:120-124 | One step of the hand loop takes `HandOutcome` from the first i names to the first i + 1. An unrecognised name only appends a warning. A card's step is exactly the gate's outcome `Updated` for HasCard at the user. |
| Deduction.DeductionEngine.TakeHandCard | clue_solver.py:121-124 | An unrecognised name only appends a warning. A card goes through the gate as HasCard for the user, with the gate's outcome `Updated`, and ends at least HasCard. |
| Deduction.DeductionEngine.HandOutcomeHeld | clue_solver.py:120-124 | Over any prefix of the names, the hand input lowers no cell, leaves every recognised name at least HasCard for the user, and changes only Unknown cells apart from the user's cells of the names (`HandKept`). |
| Deduction.DeductionEngine.HandCardHeld | clue_solver.py:124 | One recognised name through the gate keeps `HandKept`. |
| Deduction.DeductionEngine.HandOutcomeWarned | clue_solver.py:121-123 | The hand input only appends to the log, and every unrecognised name among the first n has its warning. |
| Deduction.DeductionEngine.HandOutcomeUnrecognised | clue_solver.py:120-123 | When no name is recognised, the hand input leaves the matrix as it is and appends exactly one warning per name, in order. |
| Deduction.DeductionEngine.HandOutcomeNext | clue_solver.py:120-124 | The outcome of the first i + 1 names is the outcome of the first i followed by one warning or one gate outcome. |
| Deduction.NoCardCount | clue_solver.py:138 | The count of suggested cards the refuter lacks is at most three, and equals the number of suggested cards iff the refuter lacks them all. |
| Deduction.OnlyCandidateShown | clue_solver.py:140-141 | When all suggested cards but one are NoCard for the refuter, the first card that is not NoCard is suggested, is not NoCard, and every other suggested card is NoCard. It is the only card that can have been shown. |
| Deduction.DeductionEngine.LogSuggestion | clue_solver.py:128-147 | The log restarts with the turn header. With no card shown, or no refuter, nothing else happens. Otherwise the suggestion rule runs for the refuter from the turn header, and the final matrix and log are as `RefutationNoted` states (see NoteRefutation). |
| Deduction.DeductionEngine.NoteRefutation | clue_solver.py:137-147 | Count the suggested cards that are NoCard for the refuter. If 2: the remaining card is a suggested card that is not NoCard, and the other two are NoCard. The card is logged, then goes through the gate as HasCard for the refuter, and the final matrix and log are exactly that gate's outcome `Updated`. If 1 or 0: the matching note is logged and the matrix is unchanged. If 3: nothing happens. |
| Deduction.DeductionEngine.RefutationSingleHolder | clue_solver.py:140-143 | When two of the three cards are NoCard for the refuter, no other player ends holding the shown card unless one already did before the rule ran. |
| Deduction.Passers | app.py:83 | The passers are exactly the players other than the suggester and the refuters, in roster order. |
| Deduction.AllPlayers | app.py:92 | The roster is exactly `0, 1, ..., P-1`, in order. |
| Deduction.DeductionEngine.RuleOut | app.py:86-87 | The given cards, in order, each go through a NoCard write for the player: the matrix becomes `CardsRuledOut` for that player and the log gains exactly the cards' notes. |
| Deduction.DeductionEngine.RuleOutNext | app.py:86-87 | One more card of RuleOut takes `CardsRuledOut` and `CardNotes` from the first i cards to the first i + 1. |
| Deduction.DeductionEngine.RuleOutPlayers | app.py:85-87 | For each given player in order, the given cards go through NoCard writes: the matrix becomes `CardsRuledOut` of the players and the log gains exactly `PlayersNotes`. No cell is lowered. |
| Deduction.DeductionEngine.RuleOutPlayersNext | app.py:85-87 | One more player of RuleOutPlayers takes `CardsRuledOut` and `PlayersNotes` from the first i players to the first i + 1. |
| Deduction.DeductionEngine.LogTurn | app.py:75-94 | With refuters: the refuters' parts run one after the other (`RefutationsNoted`). Part i starts from the matrix part i−1 left, restarts the log at this turn's header, and ends as `RefutationNoted` states. If two of the three cards were NoCard for the first refuter when the turn began, the remaining one ends at least HasCard for that refuter. Then the passers, and only they, go through NoCard writes for the three cards: the matrix ends as `CardsRuledOut` of the passers from the refutations' matrix, and the log is the last part's followed by `PlayersNotes`. With no refuter: the header and the note are appended, and the matrix and log end as the same writes for every player, the suggester included. No cell decreases. |
| Deduction.DeductionEngine.LogRefutations | app.py:79-80 | The refuters' parts run in the order given, each from the matrix the previous one left (`RefutationsNoted`): part i starts from `mids[i]`, restarts the log at the turn header and ends in `mids[i+1]` as `RefutationNoted` states. The first starts from the initial matrix, the last ends in the final one, and the final log is the last part's. With no refuter nothing changes. |
| Deduction.DeductionEngine.LogNextRefutation | app.py:79-80 | One refuter's part, run from the matrix the previous parts left, is appended to the record of the parts (`RefutationsNoted`). If two of the three cards were NoCard for this refuter, the remaining one ends at least HasCard. |
| Deduction.DeductionEngine.RecordUserRefutation | app.py:137-147 | A recognised card goes through the gate as HasCard for the user, with the gate's outcome `Updated`, and then the refutation is logged. The card is appended to the suggester's shown-card list only if the suggester has one and the card is not already in it, so the lists stay free of repetitions and keep their keys. An unrecognised card only logs an error. |
| Deduction.DeductionEngine.NoteShownCard | app.py:140-143 | The shown card is appended to the suggester's list exactly when the suggester has a list without it. Otherwise the history is unchanged. The keys are kept and a history without repetitions stays so. |
| Deduction.Header | clue_solver.py:189 | The header is the card column, then one column per player in roster order, then the envelope column. |
| Deduction.LastInEnvelopeFinds | clue_solver.py:182-186 | Over a category, the solution entry is absent iff no card is InEnvelope. Otherwise it is an InEnvelope card of the category, the last in catalog order. |
| Deduction.PossibleCardsExactly | clue_solver.py:201-206 | The possibilities of a category are exactly its cards whose envelope cell is neither NoCard nor InEnvelope, in catalog order and without repetition. |
| Deduction.DeductionEngine.SolutionCards | clue_solver.py:182-186 | Each category's solution entry is the last card of the category found in the envelope, and is absent when there is none. Every entry is a card of its category whose envelope cell is InEnvelope. |
| Deduction.DeductionEngine.SymbolTable | clue_solver.py:190-197 | One row per card in deck order. Each row has one symbol per location, players first and then the envelope, each the symbol of that cell's status. |
| Deduction.DeductionEngine.RemainingPossibilities | clue_solver.py:199-206 | Every category has a possibility list, holding exactly the category's cards that can still be the solution. |
| Deduction.DeductionEngine.StatusSummary | clue_solver.py:180-209 | Read-only. It returns the solution entries (each an InEnvelope card of its category), the header, one row of P+1 symbols per card, the exact possibility list per category, and the shown-card history. |
| LastHolderRule.IntendedLastHolder | clue_solver.py:156-165 | The corrected last-holder rule picks a player only when that player is Unknown, every other player is NoCard, and the envelope is excluded: NoCard, or another card of the same category is InEnvelope. |
| LastHolderRule.IntendedLastHolderSound | clue_solver.py:156-165 | In every deal that agrees with the matrix and puts at most one card per category in the envelope, the card lies with the player the corrected rule picks. |
| LastHolderRule.IntendedExtendsWritten | clue_solver.py:156-165 | Wherever the rule as written picks a holder, the corrected rule picks the same one. |
| LastHolderRule.WrittenMissesLastHolder | clue_solver.py:156-165 | On a concrete matrix that meets the engine's invariants, the rule as written picks nobody while the corrected rule picks the only player who can hold the card. |

## Left out

- The Flask routes' sessions, redirects, form parsing and templates are web
  input and output. Only the engine writes made by the turn handler and by the
  user-refutation route are modelled.
- The JSON encoder/decoder and `to_json`/`from_json` beyond the catalog key.
  They copy the object's attribute dictionary by reflection and add nothing to
  model.
- Log text: capitalisation, markdown and wording. The log is a sequence of
  `Event` values that carry the same players, cards and counts.
- Card and player names are numbers. Lower-casing, name collisions, a player
  literally called "none", and form values whose case differs from the roster
  are outside the model. The front end's refuter value "none" is `Option.None`.
- Unknown card or player names passed to the suggestion rule or the turn
  handler raise an exception that the front end catches and logs
  (`app.py:98-99`). They are preconditions here: the suggested cards are cards
  of the deck and the refuters are players. The user-refutation route instead
  checks the card and logs an error for an unknown one (`app.py:137`,
  `app.py:147`), which `RecordUserRefutation` models; it requires the user to
  be a player.
- Deduction.DeductionEngine.InputPlayerHand: a user who is not on the roster
  makes the source raise on the first recognised card. The model requires the
  user to be a player whenever some card is recognised.
- Deduction.DeductionEngine.Update: the source's gate accepts any status at any
  location. The model requires HasCard only for a player, InEnvelope only for
  the envelope, and NoCard for the envelope only in a row some player holds or
  whose envelope is InEnvelope. Every call site meets these: the only NoCard
  write to the envelope is the HasCard fill (`clue_solver.py:103-105`).
- The last-holder rule adds nothing to `CascadeOutcome`, because it never fires
  in a state that meets `Valid()` (`Rules.LastHolderDead`). Its scan is still
  modelled by `CheckLastHolder`.
- "At most one holder per card" is not an invariant. The gate lets NoCard be
  raised to HasCard, so contradictory input can leave two holders. The model
  proves only what the cascade guarantees after each write.
- Custom card catalogs: only the two built-in editions exist.
- Deduction.DeductionEngine.SymbolTable: the header's and rows' display names
  (capitalised player names, card names) are replaced by column tags and card
  numbers.

## Findings

| source | as written | input that shows it | evidently intended | confidence | as-written member | corrected member |
|---|---|---|---|---|---|---|
| clue_solver.py:156-165 | The last-holder rule needs the card's envelope cell to be NoCard. The only write of NoCard to the envelope is the fill after a HasCard write at a player (`clue_solver.py:103-105`). So whenever the envelope is NoCard some player holds the card, and "one player Unknown, every other player NoCard" cannot hold: the rule never fires. | Three players, Original edition. Card 1 (a suspect) is InEnvelope. Card 0 (another suspect) is NoCard for players 0 and 1, and Unknown for player 2 and the envelope. Player 2 must hold card 0, but the rule finds nobody because card 0's envelope cell is still Unknown. | The envelope counts as excluded also when another card of the same category is InEnvelope, so the last remaining player is given the card. | not executed | Rules.LastHolderDead, LastHolderRule.WrittenMissesLastHolder | LastHolderRule.IntendedLastHolder, LastHolderRule.IntendedLastHolderSound |

The engine itself keeps the rule as written, so that every other member of the
model describes what the program does.
