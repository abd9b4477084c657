/** The deduction engine: a knowledge matrix that only ever moves up the status
    order, a gated write that cascades into the "every other location" writes,
    the hand-completion check and the solution check, the user's hand input,
    the two-of-three suggestion rule and the read-only status summary.

    Locations are numbered: players 0..numPlayers-1 in roster order, and the
    envelope is location numPlayers. */
module Deduction {
  import opened Wrappers
  import opened Catalog
  import opened Knowledge
  import opened HandAllocation
  import opened Rules

  /** The turn log, one entry per narration line. */
  datatype Event =
    | HasDeduced(location: nat, card: nat)
    | EnvelopeDeduced(card: nat)
    | UnrecognisedCard(name: nat)
    | HandLogged(count: nat, player: nat)
    | TurnHeader(suggester: nat, suspect: nat, weapon: nat, room: nat)
    | MustHaveShown(refuter: nat, card: nat)
    | OneOfTwoRemaining(refuter: nat)
    | OneOfThree(refuter: nat)
    | HandComplete(player: nat, size: nat)
    | UserRefuted(suggester: nat, card: nat)
    | RefutationNotRecognised(name: nat)
    | NobodyRefuted

  /** Columns of the summary table: the card, each player, the envelope. */
  datatype Column = CardColumn | PlayerColumn(player: nat) | EnvelopeColumn

  datatype Row = Row(card: nat, symbols: seq<string>)

  datatype Summary = Summary(
    solution: map<Category, nat>,
    header: seq<Column>,
    table: seq<Row>,
    possibilities: map<Category, seq<nat>>,
    shownTo: map<nat, seq<nat>>)

  // ---------------------------------------------------------------------------
  // Counting helpers of the hand-completion check and the suggestion rule
  // ---------------------------------------------------------------------------

  /** Number of cards `player` is known to hold. */
  function HeldCount(k: Matrix, player: nat): (n: nat)
    requires forall c :: 0 <= c < |k| ==> player < |k[c]|
    ensures n <= |k|
  {
    if k == [] then 0
    else (if k[0][player] == HasCard then 1 else 0) + HeldCount(k[1..], player)
  }

  // ---------------------------------------------------------------------------
  // The outcomes of NoCard writes, as functions of the matrix
  // ---------------------------------------------------------------------------

  /** The log entry of the envelope rule, when it fires on the row. */
  function EnvelopeNote(row: seq<Status>, players: nat, card: nat): seq<Event>
    requires players < |row|
  {
    if EnvelopeInferable(row, players) then [EnvelopeDeduced(card)] else []
  }

  /** The log entries of a NoCard write at `l` followed by the solution check. */
  function RuleOutNote(row: seq<Status>, l: nat, players: nat, card: nat): seq<Event>
    requires l < |row| && players < |row|
  {
    if row[l] == Unknown then EnvelopeNote(row[l := NoCard], players, card) else []
  }

  /** The hand-completion writes for the cards below `n`: each card's cell in
      `column` written NoCard through the gate, in deck order. */
  function RuleOutColumn(k: Matrix, column: nat, players: nat, n: nat): (r: Matrix)
    requires column < players && Shaped(k, |k|, players + 1)
    ensures Shaped(r, |k|, players + 1)
  {
    seq(|k|, c requires 0 <= c < |k| => if c < n then RuleOutCell(k[c], column, players) else k[c])
  }

  /** The log entries of those writes, in deck order. */
  function ColumnNotes(k: Matrix, column: nat, players: nat, n: nat): seq<Event>
    requires column < players && Shaped(k, |k|, players + 1) && n <= |k|
  {
    if n == 0 then []
    else ColumnNotes(k, column, players, n - 1) + RuleOutNote(k[n - 1], column, players, n - 1)
  }

  /** A turn's NoCard writes: for each player of ps[..n] in order, each of the
      given cards written NoCard for that player through the gate. */
  function CardsRuledOut(k: Matrix, ps: seq<nat>, n: nat, cards: seq<nat>, players: nat): (r: Matrix)
    requires n <= |ps| && Shaped(k, |k|, players + 1) && forall i :: 0 <= i < |ps| ==> ps[i] < players
    ensures Shaped(r, |k|, players + 1)
  {
    seq(|k|, c requires 0 <= c < |k| => if c in cards then RowRuledOut(k[c], ps, n, players) else k[c])
  }

  /** The log entries of one player's writes over cards[..n]; a card given
      twice finds its cell known the second time and logs nothing. */
  function CardNotes(k: Matrix, player: nat, cards: seq<nat>, n: nat, players: nat): seq<Event>
    requires player < players && Shaped(k, |k|, players + 1) && n <= |cards|
    requires forall j :: 0 <= j < |cards| ==> cards[j] < |k|
  {
    if n == 0 then []
    else CardNotes(k, player, cards, n - 1, players) +
         (if cards[n - 1] in cards[..n - 1] then []
          else RuleOutNote(k[cards[n - 1]], player, players, cards[n - 1]))
  }

  /** The log entries of the writes of `CardsRuledOut`, player after player. */
  function PlayersNotes(k: Matrix, ps: seq<nat>, n: nat, cards: seq<nat>, players: nat): seq<Event>
    requires n <= |ps| && Shaped(k, |k|, players + 1) && forall i :: 0 <= i < |ps| ==> ps[i] < players
    requires forall j :: 0 <= j < |cards| ==> cards[j] < |k|
  {
    if n == 0 then []
    else PlayersNotes(k, ps, n - 1, cards, players) +
         CardNotes(CardsRuledOut(k, ps, n - 1, cards, players), ps[n - 1], cards, |cards|, players)
  }

  /** Hand completion: every cell of the column that was Unknown ends NoCard,
      every other player cell is kept, and a card's envelope becomes InEnvelope
      exactly when its cell in the column was Unknown, its envelope was Unknown
      and every player now is NoCard; otherwise the envelope is kept. */
  lemma RuleOutColumnExactly(k: Matrix, column: nat, players: nat, n: nat)
    requires column < players && Shaped(k, |k|, players + 1)
    ensures var r := RuleOutColumn(k, column, players, n);
            forall c :: 0 <= c < |k| ==>
              (forall p :: 0 <= p < players ==>
                 r[c][p] == if p == column && c < n then Filled(k[c][p]) else k[c][p]) &&
              r[c][players] == (if c < n && k[c][column] == Unknown && k[c][players] == Unknown &&
                                   forall p :: 0 <= p < players ==> r[c][p] == NoCard
                                then InEnvelope else k[c][players])
  {
    forall c | 0 <= c < n && c < |k| {
      RuleOutCellExactly(k[c], column, players);
    }
  }

  lemma RuleOutColumnSettles(k: Matrix, column: nat, players: nat, n: nat)
    requires column < players && Shaped(k, |k|, players + 1)
    ensures Settles(k, RuleOutColumn(k, column, players, n), players)
  {
    forall c | 0 <= c < n && c < |k| {
      RuleOutCellSettles(k[c], column, players);
    }
  }

  /** The turn's writes: each given player's cell of each given card ends
      NoCard where it was Unknown and is kept otherwise, every other player
      cell is kept, and a given card's envelope becomes InEnvelope exactly when
      it was Unknown, some write filled a cell of the card and every player now
      is NoCard; otherwise it is kept. Rows of other cards do not change. */
  lemma CardsRuledOutExactly(k: Matrix, ps: seq<nat>, n: nat, cards: seq<nat>, players: nat)
    requires n <= |ps| && Shaped(k, |k|, players + 1) && forall i :: 0 <= i < |ps| ==> ps[i] < players
    ensures var r := CardsRuledOut(k, ps, n, cards, players);
            forall c :: 0 <= c < |k| ==>
              (forall p :: 0 <= p < players ==>
                 r[c][p] == if c in cards && p in ps[..n] then Filled(k[c][p]) else k[c][p]) &&
              r[c][players] == (if c in cards && k[c][players] == Unknown &&
                                   (exists j :: 0 <= j < n && k[c][ps[j]] == Unknown) &&
                                   forall p :: 0 <= p < players ==> r[c][p] == NoCard
                                then InEnvelope else k[c][players])
  {
    forall c | 0 <= c < |k| && c in cards {
      RowRuledOutExactly(k[c], ps, n, players);
    }
  }

  /** After the turn's writes, every given player's cell of every given card
      is known. */
  lemma CardsRuledOutKnown(k: Matrix, ps: seq<nat>, cards: seq<nat>, players: nat)
    requires Shaped(k, |k|, players + 1) && forall i :: 0 <= i < |ps| ==> ps[i] < players
    ensures forall p, x :: p in ps && x in cards && x < |k| ==>
              CardsRuledOut(k, ps, |ps|, cards, players)[x][p] != Unknown
  {
    CardsRuledOutExactly(k, ps, |ps|, cards, players);
    assert ps[..|ps|] == ps;
  }

  lemma CardsRuledOutSettles(k: Matrix, ps: seq<nat>, n: nat, cards: seq<nat>, players: nat)
    requires n <= |ps| && Shaped(k, |k|, players + 1) && forall i :: 0 <= i < |ps| ==> ps[i] < players
    ensures Settles(k, CardsRuledOut(k, ps, n, cards, players), players)
  {
    forall c | 0 <= c < |k| && c in cards {
      RowRuledOutSettles(k[c], ps, n, players);
    }
  }

  /** The turn's writes lower no cell. */
  lemma CardsRuledOutAtLeast(k: Matrix, ps: seq<nat>, n: nat, cards: seq<nat>, players: nat)
    requires n <= |ps| && Shaped(k, |k|, players + 1) && forall i :: 0 <= i < |ps| ==> ps[i] < players
    ensures AtLeast(k, CardsRuledOut(k, ps, n, cards, players))
  {
    CardsRuledOutSettles(k, ps, n, cards, players);
    SettlesAtLeast(k, CardsRuledOut(k, ps, n, cards, players), players);
  }

  /** The next step of the hand-completion loop. */
  lemma RuleOutColumnNext(k: Matrix, column: nat, players: nat, n: nat)
    requires column < players && Shaped(k, |k|, players + 1) && n < |k|
    ensures RuleOutColumn(k, column, players, n)[n] == k[n]
    ensures RuleOutColumn(k, column, players, n + 1) ==
            RuleOutColumn(k, column, players, n)[n := RuleOutCell(k[n], column, players)]
  {
  }

  /** No hand-completion writes yet. */
  lemma RuleOutColumnNone(k: Matrix, column: nat, players: nat)
    requires column < players && Shaped(k, |k|, players + 1)
    ensures RuleOutColumn(k, column, players, 0) == k
  {
  }

  /** The next card of one player's writes: a card not given before is
      written from its row at the start, a card given before finds its cell
      known. */
  lemma CardsRuledOutNext(k: Matrix, player: nat, cards: seq<nat>, i: nat, players: nat)
    requires player < players && Shaped(k, |k|, players + 1) && i < |cards|
    requires forall j :: 0 <= j < |cards| ==> cards[j] < |k|
    ensures var m := CardsRuledOut(k, [player], 1, cards[..i], players);
            var x := cards[i];
            m[x := RuleOutCell(m[x], player, players)] == CardsRuledOut(k, [player], 1, cards[..i + 1], players) &&
            RuleOutNote(m[x], player, players, x) ==
              (if x in cards[..i] then [] else RuleOutNote(k[x], player, players, x))
  {
    var m := CardsRuledOut(k, [player], 1, cards[..i], players);
    var x := cards[i];
    assert cards[..i + 1] == cards[..i] + [x];
    assert RowRuledOut(k[x], [player], 1, players) == RuleOutCell(k[x], player, players);
    if x in cards[..i] {
      assert m[x] == RuleOutCell(k[x], player, players);
      assert m[x][player] != Unknown;
    }
  }

  /** The next player of the turn's writes. */
  lemma CardsRuledOutStep(k: Matrix, ps: seq<nat>, i: nat, cards: seq<nat>, players: nat)
    requires i < |ps| && Shaped(k, |k|, players + 1) && forall j :: 0 <= j < |ps| ==> ps[j] < players
    ensures CardsRuledOut(CardsRuledOut(k, ps, i, cards, players), [ps[i]], 1, cards, players) ==
            CardsRuledOut(k, ps, i + 1, cards, players)
  {
    var m := CardsRuledOut(k, ps, i, cards, players);
    forall c | 0 <= c < |k| && c in cards
      ensures RowRuledOut(m[c], [ps[i]], 1, players) == RowRuledOut(k[c], ps, i + 1, players)
    {
      assert RowRuledOut(m[c], [ps[i]], 0, players) == m[c];
    }
  }

  /** No writes: no players, or no cards. */
  lemma CardsRuledOutNone(k: Matrix, ps: seq<nat>, cards: seq<nat>, players: nat)
    requires Shaped(k, |k|, players + 1) && forall j :: 0 <= j < |ps| ==> ps[j] < players
    ensures CardsRuledOut(k, ps, 0, cards, players) == k
    ensures |ps| > 0 ==> CardsRuledOut(k, ps, 1, [], players) == k
  {
  }

  /** Going from `before` to `after`, every cell that changed was Unknown, or
      is the cell of one of `cards` in the column `column`. */
  ghost predicate UnknownChangedBut(before: Matrix, after: Matrix, column: nat, cards: seq<nat>)
  {
    |after| == |before| &&
    (forall c :: 0 <= c < |before| ==> |after[c]| == |before[c]|) &&
    (forall c, l :: 0 <= c < |before| && 0 <= l < |before[c]| && after[c][l] != before[c][l] ==>
       before[c][l] == Unknown || (l == column && c in cards))
  }

  lemma UnknownChangedButTransitive(a: Matrix, b: Matrix, c: Matrix, column: nat, cards: seq<nat>)
    requires UnknownChangedBut(a, b, column, cards) && UnknownChangedBut(b, c, column, cards)
    ensures UnknownChangedBut(a, c, column, cards)
  {
    forall i, l | 0 <= i < |a| && 0 <= l < |a[i]| && c[i][l] != a[i][l]
      ensures a[i][l] == Unknown || (l == column && i in cards)
    {
      if b[i][l] == a[i][l] {
        assert c[i][l] != b[i][l];
      }
    }
  }

  /** A write of one of `cards` in `column` followed by a `Settles` step
      changes only Unknown cells and that written cell. */
  lemma WrittenChangedBut(k: Matrix, k': Matrix, card: nat, column: nat, s: Status, players: nat, cards: seq<nat>)
    requires card < |k| && column < |k[card]| && card in cards
    requires Settles(Written(k, card, column, s), k', players)
    ensures UnknownChangedBut(k, k', column, cards)
  {
    var w := Written(k, card, column, s);
    forall c, l | 0 <= c < |k| && 0 <= l < |k[c]| && k'[c][l] != k[c][l]
      ensures k[c][l] == Unknown || (l == column && c in cards)
    {
      if c != card || l != column {
        assert w[c][l] == k[c][l];
      }
    }
  }

  predicate Suggestable(k: Matrix, refuter: nat, cards: seq<nat>)
  {
    forall i :: 0 <= i < |cards| ==> cards[i] < |k| && refuter < |k[cards[i]]|
  }

  /** How many of the suggested cards the refuter is known not to hold. */
  function NoCardCount(k: Matrix, refuter: nat, cards: seq<nat>): (n: nat)
    requires Suggestable(k, refuter, cards)
    ensures n <= |cards|
    ensures n == |cards| <==> forall x :: x in cards ==> k[x][refuter] == NoCard
  {
    if cards == [] then 0
    else (if k[cards[0]][refuter] == NoCard then 1 else 0) + NoCardCount(k, refuter, cards[1..])
  }

  /** The first suggested card the refuter is not known to lack. */
  function FirstNotExcluded(k: Matrix, refuter: nat, cards: seq<nat>): Option<nat>
    requires Suggestable(k, refuter, cards)
  {
    if cards == [] then None
    else if k[cards[0]][refuter] != NoCard then Some(cards[0])
    else FirstNotExcluded(k, refuter, cards[1..])
  }

  /** When all suggested cards but one are ruled out for the refuter, the first
      card not ruled out is a suggested card, is not ruled out, and every other
      suggested card is ruled out: it is the only card the refuter can have shown. */
  lemma {:induction false} OnlyCandidateShown(k: Matrix, refuter: nat, cards: seq<nat>)
    requires Suggestable(k, refuter, cards)
    requires NoCardCount(k, refuter, cards) + 1 == |cards|
    ensures FirstNotExcluded(k, refuter, cards).Some?
    ensures var shown := FirstNotExcluded(k, refuter, cards).value;
            shown in cards && k[shown][refuter] != NoCard &&
            forall x :: x in cards && x != shown ==> k[x][refuter] == NoCard
  {
    if k[cards[0]][refuter] == NoCard {
      OnlyCandidateShown(k, refuter, cards[1..]);
    } else {
      assert NoCardCount(k, refuter, cards[1..]) == |cards[1..]|;
      assert forall x :: x in cards ==> x == cards[0] || x in cards[1..];
    }
  }

  /** How many of the given names are cards of a deck of `deck` cards. */
  function RecognisedCount(names: seq<nat>, deck: nat): (n: nat)
    ensures n <= |names|
    ensures n == 0 <==> forall i :: 0 <= i < |names| ==> names[i] >= deck
  {
    if names == [] then 0
    else (if names[0] < deck then 1 else 0) + RecognisedCount(names[1..], deck)
  }

  /** One warning per name, for a list of unrecognised names. */
  function Warnings(names: seq<nat>): seq<Event>
  {
    seq(|names|, i requires 0 <= i < |names| => UnrecognisedCard(names[i]))
  }

  // ---------------------------------------------------------------------------
  // The summary's per-category projections
  // ---------------------------------------------------------------------------

  /** The last card in lo..hi-1 whose envelope cell is InEnvelope. */
  function LastInEnvelope(k: Matrix, envelope: nat, lo: nat, hi: nat): Option<nat>
    requires hi <= |k| && forall c :: 0 <= c < |k| ==> envelope < |k[c]|
    decreases hi
  {
    if hi <= lo then None
    else if k[hi - 1][envelope] == InEnvelope then Some(hi - 1)
    else LastInEnvelope(k, envelope, lo, hi - 1)
  }

  /** The solution entry of a category is set exactly when some card of the range
      is InEnvelope, and then to such a card, the last of them. */
  lemma {:induction false} LastInEnvelopeFinds(k: Matrix, envelope: nat, lo: nat, hi: nat)
    requires hi <= |k| && forall c :: 0 <= c < |k| ==> envelope < |k[c]|
    ensures LastInEnvelope(k, envelope, lo, hi).None? <==>
            forall c :: lo <= c < hi ==> k[c][envelope] != InEnvelope
    ensures LastInEnvelope(k, envelope, lo, hi).Some? ==>
            var found := LastInEnvelope(k, envelope, lo, hi).value;
            lo <= found < hi && k[found][envelope] == InEnvelope &&
            forall c :: found < c < hi ==> k[c][envelope] != InEnvelope
    decreases hi
  {
    if hi > lo && k[hi - 1][envelope] != InEnvelope {
      LastInEnvelopeFinds(k, envelope, lo, hi - 1);
    }
  }

  /** A card can still be the solution while its envelope cell is neither NoCard
      nor InEnvelope. */
  predicate StillPossible(s: Status)
  {
    s != NoCard && s != InEnvelope
  }

  /** The cards in lo..hi-1 that can still be the solution, in deck order. */
  function PossibleCards(k: Matrix, envelope: nat, lo: nat, hi: nat): seq<nat>
    requires hi <= |k| && forall c :: 0 <= c < |k| ==> envelope < |k[c]|
    decreases hi
  {
    if hi <= lo then []
    else PossibleCards(k, envelope, lo, hi - 1) + (if StillPossible(k[hi - 1][envelope]) then [hi - 1] else [])
  }

  /** The possibility list holds exactly the cards of the range that can still be
      the solution, each once, in deck order. */
  lemma {:induction false} PossibleCardsExactly(k: Matrix, envelope: nat, lo: nat, hi: nat)
    requires hi <= |k| && forall c :: 0 <= c < |k| ==> envelope < |k[c]|
    ensures forall c :: c in PossibleCards(k, envelope, lo, hi) <==>
                        lo <= c < hi && StillPossible(k[c][envelope])
    ensures Increasing(PossibleCards(k, envelope, lo, hi))
    decreases hi
  {
    if hi > lo {
      var prefix := PossibleCards(k, envelope, lo, hi - 1);
      var last := if StillPossible(k[hi - 1][envelope]) then [hi - 1] else [];
      var r := PossibleCards(k, envelope, lo, hi);
      assert r == prefix + last;
      PossibleCardsExactly(k, envelope, lo, hi - 1);
      forall i, j | 0 <= i < j < |r| ensures r[i] < r[j] {
        assert r[i] == prefix[i] && prefix[i] in prefix;
        if j < |prefix| {
          assert r[j] == prefix[j];
        } else {
          assert r[j] == hi - 1;
        }
      }
    }
  }

  /** The shown-card history of a new game: an empty list for every player
      other than the user. */
  function EmptyHistory(players: nat, user: nat): (m: map<nat, seq<nat>>)
    ensures forall p :: p in m <==> 0 <= p < players && p != user
    ensures forall p :: p in m ==> m[p] == []
  {
    if players == 0 then map[]
    else if players - 1 == user then EmptyHistory(players - 1, user)
    else EmptyHistory(players - 1, user)[players - 1 := []]
  }

  /** The log `after` starts with the entries of `before`. */
  ghost predicate Extends(before: seq<Event>, after: seq<Event>)
  {
    |before| <= |after| && forall i :: 0 <= i < |before| ==> after[i] == before[i]
  }

  /** Every recognised card of the list is at least HasCard for the player. */
  ghost predicate Held(k: Matrix, cards: seq<nat>, upTo: nat, player: nat)
  {
    forall j :: 0 <= j < upTo && j < |cards| && cards[j] < |k| && player < |k[cards[j]]| ==>
      k[cards[j]][player].Rank() >= HasCard.Rank()
  }

  lemma HeldKept(k: Matrix, k': Matrix, cards: seq<nat>, upTo: nat, player: nat)
    requires AtLeast(k, k') && Held(k, cards, upTo, player)
    ensures Held(k', cards, upTo, player)
  {
    forall j | 0 <= j < upTo && j < |cards| && cards[j] < |k'| && player < |k'[cards[j]]|
      ensures k'[cards[j]][player].Rank() >= HasCard.Rank()
    {
      assert k[cards[j]][player].Rank() <= k'[cards[j]][player].Rank();
    }
  }

  /** When two of the suggested cards were known NoCard for the refuter in
      `before`, the remaining one is held by the refuter in `after`. */
  ghost predicate TwoOfThreeHeld(before: Matrix, after: Matrix, refuter: nat, cards: seq<nat>)
  {
    Suggestable(before, refuter, cards) && NoCardCount(before, refuter, cards) == 2 ==>
      var shown := FirstNotExcluded(before, refuter, cards);
      shown.Some? && shown.value < |after| && refuter < |after[shown.value]| &&
      after[shown.value][refuter].Rank() >= HasCard.Rank()
  }

  lemma TwoOfThreeHeldKept(before: Matrix, k: Matrix, k': Matrix, refuter: nat, cards: seq<nat>)
    requires AtLeast(k, k') && TwoOfThreeHeld(before, k, refuter, cards)
    ensures TwoOfThreeHeld(before, k', refuter, cards)
  {
    if Suggestable(before, refuter, cards) && NoCardCount(before, refuter, cards) == 2 {
      var shown := FirstNotExcluded(before, refuter, cards).value;
      assert k[shown][refuter].Rank() <= k'[shown][refuter].Rank();
    }
  }

  /** Every unrecognised name of the list has its warning in the log. */
  ghost predicate Warned(log: seq<Event>, names: seq<nat>, upTo: nat, deck: nat)
  {
    forall j :: 0 <= j < upTo && j < |names| && names[j] >= deck ==> UnrecognisedCard(names[j]) in log
  }

  lemma WarningsKept(log: seq<Event>, log': seq<Event>, names: seq<nat>, upTo: nat, deck: nat)
    requires Extends(log, log') && Warned(log, names, upTo, deck)
    ensures Warned(log', names, upTo, deck)
  {
    forall j | 0 <= j < upTo && j < |names| && names[j] >= deck ensures UnrecognisedCard(names[j]) in log' {
      var k :| 0 <= k < |log| && log[k] == UnrecognisedCard(names[j]);
      assert log'[k] == log[k];
    }
  }

  /** What the hand input keeps, from `k` to `r` over the first n names: no
      cell is lowered, every recognised name is at least HasCard for the
      player, and no known cell changes but the player's cells of the names. */
  ghost predicate HandKept(k: Matrix, r: Matrix, names: seq<nat>, n: nat, player: nat)
  {
    AtLeast(k, r) && Held(r, names, n, player) && UnknownChangedBut(k, r, player, names)
  }

  /** An unrecognised n-th name keeps `HandKept` with the matrix unchanged. */
  lemma HandKeptSkip(k: Matrix, r: Matrix, names: seq<nat>, n: nat, player: nat)
    requires 0 < n <= |names| && HandKept(k, r, names, n - 1, player) && names[n - 1] >= |r|
    ensures HandKept(k, r, names, n, player)
  {
  }

  /** Appending entries keeps the warnings of the first n - 1 names and,
      when the n-th name is unrecognised and the entries are its warning,
      adds that one too. */
  lemma WarnedAppend(l: seq<Event>, prev: seq<Event>, added: seq<Event>, names: seq<nat>, n: nat, deck: nat)
    requires 0 < n <= |names| && Extends(l, prev) && Warned(prev, names, n - 1, deck)
    requires names[n - 1] >= deck ==> added == [UnrecognisedCard(names[n - 1])]
    ensures Extends(l, prev + added) && Warned(prev + added, names, n, deck)
  {
    WarningsKept(prev, prev + added, names, n - 1, deck);
    if names[n - 1] >= deck {
      assert (prev + added)[|prev|] == UnrecognisedCard(names[n - 1]);
    }
  }

  function Lookup<K, V>(m: map<K, V>, key: K): Option<V>
  {
    if key in m then Some(m[key]) else None
  }

  /** The players in roster order. */
  function AllPlayers(players: nat): (r: seq<nat>)
    ensures forall p :: p in r <==> 0 <= p < players
    ensures forall i :: 0 <= i < |r| ==> r[i] < players
    ensures |r| == players && forall i :: 0 <= i < players ==> r[i] == i
  {
    if players == 0 then [] else AllPlayers(players - 1) + [players - 1]
  }

  /** The players, in roster order, that neither made the suggestion nor refuted it. */
  function Passers(players: nat, suggester: nat, refuters: seq<nat>): (r: seq<nat>)
    ensures forall p :: p in r <==> 0 <= p < players && p != suggester && p !in refuters
    ensures forall i :: 0 <= i < |r| ==> r[i] < players
    ensures Increasing(r)
  {
    if players == 0 then []
    else
      var prefix := Passers(players - 1, suggester, refuters);
      assert forall i :: 0 <= i < |prefix| ==> prefix[i] in prefix;
      prefix + (if players - 1 != suggester && players - 1 !in refuters then [players - 1] else [])
  }

  /** No opponent's shown-card list repeats a card. */
  predicate HistoryDistinct(m: map<nat, seq<nat>>)
  {
    forall p, i, j :: p in m && 0 <= i < j < |m[p]| ==> m[p][i] != m[p][j]
  }

  /** The summary table's header: the card column, one column per player in
      roster order, then the envelope. */
  function Header(players: nat): (h: seq<Column>)
    ensures |h| == players + 2
    ensures h[0] == CardColumn && h[players + 1] == EnvelopeColumn
    ensures forall p :: 0 <= p < players ==> h[p + 1] == PlayerColumn(p)
  {
    [CardColumn] + seq(players, p requires 0 <= p < players => PlayerColumn(p)) + [EnvelopeColumn]
  }

  // ---------------------------------------------------------------------------
  // The engine
  // ---------------------------------------------------------------------------

  class DeductionEngine {
    const edition: Edition
    const numPlayers: nat
    const user: nat
    /** Hand size of each player, fixed at construction. */
    const handSize: seq<nat>
    var knowledge: Matrix
    /** For each opponent, the cards the user has shown them, in order. */
    var shownTo: map<nat, seq<nat>>
    var log: seq<Event>

    ghost predicate Valid()
      reads this
    {
      numPlayers > 0 &&
      |handSize| == numPlayers &&
      Shaped(knowledge, DeckSize(edition), numPlayers + 1) &&
      Placed(knowledge, numPlayers) &&
      Anchored(knowledge, numPlayers)
    }

    /** A new game: every cell Unknown, hand sizes dealt evenly, an empty
        shown-card history for every opponent and an empty log. */
    constructor(numPlayers: nat, edition: Edition, user: nat)
      requires numPlayers > 0
      ensures Valid()
      ensures this.edition == edition && this.numPlayers == numPlayers && this.user == user
      ensures handSize == HandSizes(DeckSize(edition), numPlayers)
      ensures forall c, l :: 0 <= c < DeckSize(edition) && 0 <= l <= numPlayers ==> knowledge[c][l] == Unknown
      ensures shownTo == EmptyHistory(numPlayers, user)
      ensures log == []
    {
      this.edition := edition;
      this.numPlayers := numPlayers;
      this.user := user;
      knowledge := seq(DeckSize(edition), _ => seq(numPlayers + 1, _ => Unknown));
      shownTo := EmptyHistory(numPlayers, user);
      var sizes := AllocateHands(DeckSize(edition), numPlayers);
      handSize := sizes;
      log := [];
    }

    /** The matrix and the log entries that the cascade of a productive write
        of `status` at (card, location) reaches from the matrix `w` just after
        the write.
        After HasCard: the deduction is logged and every other location of the
        card, the envelope included, is filled (NoCard where it was Unknown);
        then, if the holder's known-held count equals its hand size, the
        completion is logged and every card's cell of the holder is written
        NoCard in deck order, each write followed by the solution check.
        After InEnvelope: the deduction is logged and every player is filled.
        After NoCard: the envelope rule runs on the row. The last-holder rule
        never finds a holder in a reachable row (`LastHolderDead`), so it adds
        nothing to any outcome. */
    ghost function CascadeOutcome(w: Matrix, card: nat, location: nat, status: Status): (r: (Matrix, seq<Event>))
      requires Shaped(w, DeckSize(edition), numPlayers + 1) && |handSize| == numPlayers
      requires card < DeckSize(edition) && location <= numPlayers
      ensures Shaped(r.0, DeckSize(edition), numPlayers + 1)
    {
      match status
      case HasCard =>
        var filled := w[card := FillRow(w[card], location, numPlayers + 1)];
        if location < numPlayers && HeldCount(filled, location) == handSize[location] then
          (RuleOutColumn(filled, location, numPlayers, DeckSize(edition)),
           [HasDeduced(location, card), HandComplete(location, handSize[location])] +
           ColumnNotes(filled, location, numPlayers, DeckSize(edition)))
        else
          (filled, [HasDeduced(location, card)])
      case InEnvelope =>
        (w[card := FillRow(w[card], numPlayers, numPlayers)], [EnvelopeDeduced(card)])
      case _ =>
        (w[card := EnvelopeRule(w[card], numPlayers)], EnvelopeNote(w[card], numPlayers, card))
    }

    /** The gate's outcome from the matrix `k`: nothing changes unless `status`
        is strictly higher than the stored one; otherwise the cell is written
        and the cascade runs from the written matrix. */
    ghost function GateOutcome(k: Matrix, card: nat, location: nat, status: Status): (r: (Matrix, seq<Event>))
      requires Shaped(k, DeckSize(edition), numPlayers + 1) && |handSize| == numPlayers
      requires card < DeckSize(edition) && location <= numPlayers
      ensures Shaped(r.0, DeckSize(edition), numPlayers + 1)
    {
      if k[card][location].Rank() < status.Rank()
      then CascadeOutcome(Written(k, card, location, status), card, location, status)
      else (k, [])
    }

    /** `after`/`afterLog` are the outcome of the cascade from the written
        matrix `before` and the log `beforeLog`. */
    ghost predicate Cascaded(before: Matrix, beforeLog: seq<Event>, after: Matrix, afterLog: seq<Event>,
                             card: nat, location: nat, status: Status)
    {
      Shaped(before, DeckSize(edition), numPlayers + 1) && |handSize| == numPlayers &&
      card < DeckSize(edition) && location <= numPlayers &&
      after == CascadeOutcome(before, card, location, status).0 &&
      afterLog == beforeLog + CascadeOutcome(before, card, location, status).1
    }

    /** `after`/`afterLog` are the outcome of the gate from `before`/`beforeLog`. */
    ghost predicate Updated(before: Matrix, beforeLog: seq<Event>, after: Matrix, afterLog: seq<Event>,
                            card: nat, location: nat, status: Status)
    {
      Shaped(before, DeckSize(edition), numPlayers + 1) && |handSize| == numPlayers &&
      card < DeckSize(edition) && location <= numPlayers &&
      after == GateOutcome(before, card, location, status).0 &&
      afterLog == beforeLog + GateOutcome(before, card, location, status).1
    }

    /** A cascade only fills Unknown cells: each with NoCard, except an envelope
        cell it rules in once every player is NoCard. In particular it gives no
        player a card and changes no known cell. */
    lemma CascadeSettles(w: Matrix, card: nat, location: nat, status: Status)
      requires Shaped(w, DeckSize(edition), numPlayers + 1) && |handSize| == numPlayers
      requires card < DeckSize(edition) && location <= numPlayers
      ensures Settles(w, CascadeOutcome(w, card, location, status).0, numPlayers)
    {
      if status == HasCard {
        var filled := w[card := FillRow(w[card], location, numPlayers + 1)];
        FillRowSettles(w[card], location, numPlayers + 1, numPlayers);
        assert Settles(w, filled, numPlayers);
        if location < numPlayers && HeldCount(filled, location) == handSize[location] {
          RuleOutColumnSettles(filled, location, numPlayers, DeckSize(edition));
          SettlesTransitive(w, filled, CascadeOutcome(w, card, location, status).0, numPlayers);
        }
      } else if status == InEnvelope {
        FillRowSettles(w[card], numPlayers, numPlayers, numPlayers);
      }
    }

    /** Whatever the gate does, the cells other than the written one change
        only as a cascade may change them. */
    lemma GateSettles(k: Matrix, card: nat, location: nat, status: Status)
      requires Shaped(k, DeckSize(edition), numPlayers + 1) && |handSize| == numPlayers
      requires card < DeckSize(edition) && location <= numPlayers
      ensures Settles(Written(k, card, location, status), GateOutcome(k, card, location, status).0, numPlayers)
    {
      if k[card][location].Rank() < status.Rank() {
        CascadeSettles(Written(k, card, location, status), card, location, status);
      }
    }

    /** The gate never lowers a cell, and the written cell ends at least at
        the requested status. */
    lemma GateAtLeast(k: Matrix, card: nat, location: nat, status: Status)
      requires Shaped(k, DeckSize(edition), numPlayers + 1) && |handSize| == numPlayers
      requires card < DeckSize(edition) && location <= numPlayers
      ensures AtLeast(k, GateOutcome(k, card, location, status).0)
      ensures GateOutcome(k, card, location, status).0[card][location].Rank() >= status.Rank()
    {
      var w := Written(k, card, location, status);
      GateSettles(k, card, location, status);
      SettlesAtLeast(w, GateOutcome(k, card, location, status).0, numPlayers);
      if k[card][location].Rank() < status.Rank() {
        RaiseAtLeast(k, card, location, status);
        AtLeastTransitive(k, w, GateOutcome(k, card, location, status).0);
      }
    }

    /** After a HasCard cascade, a holder whose known-held count equals its
        hand size has no Unknown cell left. */
    lemma CascadeCompletesHand(w: Matrix, card: nat, location: nat)
      requires Shaped(w, DeckSize(edition), numPlayers + 1) && |handSize| == numPlayers
      requires card < DeckSize(edition) && location < numPlayers
      ensures var after := CascadeOutcome(w, card, location, HasCard).0;
              HeldCount(after, location) == handSize[location] ==>
                forall c :: 0 <= c < DeckSize(edition) ==> after[c][location] != Unknown
    {
      var filled := w[card := FillRow(w[card], location, numPlayers + 1)];
      if HeldCount(filled, location) == handSize[location] {
        RuleOutColumnExactly(filled, location, numPlayers, DeckSize(edition));
      }
    }

    /** The single gate for writes: raises (card, location) to `status` if that
        is strictly higher, and then cascades. HasCard is only ever written for
        a player and InEnvelope only for the envelope; the envelope is written
        NoCard only in a row some player holds. */
    method Update(card: nat, location: nat, status: Status)
      requires Valid() && card < DeckSize(edition) && location <= numPlayers
      requires status == HasCard ==> location < numPlayers
      requires status == InEnvelope ==> location == numPlayers
      requires status == NoCard && location == numPlayers ==> !Open(knowledge[card], numPlayers)
      modifies this`knowledge, this`log
      ensures Valid() && Potential(knowledge) <= old(Potential(knowledge))
      ensures Updated(old(knowledge), old(log), knowledge, log, card, location, status)
      decreases Potential(knowledge), 0
    {
      if knowledge[card][location].Rank() < status.Rank() {
        RaiseLowersPotential(knowledge, card, location, status);
        var row := knowledge[card];
        knowledge := knowledge[card := row[location := status]];
        if knowledge[card][numPlayers] == NoCard {
          // a player held the card before the write and still does
          assert !Open(row, numPlayers);
          var p :| 0 <= p < numPlayers && p < |row| && row[p] == HasCard;
          assert knowledge[card][p] == HasCard;
        }
        Cascade(card, location, status);
      }
    }

    /** What follows a productive write of `status` at (card, location): a
        HasCard or InEnvelope deduction is logged and propagated, then the
        solution check runs for the card. */
    method Cascade(card: nat, location: nat, status: Status)
      requires Valid() && card < DeckSize(edition) && location <= numPlayers
      requires knowledge[card][location] == status && status != Unknown
      requires status == HasCard ==> location < numPlayers
      requires status == InEnvelope ==> location == numPlayers
      modifies this`knowledge, this`log
      ensures Valid() && Potential(knowledge) <= old(Potential(knowledge))
      ensures Cascaded(old(knowledge), old(log), knowledge, log, card, location, status)
      decreases Potential(knowledge), 6
    {
      if status == HasCard {
        log := log + [HasDeduced(location, card)];
        PropagateHasCard(card, location);
      } else if status == InEnvelope {
        log := log + [EnvelopeDeduced(card)];
        PropagateInEnvelope(card);
      }
      ghost var propagated, logged := knowledge, log;
      if status != NoCard {
        // the card is placed, so the envelope rule has nothing to write
        EnvelopeRuleSettled(propagated[card], numPlayers);
      }
      CheckSolution(card);
      if status != NoCard {
        assert knowledge == propagated && log == logged;
      }
    }

    /** One NoCard write through the gate, as the propagation loops, the
        hand-completion loop and the rulings of a turn issue it: an Unknown
        cell becomes NoCard and the envelope rule runs on the row; a known cell
        is left alone. Nothing else changes. */
    method WriteNoCard(card: nat, location: nat)
      requires Valid() && card < DeckSize(edition) && location <= numPlayers
      requires location == numPlayers ==> !Open(knowledge[card], numPlayers)
      modifies this`knowledge, this`log
      ensures Valid() && Potential(knowledge) <= old(Potential(knowledge))
      ensures knowledge == old(knowledge)[card := RuleOutCell(old(knowledge[card]), location, numPlayers)]
      ensures log == old(log) + RuleOutNote(old(knowledge[card]), location, numPlayers, card)
      decreases Potential(knowledge), 1
    {
      Update(card, location, NoCard);
    }

    /** After a HasCard write at (card, location): every other location, players
        and envelope, is written NoCard for the card, then the hand-completion
        check runs for the location. */
    method PropagateHasCard(card: nat, location: nat)
      requires Valid() && card < DeckSize(edition) && location < numPlayers
      requires knowledge[card][location] == HasCard
      modifies this`knowledge, this`log
      ensures Valid() && Potential(knowledge) <= old(Potential(knowledge))
      ensures var filled := old(knowledge)[card := FillRow(old(knowledge[card]), location, numPlayers + 1)];
              if HeldCount(filled, location) == handSize[location] then
                knowledge == RuleOutColumn(filled, location, numPlayers, DeckSize(edition)) &&
                log == old(log) + [HandComplete(location, handSize[location])] +
                       ColumnNotes(filled, location, numPlayers, DeckSize(edition))
              else
                knowledge == filled && log == old(log)
      ensures knowledge[card][location] == HasCard
      decreases Potential(knowledge), 5
    {
      ghost var row := knowledge[card];
      FillRowSkip(row, location, location);
      for other := 0 to numPlayers + 1
        invariant Valid() && Potential(knowledge) <= old(Potential(knowledge))
        invariant log == old(log)
        invariant knowledge == old(knowledge)[card := FillRow(row, location, other)]
      {
        if other != location {
          FillRowHeldStep(row, location, other, numPlayers);
          assert knowledge[card][location] == HasCard;
          WriteNoCard(card, other);
        } else {
          FillRowSkip(row, location, other);
        }
      }
      CheckHandComplete(location);
    }

    /** After an InEnvelope write: every player is written NoCard for the card. */
    method PropagateInEnvelope(card: nat)
      requires Valid() && card < DeckSize(edition)
      requires knowledge[card][numPlayers] == InEnvelope
      modifies this`knowledge, this`log
      ensures Valid() && Potential(knowledge) <= old(Potential(knowledge))
      ensures knowledge == old(knowledge)[card := FillRow(old(knowledge[card]), numPlayers, numPlayers)]
      ensures log == old(log)
      ensures knowledge[card][numPlayers] == InEnvelope
      decreases Potential(knowledge), 5
    {
      ghost var row := knowledge[card];
      FillRowSkip(row, numPlayers, numPlayers);
      for p := 0 to numPlayers
        invariant Valid() && Potential(knowledge) <= old(Potential(knowledge))
        invariant log == old(log)
        invariant knowledge == old(knowledge)[card := FillRow(row, numPlayers, p)]
      {
        FillRowEnvelopeStep(row, p, numPlayers);
        WriteNoCard(card, p);
      }
    }

    /** The solution check for one card: the envelope rule, then the
        last-holder rule, which never finds a holder. */
    method CheckSolution(card: nat)
      requires Valid() && card < DeckSize(edition)
      modifies this`knowledge, this`log
      ensures Valid() && Potential(knowledge) <= old(Potential(knowledge))
      ensures knowledge == old(knowledge)[card := EnvelopeRule(old(knowledge[card]), numPlayers)]
      ensures log == old(log) + EnvelopeNote(old(knowledge[card]), numPlayers, card)
      decreases Potential(knowledge), 2
    {
      CheckEnvelope(card);
      CheckLastHolder(card);
    }

    /** The envelope rule: if the envelope cell is Unknown and every player is
        NoCard, the envelope becomes InEnvelope and that is logged. */
    method CheckEnvelope(card: nat)
      requires Valid() && card < DeckSize(edition)
      modifies this`knowledge, this`log
      ensures Valid() && Potential(knowledge) <= old(Potential(knowledge))
      ensures knowledge == old(knowledge)[card := EnvelopeRule(old(knowledge[card]), numPlayers)]
      ensures log == old(log) + EnvelopeNote(old(knowledge[card]), numPlayers, card)
      decreases Potential(knowledge), 1
    {
      if knowledge[card][numPlayers] == Unknown {
        if forall p :: 0 <= p < numPlayers ==> knowledge[card][p] == NoCard {
          FillRowKnown(knowledge[card][numPlayers := InEnvelope], numPlayers, numPlayers);
          Update(card, numPlayers, InEnvelope);
        }
      }
    }

    /** The last-holder rule as written: if exactly one player is Unknown,
        every other player is NoCard and the envelope is NoCard, that player
        would be written HasCard. The envelope is NoCard only in a row some
        player holds (`Anchored`), and that player is neither Unknown nor
        NoCard, so the condition never holds (`LastHolderDead`). */
    method CheckLastHolder(card: nat)
      requires Valid() && card < DeckSize(edition)
      ensures LastHolder(knowledge[card], numPlayers) == None
    {
      var unknown := UnknownPlayersOf(card);
      if |unknown| == 1 {
        var player := unknown[0];
        assert player in unknown;
        if (forall q :: 0 <= q < numPlayers && q != player ==> knowledge[card][q] == NoCard) &&
           knowledge[card][numPlayers] == NoCard
        {
          assert false;
        }
      }
      LastHolderDead(knowledge[card], numPlayers);
    }

    /** The scan of the last-holder rule: the players still Unknown for the
        card, in roster order. */
    method UnknownPlayersOf(card: nat) returns (unknown: seq<nat>)
      requires Valid() && card < DeckSize(edition)
      ensures unknown == UnknownPlayers(knowledge[card], numPlayers)
    {
      var row := knowledge[card];
      unknown := [];
      for p := 0 to numPlayers
        invariant unknown == UnknownPlayers(row, p)
      {
        if row[p] == Unknown {
          unknown := unknown + [p];
        }
      }
    }

    /** The hand-completion check: once as many of the player's cells are HasCard
        as the player holds cards, the completion is logged and every card's
        cell of the player is written NoCard. Does nothing for the envelope. */
    method CheckHandComplete(player: nat)
      requires Valid() && player <= numPlayers
      modifies this`knowledge, this`log
      ensures Valid() && Potential(knowledge) <= old(Potential(knowledge))
      ensures player == numPlayers || old(HeldCount(knowledge, player)) != handSize[player] ==>
                knowledge == old(knowledge) && log == old(log)
      ensures player < numPlayers && old(HeldCount(knowledge, player)) == handSize[player] ==>
                knowledge == RuleOutColumn(old(knowledge), player, numPlayers, DeckSize(edition)) &&
                log == old(log) + [HandComplete(player, handSize[player])] +
                       ColumnNotes(old(knowledge), player, numPlayers, DeckSize(edition))
      decreases Potential(knowledge), 4
    {
      if player == numPlayers {
        return;
      }
      var cardsKnown := HeldCount(knowledge, player);
      if cardsKnown == handSize[player] {
        log := log + [HandComplete(player, handSize[player])];
        RuleOutUnknown(player);
      }
    }

    /** The loop of the hand-completion check: every card still Unknown for the
        player is written NoCard, in deck order. */
    method RuleOutUnknown(player: nat)
      requires Valid() && player < numPlayers
      modifies this`knowledge, this`log
      ensures Valid() && Potential(knowledge) <= old(Potential(knowledge))
      ensures knowledge == RuleOutColumn(old(knowledge), player, numPlayers, DeckSize(edition))
      ensures log == old(log) + ColumnNotes(old(knowledge), player, numPlayers, DeckSize(edition))
      ensures forall c :: 0 <= c < DeckSize(edition) ==> knowledge[c][player] == Filled(old(knowledge[c][player]))
      decreases Potential(knowledge), 3
    {
      RuleOutColumnNone(knowledge, player, numPlayers);
      for c := 0 to DeckSize(edition)
        invariant Valid() && Potential(knowledge) <= old(Potential(knowledge))
        invariant knowledge == RuleOutColumn(old(knowledge), player, numPlayers, c)
        invariant log == old(log) + ColumnNotes(old(knowledge), player, numPlayers, c)
      {
        RuleOutUnknownNext(player, c, old(knowledge), old(log));
      }
      RuleOutColumnExactly(old(knowledge), player, numPlayers, DeckSize(edition));
    }

    /** One step of `RuleOutUnknown`: card c's cell of the player is written
        NoCard if it is still Unknown. */
    method RuleOutUnknownNext(player: nat, c: nat, ghost start: Matrix, ghost startLog: seq<Event>)
      requires Valid() && player < numPlayers && c < DeckSize(edition)
      requires Shaped(start, DeckSize(edition), numPlayers + 1)
      requires knowledge == RuleOutColumn(start, player, numPlayers, c)
      requires log == startLog + ColumnNotes(start, player, numPlayers, c)
      modifies this`knowledge, this`log
      ensures Valid() && Potential(knowledge) <= old(Potential(knowledge))
      ensures knowledge == RuleOutColumn(start, player, numPlayers, c + 1)
      ensures log == startLog + ColumnNotes(start, player, numPlayers, c + 1)
      decreases Potential(knowledge), 2
    {
      RuleOutColumnNext(start, player, numPlayers, c);
      if knowledge[c][player] == Unknown {
        WriteNoCard(c, player);
      }
    }

    /** The matrix and log the hand input reaches from the matrix `k` and the
        log `l` after the first n names: an unrecognised name adds its warning,
        a card goes through the gate as HasCard for the user. */
    ghost function HandOutcome(k: Matrix, l: seq<Event>, names: seq<nat>, n: nat): (r: (Matrix, seq<Event>))
      requires Shaped(k, DeckSize(edition), numPlayers + 1) && |handSize| == numPlayers && n <= |names|
      requires user < numPlayers || RecognisedCount(names, DeckSize(edition)) == 0
      ensures Shaped(r.0, DeckSize(edition), numPlayers + 1)
    {
      if n == 0 then (k, l)
      else
        var prev := HandOutcome(k, l, names, n - 1);
        if names[n - 1] >= DeckSize(edition) then (prev.0, prev.1 + [UnrecognisedCard(names[n - 1])])
        else
          var step := GateOutcome(prev.0, names[n - 1], user, HasCard);
          (step.0, prev.1 + step.1)
    }

    /** The user's hand: the log is cleared, each name is taken in order, and
        the number of recognised cards is logged. */
    method InputPlayerHand(cards: seq<nat>)
      requires Valid()
      requires user < numPlayers || RecognisedCount(cards, DeckSize(edition)) == 0
      modifies this`knowledge, this`log
      ensures Valid() && AtLeast(old(knowledge), knowledge)
      ensures knowledge == HandOutcome(old(knowledge), [], cards, |cards|).0
      ensures log == HandOutcome(old(knowledge), [], cards, |cards|).1 +
                     [HandLogged(RecognisedCount(cards, DeckSize(edition)), user)]
      ensures forall i :: 0 <= i < |cards| && cards[i] < DeckSize(edition) ==>
                knowledge[cards[i]][user].Rank() >= HasCard.Rank()
      ensures forall i :: 0 <= i < |cards| && cards[i] >= DeckSize(edition) ==>
                UnrecognisedCard(cards[i]) in log
      ensures RecognisedCount(cards, DeckSize(edition)) == 0 ==>
                knowledge == old(knowledge) && log == Warnings(cards) + [HandLogged(0, user)]
      ensures UnknownChangedBut(old(knowledge), knowledge, user, cards)
    {
      log := [];
      TakeHandCards(cards);
      HandOutcomeHeld(old(knowledge), [], cards, |cards|);
      HandOutcomeWarned(old(knowledge), [], cards, |cards|);
      if RecognisedCount(cards, DeckSize(edition)) == 0 {
        HandOutcomeUnrecognised(old(knowledge), [], cards, |cards|);
        assert cards[..|cards|] == cards && [] + Warnings(cards) == Warnings(cards);
      }
      ghost var logged := log;
      log := log + [HandLogged(RecognisedCount(cards, DeckSize(edition)), user)];
      WarningsKept(logged, log, cards, |cards|, DeckSize(edition));
    }

    /** The loop of the hand input over the names given. */
    method TakeHandCards(cards: seq<nat>)
      requires Valid()
      requires user < numPlayers || RecognisedCount(cards, DeckSize(edition)) == 0
      modifies this`knowledge, this`log
      ensures Valid()
      ensures knowledge == HandOutcome(old(knowledge), old(log), cards, |cards|).0
      ensures log == HandOutcome(old(knowledge), old(log), cards, |cards|).1
    {
      for i := 0 to |cards|
        invariant Valid()
        invariant knowledge == HandOutcome(old(knowledge), old(log), cards, i).0
        invariant log == HandOutcome(old(knowledge), old(log), cards, i).1
      {
        TakeNextHandCard(cards, i, old(knowledge), old(log));
      }
    }

    /** The hand input lowers no cell, leaves every recognised name at least
        HasCard for the user, and changes no known cell but the user's cells
        of the given names. */
    lemma {:induction false} HandOutcomeHeld(k: Matrix, l: seq<Event>, names: seq<nat>, n: nat)
      requires Shaped(k, DeckSize(edition), numPlayers + 1) && |handSize| == numPlayers && n <= |names|
      requires user < numPlayers || RecognisedCount(names, DeckSize(edition)) == 0
      ensures HandKept(k, HandOutcome(k, l, names, n).0, names, n, user)
    {
      var r := HandOutcome(k, l, names, n).0;
      if n == 0 {
        assert r == k;
      } else {
        HandOutcomeHeld(k, l, names, n - 1);
        var prev := HandOutcome(k, l, names, n - 1).0;
        if names[n - 1] < DeckSize(edition) {
          assert user < numPlayers;
          assert r == GateOutcome(prev, names[n - 1], user, HasCard).0;
          HandCardHeld(k, prev, names, n);
        } else {
          assert r == prev;
          HandKeptSkip(k, r, names, n, user);
        }
      }
    }

    /** One recognised name of the hand input keeps `HandKept`. */
    lemma HandCardHeld(k: Matrix, prev: Matrix, names: seq<nat>, n: nat)
      requires Shaped(prev, DeckSize(edition), numPlayers + 1) && |handSize| == numPlayers
      requires 0 < n <= |names| && names[n - 1] < DeckSize(edition) && user < numPlayers
      requires HandKept(k, prev, names, n - 1, user)
      ensures HandKept(k, GateOutcome(prev, names[n - 1], user, HasCard).0, names, n, user)
    {
      var r := GateOutcome(prev, names[n - 1], user, HasCard).0;
      GateAtLeast(prev, names[n - 1], user, HasCard);
      AtLeastTransitive(k, prev, r);
      HeldKept(prev, r, names, n - 1, user);
      GateSettles(prev, names[n - 1], user, HasCard);
      WrittenChangedBut(prev, r, names[n - 1], user, HasCard, numPlayers, names);
      UnknownChangedButTransitive(k, prev, r, user, names);
    }

    /** The hand input only appends to the log, and every unrecognised name
        gets its warning. */
    lemma {:induction false} HandOutcomeWarned(k: Matrix, l: seq<Event>, names: seq<nat>, n: nat)
      requires Shaped(k, DeckSize(edition), numPlayers + 1) && |handSize| == numPlayers && n <= |names|
      requires user < numPlayers || RecognisedCount(names, DeckSize(edition)) == 0
      ensures var r := HandOutcome(k, l, names, n).1;
              Extends(l, r) && Warned(r, names, n, DeckSize(edition))
    {
      if n > 0 {
        HandOutcomeWarned(k, l, names, n - 1);
        var prev := HandOutcome(k, l, names, n - 1);
        var added := if names[n - 1] >= DeckSize(edition) then [UnrecognisedCard(names[n - 1])]
                     else GateOutcome(prev.0, names[n - 1], user, HasCard).1;
        assert HandOutcome(k, l, names, n).1 == prev.1 + added;
        WarnedAppend(l, prev.1, added, names, n, DeckSize(edition));
      }
    }

    /** With no recognised name among the first n, the hand input changes
        nothing but the log, which gets one warning per name. */
    lemma {:induction false} HandOutcomeUnrecognised(k: Matrix, l: seq<Event>, names: seq<nat>, n: nat)
      requires Shaped(k, DeckSize(edition), numPlayers + 1) && |handSize| == numPlayers && n <= |names|
      requires RecognisedCount(names, DeckSize(edition)) == 0
      ensures HandOutcome(k, l, names, n) == (k, l + Warnings(names[..n]))
    {
      if n > 0 {
        HandOutcomeUnrecognised(k, l, names, n - 1);
        var name := names[n - 1];
        assert name >= DeckSize(edition);
        var prev := HandOutcome(k, l, names, n - 1);
        assert HandOutcome(k, l, names, n) == (prev.0, prev.1 + [UnrecognisedCard(name)]);
        assert Warnings(names[..n]) == Warnings(names[..n - 1]) + [UnrecognisedCard(name)];
        assert l + Warnings(names[..n]) == (l + Warnings(names[..n - 1])) + [UnrecognisedCard(name)];
      } else {
        assert l + Warnings(names[..0]) == l;
      }
    }

    /** One more name of the hand input: from the outcome of the first i
        names, an unrecognised name adds its warning and a card goes through
        the gate, reaching the outcome of the first i + 1 names. */
    lemma HandOutcomeNext(k: Matrix, l: seq<Event>, names: seq<nat>, i: nat,
                          before: Matrix, beforeLog: seq<Event>, after: Matrix, afterLog: seq<Event>)
      requires Shaped(k, DeckSize(edition), numPlayers + 1) && |handSize| == numPlayers && i < |names|
      requires user < numPlayers || RecognisedCount(names, DeckSize(edition)) == 0
      requires before == HandOutcome(k, l, names, i).0 && beforeLog == HandOutcome(k, l, names, i).1
      requires names[i] >= DeckSize(edition) ==> after == before && afterLog == beforeLog + [UnrecognisedCard(names[i])]
      requires names[i] < DeckSize(edition) ==> Updated(before, beforeLog, after, afterLog, names[i], user, HasCard)
      ensures after == HandOutcome(k, l, names, i + 1).0 && afterLog == HandOutcome(k, l, names, i + 1).1
    {
    }

    /** The i-th name of the user's hand, taken by TakeHandCard: an
        unrecognised name is warned about, a card goes through the gate as
        HasCard for the user; the hand input moves from its first i names to
        its first i + 1. */
    method TakeNextHandCard(cards: seq<nat>, i: nat, ghost start: Matrix, ghost startLog: seq<Event>)
      requires Valid() && i < |cards|
      requires user < numPlayers || RecognisedCount(cards, DeckSize(edition)) == 0
      requires Shaped(start, DeckSize(edition), numPlayers + 1)
      requires knowledge == HandOutcome(start, startLog, cards, i).0 && log == HandOutcome(start, startLog, cards, i).1
      modifies this`knowledge, this`log
      ensures Valid()
      ensures knowledge == HandOutcome(start, startLog, cards, i + 1).0 && log == HandOutcome(start, startLog, cards, i + 1).1
      ensures cards[i] >= DeckSize(edition) ==>
                knowledge == old(knowledge) && log == old(log) + [UnrecognisedCard(cards[i])]
      ensures cards[i] < DeckSize(edition) ==>
                Updated(old(knowledge), old(log), knowledge, log, cards[i], user, HasCard)
    {
      if cards[i] < DeckSize(edition) {
        assert user < numPlayers;
      }
      TakeHandCard(cards[i]);
      HandOutcomeNext(start, startLog, cards, i, old(knowledge), old(log), knowledge, log);
    }

    /** One card of the user's hand: an unrecognised name is warned about, a
        card is written HasCard for the user. */
    method TakeHandCard(name: nat)
      requires Valid() && (name < DeckSize(edition) ==> user < numPlayers)
      modifies this`knowledge, this`log
      ensures Valid() && AtLeast(old(knowledge), knowledge) && Extends(old(log), log)
      ensures name >= DeckSize(edition) ==>
                knowledge == old(knowledge) && log == old(log) + [UnrecognisedCard(name)]
      ensures name < DeckSize(edition) ==> knowledge[name][user].Rank() >= HasCard.Rank()
      ensures name < DeckSize(edition) ==> Updated(old(knowledge), old(log), knowledge, log, name, user, HasCard)
    {
      if name >= DeckSize(edition) {
        log := log + [UnrecognisedCard(name)];
      } else {
        GateAtLeast(knowledge, name, user, HasCard);
        Update(name, user, HasCard);
      }
    }

    /** One refuter's part of a turn: the log is restarted with the turn header;
        if a card was shown, the two-of-three rule applies: when two of the three
        suggested cards are known NoCard for the refuter, the remaining one is
        written HasCard for the refuter; otherwise only a note is logged. */
    method LogSuggestion(suggester: nat, suspect: nat, weapon: nat, room: nat,
                         refuter: Option<nat>, wasShown: bool)
      requires Valid()
      requires wasShown && refuter.Some? ==>
                 refuter.value < numPlayers &&
                 suspect < DeckSize(edition) && weapon < DeckSize(edition) && room < DeckSize(edition)
      modifies this`knowledge, this`log
      ensures Valid() && AtLeast(old(knowledge), knowledge)
      ensures |log| > 0 && log[0] == TurnHeader(suggester, suspect, weapon, room)
      ensures !(wasShown && refuter.Some?) ==>
                knowledge == old(knowledge) && log == [TurnHeader(suggester, suspect, weapon, room)]
      ensures wasShown && refuter.Some? ==>
                var r := refuter.value;
                RefutationNoted(old(knowledge), [TurnHeader(suggester, suspect, weapon, room)], knowledge, log,
                                r, [suspect, weapon, room])
    {
      log := [TurnHeader(suggester, suspect, weapon, room)];
      if wasShown && refuter.Some? {
        NoteRefutation(refuter.value, suspect, weapon, room);
      }
    }

    /** The outcome `after`/`afterLog` of the suggestion rule for refuter `r`
        and the suggested `cards`, from the matrix `before` and the log
        `beforeLog`: with two of the cards known NoCard for the refuter, the
        remaining one is a suggested card not known NoCard and the other two are
        NoCard; the deduction is logged and the card goes through the gate as
        HasCard for the refuter, so it ends at least HasCard and the gate's
        outcome (`Updated`) is all that changes. With one or none known NoCard,
        only a note is logged; with all three, nothing happens. */
    ghost predicate RefutationNoted(before: Matrix, beforeLog: seq<Event>, after: Matrix, afterLog: seq<Event>,
                                    r: nat, cards: seq<nat>)
      requires Suggestable(before, r, cards)
    {
      var excluded := NoCardCount(before, r, cards);
      var shown := FirstNotExcluded(before, r, cards);
      (excluded == 2 ==>
         shown.Some? && shown.value in cards && before[shown.value][r] != NoCard &&
         (forall x :: x in cards && x != shown.value ==> before[x][r] == NoCard) &&
         shown.value < |after| && r < |after[shown.value]| &&
         after[shown.value][r].Rank() >= HasCard.Rank() &&
         Extends(beforeLog + [MustHaveShown(r, shown.value)], afterLog) &&
         Updated(before, beforeLog + [MustHaveShown(r, shown.value)], after, afterLog, shown.value, r, HasCard)) &&
      (excluded == 1 ==> after == before && afterLog == beforeLog + [OneOfTwoRemaining(r)]) &&
      (excluded == 0 ==> after == before && afterLog == beforeLog + [OneOfThree(r)]) &&
      (excluded == 3 ==> after == before && afterLog == beforeLog)
    }

    /** When the suggestion rule deduces the shown card, no other player ends
        holding it unless one already did. */
    lemma RefutationSingleHolder(before: Matrix, beforeLog: seq<Event>, after: Matrix, afterLog: seq<Event>,
                                 r: nat, cards: seq<nat>, q: nat)
      requires Shaped(before, DeckSize(edition), numPlayers + 1) && Suggestable(before, r, cards)
      requires RefutationNoted(before, beforeLog, after, afterLog, r, cards)
      requires NoCardCount(before, r, cards) == 2 && q < numPlayers && q != r
      requires FirstNotExcluded(before, r, cards).Some? && FirstNotExcluded(before, r, cards).value < DeckSize(edition)
      requires before[FirstNotExcluded(before, r, cards).value][q] != HasCard
      ensures after[FirstNotExcluded(before, r, cards).value][q] != HasCard
    {
      var shown := FirstNotExcluded(before, r, cards).value;
      GateSettles(before, shown, r, HasCard);
      assert Written(before, shown, r, HasCard)[shown][q] == before[shown][q];
    }

    /** The suggestion rule for a refuter who showed a card. */
    method NoteRefutation(r: nat, suspect: nat, weapon: nat, room: nat)
      requires Valid() && r < numPlayers
      requires suspect < DeckSize(edition) && weapon < DeckSize(edition) && room < DeckSize(edition)
      modifies this`knowledge, this`log
      ensures Valid() && AtLeast(old(knowledge), knowledge)
      ensures RefutationNoted(old(knowledge), old(log), knowledge, log, r, [suspect, weapon, room])
    {
      var suggestion := [suspect, weapon, room];
      var numNoCard := NoCardCount(knowledge, r, suggestion);
      if numNoCard == 2 {
        OnlyCandidateShown(knowledge, r, suggestion);
        var cardMustBe := FirstNotExcluded(knowledge, r, suggestion).value;
        log := log + [MustHaveShown(r, cardMustBe)];
        GateAtLeast(knowledge, cardMustBe, r, HasCard);
        Update(cardMustBe, r, HasCard);
      } else if numNoCard == 1 {
        log := log + [OneOfTwoRemaining(r)];
      } else if numNoCard == 0 {
        log := log + [OneOfThree(r)];
      }
    }

    /** Writes NoCard for each of the given cards, in order, in the given
        player's column, each write followed by the solution check. */
    method RuleOut(player: nat, cards: seq<nat>)
      requires Valid() && player < numPlayers
      requires forall j :: 0 <= j < |cards| ==> cards[j] < DeckSize(edition)
      modifies this`knowledge, this`log
      ensures Valid()
      ensures knowledge == CardsRuledOut(old(knowledge), [player], 1, cards, numPlayers)
      ensures log == old(log) + CardNotes(old(knowledge), player, cards, |cards|, numPlayers)
    {
      CardsRuledOutNone(knowledge, [player], cards[..0], numPlayers);
      for i := 0 to |cards|
        invariant Valid()
        invariant knowledge == CardsRuledOut(old(knowledge), [player], 1, cards[..i], numPlayers)
        invariant log == old(log) + CardNotes(old(knowledge), player, cards, i, numPlayers)
      {
        RuleOutNext(player, cards, i, old(knowledge), old(log));
      }
      assert cards[..|cards|] == cards;
    }

    /** One step of `RuleOut`: the write for cards[i], taking the writes for
        cards[..i] from `start` and `startLog` to those for cards[..i + 1]. */
    method RuleOutNext(player: nat, cards: seq<nat>, i: nat, ghost start: Matrix, ghost startLog: seq<Event>)
      requires Valid() && player < numPlayers && i < |cards|
      requires forall j :: 0 <= j < |cards| ==> cards[j] < DeckSize(edition)
      requires Shaped(start, DeckSize(edition), numPlayers + 1)
      requires knowledge == CardsRuledOut(start, [player], 1, cards[..i], numPlayers)
      requires log == startLog + CardNotes(start, player, cards, i, numPlayers)
      modifies this`knowledge, this`log
      ensures Valid()
      ensures knowledge == CardsRuledOut(start, [player], 1, cards[..i + 1], numPlayers)
      ensures log == startLog + CardNotes(start, player, cards, i + 1, numPlayers)
    {
      CardsRuledOutNext(start, player, cards, i, numPlayers);
      WriteNoCard(cards[i], player);
    }

    /** Writes NoCard for each of the given cards in the column of each of the
        given players, player after player. */
    method RuleOutPlayers(players: seq<nat>, cards: seq<nat>)
      requires Valid()
      requires forall i :: 0 <= i < |players| ==> players[i] < numPlayers
      requires forall j :: 0 <= j < |cards| ==> cards[j] < DeckSize(edition)
      modifies this`knowledge, this`log
      ensures Valid() && AtLeast(old(knowledge), knowledge)
      ensures knowledge == CardsRuledOut(old(knowledge), players, |players|, cards, numPlayers)
      ensures log == old(log) + PlayersNotes(old(knowledge), players, |players|, cards, numPlayers)
    {
      CardsRuledOutNone(knowledge, players, cards, numPlayers);
      for i := 0 to |players|
        invariant Valid()
        invariant knowledge == CardsRuledOut(old(knowledge), players, i, cards, numPlayers)
        invariant log == old(log) + PlayersNotes(old(knowledge), players, i, cards, numPlayers)
      {
        RuleOutPlayersNext(players, cards, i, old(knowledge), old(log));
      }
      CardsRuledOutAtLeast(old(knowledge), players, |players|, cards, numPlayers);
    }

    /** One step of `RuleOutPlayers`: the writes for players[i]. */
    method RuleOutPlayersNext(players: seq<nat>, cards: seq<nat>, i: nat, ghost start: Matrix, ghost startLog: seq<Event>)
      requires Valid() && i < |players|
      requires forall j :: 0 <= j < |players| ==> players[j] < numPlayers
      requires forall j :: 0 <= j < |cards| ==> cards[j] < DeckSize(edition)
      requires Shaped(start, DeckSize(edition), numPlayers + 1)
      requires knowledge == CardsRuledOut(start, players, i, cards, numPlayers)
      requires log == startLog + PlayersNotes(start, players, i, cards, numPlayers)
      modifies this`knowledge, this`log
      ensures Valid()
      ensures knowledge == CardsRuledOut(start, players, i + 1, cards, numPlayers)
      ensures log == startLog + PlayersNotes(start, players, i + 1, cards, numPlayers)
    {
      CardsRuledOutStep(start, players, i, cards, numPlayers);
      RuleOut(players[i], cards);
    }

    /** An opponent's turn as the game page logs it: the turn header is appended;
        with refuters, each refuter's part runs (each restarting the log), then
        every player other than the suggester and the refuters is written NoCard
        for the three cards; with no refuter, a note is logged and every player,
        the suggester included, is written NoCard for the three cards. */
    method LogTurn(suggester: nat, suspect: nat, weapon: nat, room: nat, refuters: seq<nat>)
      returns (ghost mids: seq<Matrix>, ghost logs: seq<seq<Event>>)
      requires Valid()
      requires suspect < DeckSize(edition) && weapon < DeckSize(edition) && room < DeckSize(edition)
      requires forall i :: 0 <= i < |refuters| ==> refuters[i] < numPlayers
      modifies this`knowledge, this`log
      ensures Valid() && AtLeast(old(knowledge), knowledge)
      ensures refuters != [] ==>
                |log| > 0 && log[0] == TurnHeader(suggester, suspect, weapon, room) &&
                TwoOfThreeHeld(old(knowledge), knowledge, refuters[0], [suspect, weapon, room])
      ensures refuters != [] ==>
                RefutationsNoted(mids, logs, TurnHeader(suggester, suspect, weapon, room), refuters,
                                 [suspect, weapon, room]) &&
                |logs| == |refuters| && mids[0] == old(knowledge) &&
                Shaped(mids[|refuters|], DeckSize(edition), numPlayers + 1) &&
                var passers := Passers(numPlayers, suggester, refuters);
                knowledge == CardsRuledOut(mids[|refuters|], passers, |passers|, [suspect, weapon, room], numPlayers) &&
                log == logs[|refuters| - 1] +
                       PlayersNotes(mids[|refuters|], passers, |passers|, [suspect, weapon, room], numPlayers)
      ensures refuters == [] ==>
                knowledge == CardsRuledOut(old(knowledge), AllPlayers(numPlayers), numPlayers,
                                           [suspect, weapon, room], numPlayers) &&
                log == old(log) + [TurnHeader(suggester, suspect, weapon, room), NobodyRefuted] +
                       PlayersNotes(old(knowledge), AllPlayers(numPlayers), numPlayers,
                                    [suspect, weapon, room], numPlayers)
    {
      var suggestion := [suspect, weapon, room];
      log := log + [TurnHeader(suggester, suspect, weapon, room)];
      if refuters != [] {
        mids, logs := LogRefutations(suggester, suspect, weapon, room, refuters);
        ghost var before, logged := knowledge, log;
        assert before == mids[|refuters|] && logged == logs[|refuters| - 1] && |logged| > 0;
        RuleOutPlayers(Passers(numPlayers, suggester, refuters), suggestion);
        AtLeastTransitive(old(knowledge), before, knowledge);
        TwoOfThreeHeldKept(old(knowledge), before, knowledge, refuters[0], suggestion);
        assert log[0] == logged[0];
      } else {
        mids, logs := [knowledge], [];
        log := log + [NobodyRefuted];
        ghost var logged := log;
        assert logged == old(log) + [TurnHeader(suggester, suspect, weapon, room), NobodyRefuted];
        RuleOutPlayers(AllPlayers(numPlayers), suggestion);
      }
    }

    /** The first |logs| refuters' parts of a turn, one after the other: part i starts from
        `mids[i]` with the log restarted at the turn header, and its suggestion
        rule reaches `mids[i + 1]` and the log `logs[i]`. */
    ghost predicate RefutationsNoted(mids: seq<Matrix>, logs: seq<seq<Event>>, header: Event,
                                     refuters: seq<nat>, cards: seq<nat>)
    {
      |mids| == |logs| + 1 && |logs| <= |refuters| &&
      forall i :: 0 <= i < |logs| ==>
        Suggestable(mids[i], refuters[i], cards) &&
        RefutationNoted(mids[i], [header], mids[i + 1], logs[i], refuters[i], cards)
    }

    /** One more refuter's part extends the record of the parts so far. */
    lemma RefutationsNotedSnoc(mids: seq<Matrix>, logs: seq<seq<Event>>, header: Event, refuters: seq<nat>,
                               cards: seq<nat>, before: Matrix, after: Matrix, afterLog: seq<Event>, r: nat)
      requires RefutationsNoted(mids, logs, header, refuters, cards) && |logs| < |refuters|
      requires mids[|logs|] == before && refuters[|logs|] == r && Suggestable(before, r, cards)
      requires RefutationNoted(before, [header], after, afterLog, r, cards)
      ensures RefutationsNoted(mids + [after], logs + [afterLog], header, refuters, cards)
    {
      var mids', logs' := mids + [after], logs + [afterLog];
      forall i | 0 <= i < |logs'|
        ensures Suggestable(mids'[i], refuters[i], cards) &&
                RefutationNoted(mids'[i], [header], mids'[i + 1], logs'[i], refuters[i], cards)
      {
        if i < |logs| {
          assert mids'[i] == mids[i] && mids'[i + 1] == mids[i + 1] && logs'[i] == logs[i];
        }
      }
    }

    /** The refuters' parts of a turn, in order; the first one runs on the
        knowledge the turn started from, each later one on what the previous one
        left, and the log is the last part's. */
    method LogRefutations(suggester: nat, suspect: nat, weapon: nat, room: nat, refuters: seq<nat>)
      returns (ghost mids: seq<Matrix>, ghost logs: seq<seq<Event>>)
      requires Valid()
      requires suspect < DeckSize(edition) && weapon < DeckSize(edition) && room < DeckSize(edition)
      requires forall i :: 0 <= i < |refuters| ==> refuters[i] < numPlayers
      modifies this`knowledge, this`log
      ensures Valid() && AtLeast(old(knowledge), knowledge)
      ensures refuters == [] ==> knowledge == old(knowledge) && log == old(log)
      ensures refuters != [] ==>
                |log| > 0 && log[0] == TurnHeader(suggester, suspect, weapon, room) &&
                TwoOfThreeHeld(old(knowledge), knowledge, refuters[0], [suspect, weapon, room])
      ensures RefutationsNoted(mids, logs, TurnHeader(suggester, suspect, weapon, room), refuters, [suspect, weapon, room])
      ensures |logs| == |refuters| && mids[0] == old(knowledge) && mids[|refuters|] == knowledge
      ensures refuters != [] ==> log == logs[|refuters| - 1]
    {
      mids, logs := [knowledge], [];
      for i := 0 to |refuters|
        invariant Valid() && AtLeast(old(knowledge), knowledge)
        invariant i == 0 ==> knowledge == old(knowledge) && log == old(log)
        invariant i > 0 ==>
                    |log| > 0 && log[0] == TurnHeader(suggester, suspect, weapon, room) &&
                    TwoOfThreeHeld(old(knowledge), knowledge, refuters[0], [suspect, weapon, room])
        invariant RefutationsNoted(mids, logs, TurnHeader(suggester, suspect, weapon, room), refuters,
                                   [suspect, weapon, room]) && |logs| == i
        invariant mids[0] == old(knowledge) && mids[i] == knowledge
        invariant i > 0 ==> log == logs[i - 1]
      {
        ghost var before := knowledge;
        mids, logs := LogNextRefutation(suggester, suspect, weapon, room, refuters, i, mids, logs);
        AtLeastTransitive(old(knowledge), before, knowledge);
        if i > 0 {
          TwoOfThreeHeldKept(old(knowledge), before, knowledge, refuters[0], [suspect, weapon, room]);
        }
      }
    }

    /** The part of refuter number i of a turn, appended to the record of the
        parts before it. */
    method LogNextRefutation(suggester: nat, suspect: nat, weapon: nat, room: nat, refuters: seq<nat>, i: nat,
                             ghost mids: seq<Matrix>, ghost logs: seq<seq<Event>>)
      returns (ghost mids': seq<Matrix>, ghost logs': seq<seq<Event>>)
      requires Valid()
      requires suspect < DeckSize(edition) && weapon < DeckSize(edition) && room < DeckSize(edition)
      requires RefutationsNoted(mids, logs, TurnHeader(suggester, suspect, weapon, room), refuters,
                                [suspect, weapon, room])
      requires i == |logs| < |refuters| && refuters[i] < numPlayers && mids[i] == knowledge
      modifies this`knowledge, this`log
      ensures Valid() && AtLeast(old(knowledge), knowledge)
      ensures |log| > 0 && log[0] == TurnHeader(suggester, suspect, weapon, room)
      ensures TwoOfThreeHeld(old(knowledge), knowledge, refuters[i], [suspect, weapon, room])
      ensures RefutationsNoted(mids', logs', TurnHeader(suggester, suspect, weapon, room), refuters,
                               [suspect, weapon, room])
      ensures mids' == mids + [knowledge] && logs' == logs + [log]
    {
      var r := refuters[i];
      LogSuggestion(suggester, suspect, weapon, room, Some(r), true);
      RefutationsNotedSnoc(mids, logs, TurnHeader(suggester, suspect, weapon, room), refuters,
                           [suspect, weapon, room], old(knowledge), knowledge, log, r);
      mids', logs' := mids + [knowledge], logs + [log];
    }

    /** The user refuted an opponent's suggestion by showing a card: a recognised
        card is written HasCard for the user, added once to the list of cards shown
        to that opponent, and the refutation is logged; an unrecognised card only
        logs an error. */
    method RecordUserRefutation(card: nat, suggester: nat)
      requires Valid()
      requires card < DeckSize(edition) ==> user < numPlayers
      modifies this`knowledge, this`log, this`shownTo
      ensures Valid() && AtLeast(old(knowledge), knowledge) && Extends(old(log), log)
      ensures card >= DeckSize(edition) ==>
                knowledge == old(knowledge) && shownTo == old(shownTo) &&
                log == old(log) + [RefutationNotRecognised(card)]
      ensures card < DeckSize(edition) ==>
                |log| > 0 && Updated(old(knowledge), old(log), knowledge, log[..|log| - 1], card, user, HasCard)
      ensures card < DeckSize(edition) ==>
                knowledge[card][user].Rank() >= HasCard.Rank() &&
                |log| > 0 && log[|log| - 1] == UserRefuted(suggester, card) &&
                shownTo == (if suggester in old(shownTo) && card !in old(shownTo)[suggester]
                            then old(shownTo)[suggester := old(shownTo)[suggester] + [card]]
                            else old(shownTo))
      ensures card < DeckSize(edition) && suggester in old(shownTo) ==>
                card in shownTo[suggester] && old(shownTo)[suggester] <= shownTo[suggester] &&
                |shownTo[suggester]| <= |old(shownTo)[suggester]| + 1
      ensures HistoryDistinct(old(shownTo)) ==> HistoryDistinct(shownTo)
      ensures shownTo.Keys == old(shownTo).Keys
    {
      if card < DeckSize(edition) {
        GateAtLeast(knowledge, card, user, HasCard);
        Update(card, user, HasCard);
        NoteShownCard(card, suggester);
        ghost var logged := log;
        log := log + [UserRefuted(suggester, card)];
        assert log[..|log| - 1] == logged;
      } else {
        log := log + [RefutationNotRecognised(card)];
      }
    }

    /** The card the user showed is added once to the list of cards shown to
        the suggester, when the suggester has a list. */
    method NoteShownCard(card: nat, suggester: nat)
      modifies this`shownTo
      ensures shownTo == (if suggester in old(shownTo) && card !in old(shownTo)[suggester]
                          then old(shownTo)[suggester := old(shownTo)[suggester] + [card]]
                          else old(shownTo))
      ensures suggester in old(shownTo) ==>
                card in shownTo[suggester] && old(shownTo)[suggester] <= shownTo[suggester] &&
                |shownTo[suggester]| <= |old(shownTo)[suggester]| + 1
      ensures HistoryDistinct(old(shownTo)) ==> HistoryDistinct(shownTo)
      ensures shownTo.Keys == old(shownTo).Keys
    {
      if suggester in shownTo && card !in shownTo[suggester] {
        shownTo := shownTo[suggester := shownTo[suggester] + [card]];
      }
    }

    /** The read-only summary: per category the card found in the envelope, the
        header, one row of display symbols per card, per category the cards still
        possible, and the shown-card history. */
    method StatusSummary() returns (summary: Summary)
      requires Valid()
      ensures forall cat :: Lookup(summary.solution, cat) ==
                LastInEnvelope(knowledge, numPlayers, CategoryStart(edition, cat), CategoryEnd(edition, cat))
      ensures summary.header == Header(numPlayers)
      ensures |summary.table| == DeckSize(edition)
      ensures forall c :: 0 <= c < |summary.table| ==>
                summary.table[c].card == c && |summary.table[c].symbols| == numPlayers + 1 &&
                forall l :: 0 <= l <= numPlayers ==> summary.table[c].symbols[l] == Symbol(knowledge[c][l])
      ensures forall cat :: cat in summary.possibilities &&
                summary.possibilities[cat] ==
                  PossibleCards(knowledge, numPlayers, CategoryStart(edition, cat), CategoryEnd(edition, cat))
      ensures summary.shownTo == shownTo
      ensures forall cat :: cat in summary.solution ==>
                InCategory(edition, summary.solution[cat], cat) &&
                knowledge[summary.solution[cat]][numPlayers] == InEnvelope
      ensures forall cat, c: nat :: cat in summary.possibilities ==>
                (c in summary.possibilities[cat] <==>
                   InCategory(edition, c, cat) && StillPossible(knowledge[c][numPlayers]))
    {
      var solution := SolutionCards();
      var table := SymbolTable();
      var possibilities := RemainingPossibilities();
      summary := Summary(solution, Header(numPlayers), table, possibilities, shownTo);
    }

    /** Per category, the card whose envelope cell is InEnvelope (the last one in
        catalog order, should there be several); no entry when there is none. */
    method SolutionCards() returns (solution: map<Category, nat>)
      requires Valid()
      ensures forall cat :: Lookup(solution, cat) ==
                LastInEnvelope(knowledge, numPlayers, CategoryStart(edition, cat), CategoryEnd(edition, cat))
      ensures forall cat :: cat in solution ==>
                InCategory(edition, solution[cat], cat) && knowledge[solution[cat]][numPlayers] == InEnvelope
    {
      solution := map[];
      for i := 0 to |Categories|
        invariant forall j :: 0 <= j < i ==>
                    Lookup(solution, Categories[j]) ==
                    LastInEnvelope(knowledge, numPlayers, CategoryStart(edition, Categories[j]), CategoryEnd(edition, Categories[j]))
        invariant forall j :: i <= j < |Categories| ==> Categories[j] !in solution
      {
        var cat := Categories[i];
        ghost var before := solution;
        for c := CategoryStart(edition, cat) to CategoryEnd(edition, cat)
          invariant Lookup(solution, cat) == LastInEnvelope(knowledge, numPlayers, CategoryStart(edition, cat), c)
          invariant forall other :: other != cat ==> Lookup(solution, other) == Lookup(before, other)
        {
          if knowledge[c][numPlayers] == InEnvelope {
            solution := solution[cat := c];
          }
        }
        forall j | i < j < |Categories| ensures Categories[j] !in solution {
          assert Lookup(solution, Categories[j]) == Lookup(before, Categories[j]);
        }
      }
      forall cat ensures Lookup(solution, cat) ==
                LastInEnvelope(knowledge, numPlayers, CategoryStart(edition, cat), CategoryEnd(edition, cat))
      {
        assert Categories[CategoryIndex(cat)] == cat;
      }
      forall cat | cat in solution
        ensures InCategory(edition, solution[cat], cat) && knowledge[solution[cat]][numPlayers] == InEnvelope
      {
        assert Lookup(solution, cat) == Some(solution[cat]);
        LastInEnvelopeFinds(knowledge, numPlayers, CategoryStart(edition, cat), CategoryEnd(edition, cat));
      }
    }

    /** One row per card in deck order: the card, then the symbol of each
        location's status, players first and the envelope last. */
    method SymbolTable() returns (table: seq<Row>)
      requires Valid()
      ensures |table| == DeckSize(edition)
      ensures forall c :: 0 <= c < |table| ==>
                table[c].card == c && |table[c].symbols| == numPlayers + 1 &&
                forall l :: 0 <= l <= numPlayers ==> table[c].symbols[l] == Symbol(knowledge[c][l])
    {
      table := [];
      for c := 0 to DeckSize(edition)
        invariant |table| == c
        invariant forall j :: 0 <= j < c ==>
                    table[j].card == j && |table[j].symbols| == numPlayers + 1 &&
                    forall l :: 0 <= l <= numPlayers ==> table[j].symbols[l] == Symbol(knowledge[j][l])
      {
        var symbols: seq<string> := [];
        for l := 0 to numPlayers + 1
          invariant |symbols| == l
          invariant forall m :: 0 <= m < l ==> symbols[m] == Symbol(knowledge[c][m])
        {
          symbols := symbols + [Symbol(knowledge[c][l])];
        }
        table := table + [Row(c, symbols)];
      }
    }

    /** Per category, the cards whose envelope cell is neither NoCard nor
        InEnvelope, in catalog order. */
    method RemainingPossibilities() returns (possibilities: map<Category, seq<nat>>)
      requires Valid()
      ensures forall cat :: cat in possibilities &&
                possibilities[cat] ==
                  PossibleCards(knowledge, numPlayers, CategoryStart(edition, cat), CategoryEnd(edition, cat))
      ensures forall cat, c: nat :: cat in possibilities ==>
                (c in possibilities[cat] <==> InCategory(edition, c, cat) && StillPossible(knowledge[c][numPlayers]))
    {
      possibilities := map[];
      for i := 0 to |Categories|
        invariant forall j :: 0 <= j < i ==>
                    Categories[j] in possibilities &&
                    possibilities[Categories[j]] ==
                    PossibleCards(knowledge, numPlayers, CategoryStart(edition, Categories[j]), CategoryEnd(edition, Categories[j]))
      {
        var cat := Categories[i];
        possibilities := possibilities[cat := PossibleCards(knowledge, numPlayers, CategoryStart(edition, cat), CategoryEnd(edition, cat))];
      }
      forall cat ensures cat in possibilities &&
                possibilities[cat] ==
                  PossibleCards(knowledge, numPlayers, CategoryStart(edition, cat), CategoryEnd(edition, cat))
      {
        assert Categories[CategoryIndex(cat)] == cat;
      }
      forall cat, c: nat | cat in possibilities
        ensures c in possibilities[cat] <==> InCategory(edition, c, cat) && StillPossible(knowledge[c][numPlayers])
      {
        PossibleCardsExactly(knowledge, numPlayers, CategoryStart(edition, cat), CategoryEnd(edition, cat));
      }
    }
  }
}
