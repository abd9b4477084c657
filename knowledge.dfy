/** The knowledge store: a matrix from (card, location) to a status drawn from
    a four-value order, the display symbols of the statuses, and the measure
    that makes cascades of strictly raising writes terminate. */
module Knowledge {

  /** Unknown < NoCard < HasCard < InEnvelope, compared through Rank. */
  datatype Status = Unknown | NoCard | HasCard | InEnvelope {

    /** The numeric value the statuses are stored under (0, 1, 2, 3). */
    function Rank(): (r: nat)
      ensures r <= 3
      ensures r == 0 <==> this == Unknown
      ensures r == 1 <==> this == NoCard
      ensures r == 2 <==> this == HasCard
      ensures r == 3 <==> this == InEnvelope
    {
      match this
      case Unknown => 0
      case NoCard => 1
      case HasCard => 2
      case InEnvelope => 3
    }
  }

  /** knowledge[card][location]; locations are the players, then the envelope. */
  type Matrix = seq<seq<Status>>

  predicate Shaped(k: Matrix, cards: nat, locations: nat)
  {
    |k| == cards && forall c :: 0 <= c < |k| ==> |k[c]| == locations
  }

  /** `after` has the shape of `before` and no cell of it is lower. */
  ghost predicate AtLeast(before: Matrix, after: Matrix)
  {
    |after| == |before| &&
    (forall c :: 0 <= c < |before| ==> |after[c]| == |before[c]|) &&
    (forall c, l :: 0 <= c < |before| && 0 <= l < |before[c]| ==> before[c][l].Rank() <= after[c][l].Rank())
  }

  lemma AtLeastTransitive(a: Matrix, b: Matrix, c: Matrix)
    requires AtLeast(a, b) && AtLeast(b, c)
    ensures AtLeast(a, c)
  {
  }

  /** Raising one cell gives a matrix at least as high. */
  lemma RaiseAtLeast(k: Matrix, c: nat, l: nat, s: Status)
    requires c < |k| && l < |k[c]| && k[c][l].Rank() <= s.Rank()
    ensures AtLeast(k, k[c := k[c][l := s]])
  {
  }

  /** No player holds the card and it is not in the envelope (locations below
      `players` are the players, location `players` the envelope). */
  predicate Open(row: seq<Status>, players: nat)
  {
    (players < |row| ==> row[players] != InEnvelope) &&
    forall p :: 0 <= p < players && p < |row| ==> row[p] != HasCard
  }

  /** Every card is placed by location kind: the envelope never holds it as a
      player would, and no player cell is InEnvelope. */
  predicate Placed(k: Matrix, players: nat)
  {
    (forall c :: 0 <= c < |k| && players < |k[c]| ==> k[c][players] != HasCard) &&
    (forall c, p :: 0 <= c < |k| && 0 <= p < players && players < |k[c]| ==> k[c][p] != InEnvelope)
  }

  /** The envelope is ruled out for a card only in a row where some player
      holds it. */
  predicate RowAnchored(row: seq<Status>, players: nat)
  {
    players < |row| && row[players] == NoCard ==> !Open(row, players)
  }

  predicate Anchored(k: Matrix, players: nat)
  {
    forall c :: 0 <= c < |k| ==> RowAnchored(k[c], players)
  }

  /** The matrix after the gated write alone, before any cascade. */
  ghost function Written(k: Matrix, c: nat, l: nat, s: Status): Matrix
    requires c < |k| && l < |k[c]|
  {
    if k[c][l].Rank() < s.Rank() then k[c := k[c][l := s]] else k
  }

  /** Going from row `before` to row `after`, only Unknown cells changed: each
      became NoCard, except that the envelope (location `players`) may become
      InEnvelope once every player is NoCard. */
  ghost predicate RowSettles(before: seq<Status>, after: seq<Status>, players: nat)
  {
    |after| == |before| &&
    forall l :: 0 <= l < |before| && after[l] != before[l] ==>
      before[l] == Unknown &&
      (after[l] == NoCard ||
       (l == players && after[l] == InEnvelope && forall p :: 0 <= p < players ==> after[p] == NoCard))
  }

  /** Every row settles: the only changes the cascades of NoCard writes make. */
  ghost predicate Settles(before: Matrix, after: Matrix, players: nat)
  {
    |after| == |before| && forall c :: 0 <= c < |before| ==> RowSettles(before[c], after[c], players)
  }

  lemma RowSettlesTransitive(a: seq<Status>, b: seq<Status>, c: seq<Status>, players: nat)
    requires RowSettles(a, b, players) && RowSettles(b, c, players)
    ensures RowSettles(a, c, players)
  {
    forall l | 0 <= l < |a| && c[l] != a[l] && b[l] != a[l] && c[l] == InEnvelope
      ensures forall p :: 0 <= p < players ==> c[p] == NoCard
    {
      forall p | 0 <= p < players ensures c[p] == NoCard {
        assert b[p] == NoCard;
      }
    }
  }

  lemma SettlesTransitive(a: Matrix, b: Matrix, c: Matrix, players: nat)
    requires Settles(a, b, players) && Settles(b, c, players)
    ensures Settles(a, c, players)
  {
    forall i | 0 <= i < |a| ensures RowSettles(a[i], c[i], players) {
      RowSettlesTransitive(a[i], b[i], c[i], players);
    }
  }

  lemma SettlesAtLeast(k: Matrix, k': Matrix, players: nat)
    requires Settles(k, k', players)
    ensures AtLeast(k, k')
  {
    forall c, l | 0 <= c < |k| && 0 <= l < |k[c]| ensures k[c][l].Rank() <= k'[c][l].Rank() {
      assert RowSettles(k[c], k'[c], players);
    }
  }

  /** What a cascade writes into an Unknown cell when it has nothing to infer. */
  function Filled(s: Status): (t: Status)
    ensures t != Unknown
    ensures s != Unknown ==> t == s
  {
    if s == Unknown then NoCard else s
  }

  /** Sum over the cells of a row of the distance of the cell to the top status. */
  ghost function RowPotential(row: seq<Status>): nat
  {
    if row == [] then 0 else (3 - row[0].Rank()) + RowPotential(row[1..])
  }

  /** Sum over all cells of the distance of the cell to the top status. */
  ghost function Potential(k: Matrix): nat
  {
    if k == [] then 0 else RowPotential(k[0]) + Potential(k[1..])
  }

  lemma {:induction false} RowRaiseLowersPotential(row: seq<Status>, l: nat, s: Status)
    requires l < |row| && row[l].Rank() < s.Rank()
    ensures RowPotential(row[l := s]) < RowPotential(row)
  {
    if l == 0 {
      assert row[l := s][1..] == row[1..];
    } else {
      RowRaiseLowersPotential(row[1..], l - 1, s);
      assert row[l := s][1..] == row[1..][l - 1 := s];
    }
  }

  lemma {:induction false} RowAtLeastPotential(row: seq<Status>, row': seq<Status>)
    requires |row'| == |row|
    requires forall i :: 0 <= i < |row| ==> row[i].Rank() <= row'[i].Rank()
    ensures RowPotential(row') <= RowPotential(row)
  {
    if row != [] {
      RowAtLeastPotential(row[1..], row'[1..]);
    }
  }

  /** A write that strictly raises one cell strictly lowers the potential. */
  lemma {:induction false} RaiseLowersPotential(k: Matrix, c: nat, l: nat, s: Status)
    requires c < |k| && l < |k[c]| && k[c][l].Rank() < s.Rank()
    ensures Potential(k[c := k[c][l := s]]) < Potential(k)
  {
    if c == 0 {
      RowRaiseLowersPotential(k[0], l, s);
      assert k[c := k[c][l := s]][1..] == k[1..];
    } else {
      RaiseLowersPotential(k[1..], c - 1, l, s);
      assert k[c := k[c][l := s]][1..] == k[1..][c - 1 := k[1..][c - 1][l := s]];
    }
  }

  /** Raising cells never raises the potential. */
  lemma {:induction false} AtLeastPotential(k: Matrix, k': Matrix)
    requires AtLeast(k, k')
    ensures Potential(k') <= Potential(k)
  {
    if k != [] {
      RowAtLeastPotential(k[0], k'[0]);
      assert AtLeast(k[1..], k'[1..]) by {
        forall c, l | 0 <= c < |k[1..]| && 0 <= l < |k[1..][c]|
          ensures k[1..][c][l].Rank() <= k'[1..][c][l].Rank()
        {
          assert k[1..][c] == k[c + 1] && k'[1..][c] == k'[c + 1];
        }
      }
      AtLeastPotential(k[1..], k'[1..]);
    }
  }

  /** The display symbol of a status: blank, cross, tick, star. */
  function Symbol(s: Status): (sym: string)
    ensures |sym| <= 1
    ensures sym == "" <==> s == Unknown
  {
    match s
    case Unknown => ""
    case NoCard => "✗"
    case HasCard => "✓"
    case InEnvelope => "⭐"
  }

  /** The table shows distinct statuses by distinct symbols. */
  lemma SymbolInjective(s: Status, t: Status)
    ensures Symbol(s) == Symbol(t) ==> s == t
  {
  }
}
