/** The rules that act on one card's row of the knowledge matrix: the two rules
    of the solution check, a NoCard write followed by that check, and the
    "every other location" fill that follows a HasCard or InEnvelope write.
    In a row, the locations below `players` are the players in roster order and
    location `players` is the envelope. */
module Rules {
  import opened Wrappers
  import opened Knowledge

  /** Strictly increasing, hence without repetitions. */
  predicate Increasing(s: seq<nat>)
  {
    forall i, j :: 0 <= i < j < |s| ==> s[i] < s[j]
  }

  /** The players whose cell in `row` is Unknown, in roster order. */
  function UnknownPlayers(row: seq<Status>, players: nat): (r: seq<nat>)
    requires players <= |row|
    ensures forall x :: x in r <==> 0 <= x < players && row[x] == Unknown
    ensures Increasing(r)
  {
    if players == 0 then []
    else
      var prefix := UnknownPlayers(row, players - 1);
      assert forall i :: 0 <= i < |prefix| ==> prefix[i] in prefix;
      prefix + (if row[players - 1] == Unknown then [players - 1] else [])
  }

  /** The envelope is still Unknown and every player is known not to hold the card. */
  predicate EnvelopeInferable(row: seq<Status>, players: nat)
    requires players < |row|
  {
    row[players] == Unknown && forall p :: 0 <= p < players ==> row[p] == NoCard
  }

  /** The one player that can still hold the card, when exactly one player is
      Unknown, every other player is NoCard and the envelope is NoCard. */
  function LastHolder(row: seq<Status>, players: nat): (r: Option<nat>)
    requires players < |row|
    ensures r.Some? ==> r.value < players && row[r.value] == Unknown && row[players] == NoCard
    ensures r.Some? ==> forall q :: 0 <= q < players && q != r.value ==> row[q] == NoCard
  {
    var unknown := UnknownPlayers(row, players);
    if |unknown| == 1 && (forall q :: 0 <= q < players && q != unknown[0] ==> row[q] == NoCard) && row[players] == NoCard
    then assert unknown[0] in unknown; Some(unknown[0])
    else None
  }

  /** LastHolder picks player p exactly when p is the only player not yet ruled
      out, p is still Unknown, and the envelope is ruled out. */
  lemma LastHolderExactly(row: seq<Status>, players: nat, p: nat)
    requires players < |row|
    ensures LastHolder(row, players) == Some(p) <==>
            p < players && row[p] == Unknown && row[players] == NoCard &&
            forall q :: 0 <= q < players && q != p ==> row[q] == NoCard
  {
    var unknown := UnknownPlayers(row, players);
    if p < players && row[p] == Unknown && row[players] == NoCard &&
       forall q :: 0 <= q < players && q != p ==> row[q] == NoCard
    {
      assert p in unknown;
      forall i | 0 <= i < |unknown| ensures unknown[i] == p {
        assert unknown[i] in unknown;
      }
      assert unknown[0] == unknown[|unknown| - 1];
    }
    if LastHolder(row, players) == Some(p) {
      assert unknown[0] in unknown;
    }
  }

  /** In a row where the envelope is ruled out only because some player holds
      the card, the last-holder rule finds nobody: the holder is neither
      Unknown nor NoCard. */
  lemma LastHolderDead(row: seq<Status>, players: nat)
    requires players < |row| && RowAnchored(row, players)
    ensures LastHolder(row, players) == None
  {
  }

  /** The envelope rule: the envelope becomes InEnvelope when it is still
      Unknown and every player is NoCard. */
  function EnvelopeRule(row: seq<Status>, players: nat): (r: seq<Status>)
    requires players < |row|
    ensures |r| == |row|
  {
    if EnvelopeInferable(row, players) then row[players := InEnvelope] else row
  }

  /** In a row some player holds, or whose envelope is ruled in, the envelope
      rule has nothing to write. */
  lemma EnvelopeRuleSettled(row: seq<Status>, players: nat)
    requires players < |row| && !Open(row, players)
    ensures !EnvelopeInferable(row, players) && EnvelopeRule(row, players) == row
  {
  }

  /** A NoCard write at location `l` through the gate, followed by the solution
      check: an Unknown cell becomes NoCard and the envelope rule runs; a known
      cell is left alone. */
  function RuleOutCell(row: seq<Status>, l: nat, players: nat): (r: seq<Status>)
    requires l < |row| && players < |row|
    ensures |r| == |row|
  {
    if row[l] == Unknown then EnvelopeRule(row[l := NoCard], players) else row
  }

  /** Every location below `upTo` other than `except` filled: NoCard where it
      was Unknown, unchanged otherwise. */
  function FillRow(row: seq<Status>, except: nat, upTo: nat): (r: seq<Status>)
    requires upTo <= |row|
    ensures |r| == |row|
  {
    seq(|row|, l requires 0 <= l < |row| => if l < upTo && l != except then Filled(row[l]) else row[l])
  }

  /** The row after NoCard writes at the players ps[0], ..., ps[n-1], in that
      order, each followed by the solution check. */
  function RowRuledOut(row: seq<Status>, ps: seq<nat>, n: nat, players: nat): (r: seq<Status>)
    requires n <= |ps| && players < |row| && forall i :: 0 <= i < |ps| ==> ps[i] < players
    ensures |r| == |row|
  {
    if n == 0 then row else RuleOutCell(RowRuledOut(row, ps, n - 1, players), ps[n - 1], players)
  }

  /** A NoCard write at a player: that cell ends NoCard where it was Unknown and
      is kept otherwise, every other player is kept, and the envelope becomes
      InEnvelope exactly when the write filled a cell, the envelope was Unknown
      and every player now is NoCard; otherwise it is kept. */
  lemma RuleOutCellExactly(row: seq<Status>, l: nat, players: nat)
    requires l < players && |row| == players + 1
    ensures var r := RuleOutCell(row, l, players);
            r[l] == Filled(row[l]) &&
            (forall p :: 0 <= p < players && p != l ==> r[p] == row[p]) &&
            r[players] == (if row[l] == Unknown && row[players] == Unknown &&
                              forall p :: 0 <= p < players ==> r[p] == NoCard
                           then InEnvelope else row[players])
  {
  }

  /** NoCard writes at the players ps[..n]: each of those players ends NoCard
      where it was Unknown and is kept otherwise, every other player is kept,
      and the envelope becomes InEnvelope exactly when it was Unknown, some
      write filled a cell and every player now is NoCard; otherwise it is kept. */
  lemma {:induction false} RowRuledOutExactly(row: seq<Status>, ps: seq<nat>, n: nat, players: nat)
    requires n <= |ps| && |row| == players + 1 && forall i :: 0 <= i < |ps| ==> ps[i] < players
    ensures var r := RowRuledOut(row, ps, n, players);
            (forall p :: 0 <= p < players ==> r[p] == if p in ps[..n] then Filled(row[p]) else row[p]) &&
            r[players] == (if row[players] == Unknown && (exists j :: 0 <= j < n && row[ps[j]] == Unknown) &&
                              forall p :: 0 <= p < players ==> r[p] == NoCard
                           then InEnvelope else row[players])
  {
    if n > 0 {
      RowRuledOutExactly(row, ps, n - 1, players);
      var prev := RowRuledOut(row, ps, n - 1, players);
      var q := ps[n - 1];
      RuleOutCellExactly(prev, q, players);
      assert ps[..n] == ps[..n - 1] + [q];
      if prev[q] != Unknown && row[q] == Unknown {
        // q was written before, so an earlier write already found it Unknown
        assert q in ps[..n - 1];
        var j :| 0 <= j < n - 1 && ps[..n - 1][j] == q;
        assert row[ps[j]] == Unknown;
      }
      if prev[q] == Unknown {
        assert q !in ps[..n - 1];
      }
    }
  }

  /** The NoCard writes of RowRuledOut only fill Unknown cells, and the
      envelope only once every player is NoCard. */
  lemma RowRuledOutSettles(row: seq<Status>, ps: seq<nat>, n: nat, players: nat)
    requires n <= |ps| && |row| == players + 1 && forall i :: 0 <= i < |ps| ==> ps[i] < players
    ensures RowSettles(row, RowRuledOut(row, ps, n, players), players)
  {
    RowRuledOutExactly(row, ps, n, players);
  }

  /** A NoCard write only fills an Unknown cell, and the envelope only once
      every player is NoCard. */
  lemma RuleOutCellSettles(row: seq<Status>, l: nat, players: nat)
    requires l < players && |row| == players + 1
    ensures RowSettles(row, RuleOutCell(row, l, players), players)
  {
    RuleOutCellExactly(row, l, players);
  }

  /** A fill in a row whose cells are all known already changes nothing. */
  lemma FillRowKnown(row: seq<Status>, except: nat, upTo: nat)
    requires upTo <= |row|
    requires forall l :: 0 <= l < upTo && l != except ==> row[l] != Unknown
    ensures FillRow(row, except, upTo) == row
  {
  }

  /** Filling a row changes only Unknown cells, each to NoCard. */
  lemma FillRowSettles(row: seq<Status>, except: nat, upTo: nat, players: nat)
    requires upTo <= |row|
    ensures RowSettles(row, FillRow(row, except, upTo), players)
  {
  }

  /** In a row that some player holds, a NoCard write at any other location is
      one more step of the fill, and the envelope rule does not fire. */
  lemma FillRowHeldStep(row: seq<Status>, holder: nat, n: nat, players: nat)
    requires |row| == players + 1 && holder < players && row[holder] == HasCard
    requires n <= players && n != holder
    ensures FillRow(row, holder, n)[n] == Unknown ==>
              !EnvelopeInferable(FillRow(row, holder, n)[n := NoCard], players)
    ensures RuleOutCell(FillRow(row, holder, n), n, players) == FillRow(row, holder, n + 1)
  {
    var f := FillRow(row, holder, n);
    if f[n] == Unknown {
      assert f[n := NoCard][holder] == HasCard;
    }
  }

  /** In a row whose envelope is InEnvelope, a NoCard write at a player is one
      more step of the fill, and the envelope rule does not fire. */
  lemma FillRowEnvelopeStep(row: seq<Status>, n: nat, players: nat)
    requires |row| == players + 1 && row[players] == InEnvelope && n < players
    ensures FillRow(row, players, n)[n] == Unknown ==>
              !EnvelopeInferable(FillRow(row, players, n)[n := NoCard], players)
    ensures RuleOutCell(FillRow(row, players, n), n, players) == FillRow(row, players, n + 1)
  {
  }

  /** Skipping the excepted location, or filling nothing, leaves the fill as it is. */
  lemma FillRowSkip(row: seq<Status>, except: nat, n: nat)
    requires n < |row|
    ensures FillRow(row, except, 0) == row
    ensures FillRow(row, n, n + 1) == FillRow(row, n, n)
  {
  }
}
