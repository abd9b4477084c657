/** How many cards each player holds: the deck is dealt as evenly as possible,
    and the first players in roster order (the user first) get the extra cards. */
module HandAllocation {

  function Sum(s: seq<nat>): nat
  {
    if s == [] then 0 else s[0] + Sum(s[1..])
  }

  lemma {:induction false} SumAppend(s: seq<nat>, x: nat)
    ensures Sum(s + [x]) == Sum(s) + x
  {
    if s != [] {
      assert (s + [x])[1..] == s[1..] + [x];
      SumAppend(s[1..], x);
    }
  }

  /** Hand size of the player at roster position i. */
  function Share(total: nat, players: nat, i: nat): nat
    requires players > 0
  {
    total / players + (if i < total % players then 1 else 0)
  }

  /** Hand sizes of all players, in roster order. */
  function HandSizes(total: nat, players: nat): seq<nat>
    requires players > 0
  {
    seq(players, i requires 0 <= i < players => Share(total, players, i))
  }

  function Min(a: nat, b: nat): nat
  {
    if a <= b then a else b
  }

  lemma {:induction false} HandSizesPrefixSum(total: nat, players: nat, n: nat)
    requires 0 < players && n <= players
    ensures Sum(HandSizes(total, players)[..n]) == n * (total / players) + Min(n, total % players)
  {
    if n > 0 {
      var sizes := HandSizes(total, players);
      var q, r := total / players, total % players;
      HandSizesPrefixSum(total, players, n - 1);
      assert sizes[..n] == sizes[..n - 1] + [sizes[n - 1]];
      SumAppend(sizes[..n - 1], sizes[n - 1]);
      assert sizes[n - 1] == q + (if n - 1 < r then 1 else 0);
      assert (n - 1) * q + q == n * q;
    }
  }

  /** The hands together hold exactly the whole deck. */
  lemma HandSizesSum(total: nat, players: nat)
    requires players > 0
    ensures Sum(HandSizes(total, players)) == total
  {
    var sizes := HandSizes(total, players);
    HandSizesPrefixSum(total, players, players);
    assert sizes[..players] == sizes;
  }

  /** Every hand has the even share or one card more, and exactly the first
      `total % players` players get the extra card. */
  lemma HandSizesBalanced(total: nat, players: nat, i: nat)
    requires 0 <= i < players
    ensures var size := HandSizes(total, players)[i];
            (size == total / players || size == total / players + 1) &&
            (size == total / players + 1 <==> i < total % players)
  {
  }

  /** 21 cards among 3 players give 7/7/7; 30 cards among 4 give 8/8/7/7. */
  lemma HandSizesOfStandardDecks()
    ensures HandSizes(21, 3) == [7, 7, 7]
    ensures HandSizes(30, 4) == [8, 8, 7, 7]
  {
  }

  /** Fills the table of hand sizes player by player. */
  method AllocateHands(total: nat, players: nat) returns (sizes: seq<nat>)
    requires players > 0
    ensures sizes == HandSizes(total, players)
    ensures Sum(sizes) == total
  {
    var perPlayer := total / players;
    var remainder := total % players;
    sizes := seq(players, _ => 0);
    for i := 0 to players
      invariant |sizes| == players
      invariant forall j :: 0 <= j < i ==> sizes[j] == Share(total, players, j)
    {
      sizes := sizes[i := perPlayer + (if i < remainder then 1 else 0)];
    }
    HandSizesSum(total, players);
  }
}
