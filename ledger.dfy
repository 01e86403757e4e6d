/**
 * Player stats as a function of the match ledger: every settled match gives each of its
 * two players one game and its winner one win.
 */
module Ledger {
  import opened Outcomes
  import opened Records

  const NoGames := PlayerStats(0, 0)

  /** The stats row of `u`, or zeros when no row exists yet (a missing row starts at 0). */
  function Row(stats: map<int, PlayerStats>, u: int): (s: PlayerStats)
    ensures u !in stats ==> s == NoGames
  {
    if u in stats then stats[u] else NoGames
  }

  /**
   * What a settled match adds to `u`'s row: one game if `u` played in it, plus one win if
   * `u` won. An unsettled match adds nothing.
   */
  function Credit(s: PlayerStats, m: Match, u: int): (r: PlayerStats)
    ensures m.winner.None? || !Participates(m, u) ==> r == s
    ensures m.winner.Some? && Participates(m, u) ==> r.games == s.games + 1
    ensures r.wins == s.wins + 1 <==> m.winner == Some(u) && Participates(m, u)
    ensures r.wins == s.wins || r.wins == s.wins + 1
    ensures r.wins - s.wins <= r.games - s.games
  {
    if m.winner.Some? && Participates(m, u) then
      PlayerStats(s.games + 1, if m.winner == Some(u) then s.wins + 1 else s.wins)
    else s
  }

  /** The stats of `u` that the settled matches of the ledger `ms` account for. */
  function Tally(ms: seq<Match>, u: int): PlayerStats {
    if ms == [] then NoGames else Credit(Tally(ms[..|ms| - 1], u), ms[|ms| - 1], u)
  }

  /** A player who never appears in the ledger has played nothing. */
  lemma {:induction false} TallyOfStranger(ms: seq<Match>, u: int)
    requires forall m :: m in ms ==> !Participates(m, u)
    ensures Tally(ms, u) == NoGames
  {
    if ms != [] {
      var n := |ms| - 1;
      assert forall m :: m in ms[..n] ==> m in ms;
      TallyOfStranger(ms[..n], u);
      assert ms[n] in ms;
    }
  }

  /** Every player's wins never exceed their games, as long as winners are players. */
  lemma {:induction false} WinsAtMostGames(ms: seq<Match>, u: int)
    requires forall m :: m in ms ==> WellFormedMatch(m)
    ensures Tally(ms, u).wins <= Tally(ms, u).games
  {
    if ms != [] {
      var n := |ms| - 1;
      assert forall m :: m in ms[..n] ==> m in ms;
      WinsAtMostGames(ms[..n], u);
      assert ms[n] in ms;
    }
  }

  lemma TallyAppend(ms: seq<Match>, m: Match, u: int)
    ensures Tally(ms + [m], u) == Credit(Tally(ms, u), m, u)
  {
    assert (ms + [m])[..|ms|] == ms;
  }

  /**
   * Settling the unsettled match at position `i` with some winner changes the tally of
   * every player as that one match's credit says, and no other way.
   */
  lemma {:induction false} TallySettle(ms: seq<Match>, i: nat, w: int, u: int)
    requires i < |ms| && ms[i].winner.None?
    ensures Tally(ms[i := ms[i].(winner := Some(w))], u) == Credit(Tally(ms, u), ms[i].(winner := Some(w)), u)
  {
    var settled := ms[i := ms[i].(winner := Some(w))];
    var n := |ms| - 1;
    if i == n {
      assert settled[..n] == ms[..n];
    } else {
      assert settled[..n] == ms[..n][i := ms[i].(winner := Some(w))];
      TallySettle(ms[..n], i, w, u);
    }
  }

  /**
   * The two row updates that follow a settlement (player 1's row, then player 2's) credit
   * the settled match to every player: each player a game, the winner a win, and the rows
   * of everyone else unchanged. The rows of both players exist afterwards.
   */
  lemma CreditBothPlayers(s0: map<int, PlayerStats>, s1: map<int, PlayerStats>, s2: map<int, PlayerStats>, m: Match)
    requires WellFormedMatch(m) && m.winner.Some?
    requires s1 == s0[m.player1 := Credit(Row(s0, m.player1), m, m.player1)]
    requires s2 == s1[m.player2 := Credit(Row(s1, m.player2), m, m.player2)]
    ensures forall u :: Row(s2, u) == Credit(Row(s0, u), m, u)
    ensures s2.Keys == s0.Keys + {m.player1, m.player2}
    ensures forall u :: Row(s2, u).games == Row(s0, u).games + (if Participates(m, u) then 1 else 0)
    ensures forall u :: Row(s2, u).wins == Row(s0, u).wins + (if m.winner == Some(u) then 1 else 0)
  {
    forall u ensures Row(s2, u) == Credit(Row(s0, u), m, u) {
      if u != m.player1 && u != m.player2 {
        assert Row(s2, u) == Row(s0, u);
      }
    }
  }
}
