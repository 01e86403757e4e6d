/**
 * The roster check of createTournament and the bracket state machine of getNextMatch,
 * as functions over a tournament's roster and its matches in creation order.
 */
module Bracket {
  import opened Outcomes
  import opened Records

  predicate Distinct(ids: seq<int>) {
    forall i, j :: 0 <= i < j < |ids| ==> ids[i] != ids[j]
  }

  /**
   * `new Set(ids)`: exactly the ids of the list, and exactly as many of them as the list
   * is long iff the list has no repeats.
   */
  function ToSet(ids: seq<int>): (r: set<int>)
    ensures forall x :: x in r <==> x in ids
    ensures |r| <= |ids|
    ensures |r| == |ids| <==> Distinct(ids)
  {
    if ids == [] then {}
    else
      var tail := ids[1..];
      assert forall x :: x in ids <==> x == ids[0] || x in tail;
      DistinctCons(ids);
      {ids[0]} + ToSet(tail)
  }

  /** A non-empty list has no repeats iff its head is not in its tail and its tail has none. */
  lemma DistinctCons(ids: seq<int>)
    requires ids != []
    ensures Distinct(ids) <==> ids[0] !in ids[1..] && Distinct(ids[1..])
  {
    var tail := ids[1..];
    if ids[0] in tail {
      var k :| 0 <= k < |tail| && tail[k] == ids[0];
      assert ids[0] == ids[k + 1];
    } else if Distinct(tail) {
      forall i, j | 0 <= i < j < |ids| ensures ids[i] != ids[j] {
        if i == 0 {
          assert ids[j] == tail[j - 1];
        } else {
          assert ids[i] == tail[i - 1] && ids[j] == tail[j - 1];
        }
      }
    } else {
      var i, j :| 0 <= i < j < |tail| && tail[i] == tail[j];
      assert ids[i + 1] == ids[j + 1];
    }
  }

  /**
   * The roster check of createTournament: the player list has length 4 and, as a set,
   * size 4. This holds exactly when the list is four distinct ids.
   */
  function RosterValid(ids: seq<int>): (ok: bool)
    ensures ok <==> |ids| == 4 && Distinct(ids)
  {
    |ids| == 4 && |ToSet(ids)| == 4
  }

  /**
   * The ids among `ids` that name a user: the rows `findMany({ id: { in: ids } })` returns.
   * For a list without repeats, as many rows come back as ids went in exactly when every
   * id names a user.
   */
  function Found(directory: map<int, string>, ids: seq<int>): (r: set<int>)
    ensures forall x :: x in r ==> x in ids && x in directory
    ensures forall x :: x in ids && x in directory ==> x in r
    ensures Distinct(ids) ==> (|r| == |ids| <==> forall x :: x in ids ==> x in directory)
  {
    var r := set x | x in ids && x in directory;
    if forall x :: x in ids ==> x in directory then
      assert r == ToSet(ids);
      r
    else
      MissingShrinks(directory, ids, r);
      r
  }

  /** The `players.length !== 2` test of recordVsPlayerMatch, for two different ids. */
  function BothFound(directory: map<int, string>, a: int, b: int): (ok: bool)
    requires a != b
    ensures ok <==> a in directory && b in directory
  {
    assert Distinct([a, b]);
    |Found(directory, [a, b])| == 2
  }

  /** An id of `ids` that names no user leaves the found set smaller than the list's set. */
  lemma MissingShrinks(directory: map<int, string>, ids: seq<int>, r: set<int>)
    requires r <= ToSet(ids) && r <= directory.Keys
    requires exists x :: x in ids && x !in directory
    ensures |r| < |ToSet(ids)|
  {
    var x :| x in ids && x !in directory;
    assert r <= ToSet(ids) - {x};
    SubsetSize(r, ToSet(ids) - {x});
  }

  lemma SubsetSize(a: set<int>, b: set<int>)
    requires a <= b
    ensures |a| <= |b|
  {
    assert b == a + (b - a);
    assert a * (b - a) == {};
  }

  /** The matches of tournament `t`, in creation order (the rows of `tournament.matches`). */
  function MatchesOf(ms: seq<Match>, t: int): (r: seq<Match>)
    ensures |r| <= |ms|
    ensures forall m :: m in r <==> m in ms && m.tournamentId == Some(t)
  {
    if ms == [] then []
    else
      var rest := MatchesOf(ms[..|ms| - 1], t);
      assert forall m :: m in ms <==> m in ms[..|ms| - 1] || m == ms[|ms| - 1];
      if ms[|ms| - 1].tournamentId == Some(t) then rest + [ms[|ms| - 1]] else rest
  }

  /** A tournament that no match names has no matches. */
  lemma {:induction false} MatchesOfNone(ms: seq<Match>, t: int)
    requires forall m :: m in ms ==> m.tournamentId != Some(t)
    ensures MatchesOf(ms, t) == []
  {
    if ms != [] {
      var n := |ms| - 1;
      assert forall m :: m in ms[..n] ==> m in ms;
      MatchesOfNone(ms[..n], t);
      assert ms[n] in ms;
    }
  }

  lemma MatchesOfAppend(ms: seq<Match>, m: Match, t: int)
    ensures MatchesOf(ms + [m], t) ==
      if m.tournamentId == Some(t) then MatchesOf(ms, t) + [m] else MatchesOf(ms, t)
  {
    assert (ms + [m])[..|ms|] == ms;
  }

  /** `m` pairs exactly `a` (as player 1) against `b` (as player 2). */
  predicate Pairs(m: Match, a: int, b: int) {
    m.player1 == a && m.player2 == b
  }

  /**
   * The bracket that getNextMatch builds for a four-player roster: at most three matches,
   * roster[0] vs roster[1], then roster[2] vs roster[3], then the winner of the first
   * against the winner of the second.
   */
  predicate BracketShape(roster: seq<int>, ms: seq<Match>) {
    && |roster| == 4
    && |ms| <= 3
    && (forall m :: m in ms ==> WellFormedMatch(m))
    && (|ms| >= 1 ==> Pairs(ms[0], roster[0], roster[1]))
    && (|ms| >= 2 ==> Pairs(ms[1], roster[2], roster[3]))
    && (|ms| == 3 ==> ms[0].winner == Some(ms[2].player1) && ms[1].winner == Some(ms[2].player2))
  }

  datatype Pairing = Pairing(player1: int, player2: int)

  /**
   * The phase of getNextMatch, derived from the number of matches already created:
   *   0 -> first semifinal, 1 -> second semifinal, 2 -> final (once both semifinals
   *   have a winner), 3 or more -> the tournament is complete (None).
   */
  function NextPairing(roster: seq<int>, ms: seq<Match>): (r: Result<Option<Pairing>, TournamentError>)
    requires |roster| == 4
    ensures r == Ok(None) <==> |ms| >= 3
    ensures r.Err? <==> |ms| == 2 && (ms[0].winner.None? || ms[1].winner.None?)
    ensures r.Err? ==> r.error == SemifinalsUnsettled
  {
    if |ms| == 0 then Ok(Some(Pairing(roster[0], roster[1])))
    else if |ms| == 1 then Ok(Some(Pairing(roster[2], roster[3])))
    else if |ms| == 2 then
      if ms[0].winner.None? || ms[1].winner.None? then Err(SemifinalsUnsettled)
      else Ok(Some(Pairing(ms[0].winner.value, ms[1].winner.value)))
    else Ok(None)
  }

  /**
   * Every pairing the scheduler hands out is between two different roster members, and
   * creating that match (unsettled) keeps the bracket in shape. In particular the final
   * pairs a winner of the first semifinal (roster[0] or roster[1]) against a winner of the
   * second (roster[2] or roster[3]).
   */
  lemma NextPairingExtendsBracket(roster: seq<int>, ms: seq<Match>, m: Match)
    requires Distinct(roster) && BracketShape(roster, ms)
    requires NextPairing(roster, ms).Ok? && NextPairing(roster, ms).value.Some?
    requires m.winner == None
    requires Pairs(m, NextPairing(roster, ms).value.value.player1, NextPairing(roster, ms).value.value.player2)
    ensures m.player1 != m.player2 && m.player1 in roster && m.player2 in roster
    ensures |ms| == 2 ==>
      (m.player1 == roster[0] || m.player1 == roster[1]) && (m.player2 == roster[2] || m.player2 == roster[3])
    ensures BracketShape(roster, ms + [m])
  {
    if |ms| == 2 {
      assert WellFormedMatch(ms[0]) && WellFormedMatch(ms[1]);
    }
    assert forall x :: x in ms + [m] ==> x in ms || x == m;
    assert (ms + [m])[..|ms|] == ms;
  }

  /** `b` is `a` with zero or more unsettled matches settled; nothing else differs. */
  predicate SettlesTo(x: Match, y: Match) {
    && y.id == x.id && y.tournamentId == x.tournamentId
    && y.player1 == x.player1 && y.player2 == x.player2 && y.createdAt == x.createdAt
    && (x.winner.Some? ==> y.winner == x.winner)
  }

  predicate SettledFrom(a: seq<Match>, b: seq<Match>) {
    |a| == |b| && forall k :: 0 <= k < |a| ==> SettlesTo(a[k], b[k])
  }

  lemma SettledPrefix(a: seq<Match>, b: seq<Match>, n: nat)
    requires SettledFrom(a, b) && n <= |a|
    ensures SettledFrom(a[..n], b[..n])
  {
    forall k | 0 <= k < n ensures SettlesTo(a[..n][k], b[..n][k]) {
      assert a[..n][k] == a[k] && b[..n][k] == b[k];
    }
  }

  lemma SettledAppend(a: seq<Match>, b: seq<Match>, x: Match, y: Match)
    requires SettledFrom(a, b) && SettlesTo(x, y)
    ensures SettledFrom(a + [x], b + [y])
  {
    forall k | 0 <= k < |a| + 1 ensures SettlesTo((a + [x])[k], (b + [y])[k]) {
      if k < |a| {
        assert (a + [x])[k] == a[k] && (b + [y])[k] == b[k];
      }
    }
  }

  /** Settling matches settles the same matches of every tournament, position by position. */
  lemma {:induction false} MatchesOfSettled(a: seq<Match>, b: seq<Match>, t: int)
    requires SettledFrom(a, b)
    ensures SettledFrom(MatchesOf(a, t), MatchesOf(b, t))
  {
    if a != [] {
      var n := |a| - 1;
      SettledPrefix(a, b, n);
      MatchesOfSettled(a[..n], b[..n], t);
      assert SettlesTo(a[n], b[n]);
      if a[n].tournamentId == Some(t) {
        SettledAppend(MatchesOf(a[..n], t), MatchesOf(b[..n], t), a[n], b[n]);
      }
    }
  }

  /** Settling matches never breaks the bracket: winners once set stay, players never change. */
  lemma BracketSettled(roster: seq<int>, a: seq<Match>, b: seq<Match>)
    requires BracketShape(roster, a) && SettledFrom(a, b)
    requires forall m :: m in b ==> WellFormedMatch(m)
    ensures BracketShape(roster, b)
  {
    if |a| >= 1 { assert SettlesTo(a[0], b[0]); }
    if |a| >= 2 { assert SettlesTo(a[1], b[1]); }
    if |a| == 3 { assert SettlesTo(a[2], b[2]); }
  }
}
