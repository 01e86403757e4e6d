/**
 * The tournament service over an in-memory store: a tournament table, a match ledger in
 * creation order and a player-stats table. Every operation is one sequential step.
 */
module Tournaments {
  import opened Outcomes
  import opened Records
  import opened Bracket
  import opened Ledger
  import opened Store
  import History

  class TournamentStore {
    /** The user table as this service sees it: id -> username. */
    const directory: map<int, string>
    /** Tournament rows; the id of `tournaments[i]` is i + 1 (autoincrement). */
    var tournaments: seq<Tournament>
    /** Match rows in creation order; the id of `matches[i]` is i + 1. */
    var matches: seq<Match>
    /** Player-stats rows, keyed by user id. */
    var stats: map<int, PlayerStats>

    ghost predicate Valid()
      reads this
    {
      StoreValid(directory, tournaments, matches, stats)
    }

    constructor (directory: map<int, string>)
      requires forall id :: id in directory ==> id > 0
      ensures Valid()
      ensures this.directory == directory
      ensures tournaments == [] && matches == [] && stats == map[]
    {
      this.directory := directory;
      tournaments := [];
      matches := [];
      stats := map[];
    }

    /**
     * createTournament(hostId, guestIds): the roster is [hostId] + guestIds; it must be four
     * distinct ids (InvalidRoster) that all name users (PlayerNotFound). The new tournament
     * is ongoing, host first, and has no matches.
     */
    method CreateTournament(hostId: int, guestIds: seq<int>) returns (r: Result<Tournament, TournamentError>)
      requires Valid()
      modifies this`tournaments
      ensures Valid()
      ensures matches == old(matches) && stats == old(stats)
      ensures !(|[hostId] + guestIds| == 4 && Distinct([hostId] + guestIds)) ==> r == Err(InvalidRoster)
      ensures (|[hostId] + guestIds| == 4 && Distinct([hostId] + guestIds) &&
               exists x :: x in [hostId] + guestIds && x !in directory) ==> r == Err(PlayerNotFound)
      ensures r.Ok? <==> |[hostId] + guestIds| == 4 && Distinct([hostId] + guestIds) &&
                         forall x :: x in [hostId] + guestIds ==> x in directory
      ensures r.Err? ==> tournaments == old(tournaments)
      ensures r.Ok? ==>
        && r.value == Tournament(|old(tournaments)| + 1, hostId, Ongoing, [hostId] + guestIds)
        && tournaments == old(tournaments) + [r.value]
        && MatchesOf(matches, r.value.id) == []
    {
      var ids := [hostId] + guestIds;
      if !RosterValid(ids) {
        return Err(InvalidRoster);
      }
      if |Found(directory, ids)| != 4 {
        return Err(PlayerNotFound);
      }
      var t := Tournament(|tournaments| + 1, hostId, Ongoing, ids);
      NewTournamentKeepsStore(directory, tournaments, matches, stats, t);
      tournaments := tournaments + [t];
      r := Ok(t);
    }

    /**
     * getNextMatch(tournamentId): fails for an unknown (TournamentNotFound) or completed
     * (TournamentCompleted) tournament; otherwise does what the bracket phase says: creates
     * the next semifinal or the final and describes it, fails while a semifinal is
     * unsettled, or, with three matches, marks the tournament completed and returns None.
     */
    method GetNextMatch(tournamentId: int, now: int) returns (r: Result<Option<MatchDescriptor>, TournamentError>)
      requires Valid()
      modifies this`matches, this`tournaments
      ensures Valid()
      ensures !(1 <= tournamentId <= |old(tournaments)|) ==>
        r == Err(TournamentNotFound) && matches == old(matches) && tournaments == old(tournaments)
      ensures 1 <= tournamentId <= |old(tournaments)| && old(tournaments)[tournamentId - 1].status == Completed ==>
        r == Err(TournamentCompleted) && matches == old(matches) && tournaments == old(tournaments)
      ensures 1 <= tournamentId <= |old(tournaments)| && old(tournaments)[tournamentId - 1].status == Ongoing ==>
        var t := old(tournaments)[tournamentId - 1];
        var next := NextPairing(t.roster, MatchesOf(old(matches), tournamentId));
        && (next.Err? ==>
              r == Err(next.error) && matches == old(matches) && tournaments == old(tournaments))
        && (next == Ok(None) ==>
              && r == Ok(None) && matches == old(matches)
              && tournaments == old(tournaments)[tournamentId - 1 := t.(status := Completed)])
        && (next.Ok? && next.value.Some? ==>
              var p := next.value.value;
              var m := Match(|old(matches)| + 1, Some(tournamentId), p.player1, p.player2, None, now);
              && p.player1 != p.player2 && p.player1 in t.roster && p.player2 in t.roster
              && matches == old(matches) + [m]
              && tournaments == old(tournaments)
              && p.player1 in directory && p.player2 in directory
              && r == Ok(Some(MatchDescriptor(m.id,
                   PlayerView(p.player1, directory[p.player1]),
                   PlayerView(p.player2, directory[p.player2])))))
    {
      if !(1 <= tournamentId <= |tournaments|) {
        return Err(TournamentNotFound);
      }
      var t := tournaments[tournamentId - 1];
      var ms := MatchesOf(matches, tournamentId);
      if t.status == Completed {
        return Err(TournamentCompleted);
      }
      var next := NextPairing(t.roster, ms);
      match next {
        case Err(e) =>
          r := Err(e);
        case Ok(None) =>
          Complete(tournamentId - 1);
          r := Ok(None);
        case Ok(Some(_)) =>
          var d := Schedule(tournamentId - 1, now);
          r := Ok(Some(d));
      }
    }

    /** The last branch of getNextMatch: tournament k + 1, with all three matches, is completed. */
    method Complete(k: nat)
      requires Valid() && k < |tournaments|
      requires NextPairing(tournaments[k].roster, MatchesOf(matches, k + 1)) == Ok(None)
      modifies this`tournaments
      ensures Valid()
      ensures tournaments == old(tournaments)[k := old(tournaments)[k].(status := Completed)]
    {
      CompleteKeepsStore(directory, tournaments, matches, stats, k);
      tournaments := tournaments[k := tournaments[k].(status := Completed)];
    }

    /**
     * The match-creating branches of getNextMatch: creates the unsettled match that the
     * bracket phase of tournament k + 1 asks for and describes its two players.
     */
    method Schedule(k: nat, now: int) returns (d: MatchDescriptor)
      requires Valid() && k < |tournaments|
      requires NextPairing(tournaments[k].roster, MatchesOf(matches, k + 1)).Ok?
      requires NextPairing(tournaments[k].roster, MatchesOf(matches, k + 1)).value.Some?
      modifies this`matches
      ensures Valid()
      ensures
        var p := NextPairing(tournaments[k].roster, MatchesOf(old(matches), k + 1)).value.value;
        var m := Match(|old(matches)| + 1, Some(k + 1), p.player1, p.player2, None, now);
        && p.player1 != p.player2 && p.player1 in tournaments[k].roster && p.player2 in tournaments[k].roster
        && matches == old(matches) + [m]
        && p.player1 in directory && p.player2 in directory
        && d == MatchDescriptor(m.id,
             PlayerView(p.player1, directory[p.player1]),
             PlayerView(p.player2, directory[p.player2]))
    {
      var p := NextPairing(tournaments[k].roster, MatchesOf(matches, k + 1)).value.value;
      var m := Match(|matches| + 1, Some(k + 1), p.player1, p.player2, None, now);
      ScheduleKeepsStore(directory, tournaments, matches, stats, k, m);
      matches := matches + [m];
      d := MatchDescriptor(m.id, PlayerView(p.player1, directory[p.player1]), PlayerView(p.player2, directory[p.player2]));
    }

    /**
     * initializeOrUpdatePlayerStats(userId, { games, wins }): creates the row with these
     * counts when it is missing, otherwise adds them to it.
     */
    method InitializeOrUpdatePlayerStats(userId: int, games: nat, wins: nat)
      modifies this`stats
      ensures stats == old(stats)[userId :=
        PlayerStats(Row(old(stats), userId).games + games, Row(old(stats), userId).wins + wins)]
    {
      if userId !in stats {
        stats := stats[userId := PlayerStats(games, wins)];
      } else {
        var row := stats[userId];
        stats := stats[userId := PlayerStats(row.games + games, row.wins + wins)];
      }
    }

    /**
     * The two stats updates after a match is settled: one game to each player, and one win
     * to the player the winner is (for recordVsPlayerMatch, `isHostWinner` picks the same
     * player, as its two players differ). Nobody else's row changes.
     */
    method CreditPlayers(m: Match)
      requires WellFormedMatch(m) && m.winner.Some?
      modifies this`stats
      ensures forall u :: Row(stats, u) == Credit(Row(old(stats), u), m, u)
      ensures stats.Keys == old(stats).Keys + {m.player1, m.player2}
      ensures forall u :: Row(stats, u).games == Row(old(stats), u).games + (if Participates(m, u) then 1 else 0)
      ensures forall u :: Row(stats, u).wins == Row(old(stats), u).wins + (if m.winner == Some(u) then 1 else 0)
    {
      InitializeOrUpdatePlayerStats(m.player1, 1, if m.winner == Some(m.player1) then 1 else 0);
      ghost var midStats := stats;
      InitializeOrUpdatePlayerStats(m.player2, 1, if m.winner == Some(m.player2) then 1 else 0);
      CreditBothPlayers(old(stats), midStats, stats, m);
    }

    /**
     * recordMatchResult(matchId, winnerId): fails for an unknown match (MatchNotFound), for
     * a match that already has a winner (AlreadySettled) and for a winner who is not one of
     * its players (NotAParticipant), changing nothing. Otherwise it settles the match; each
     * player gains one game, the winner one win, and nobody else's row changes.
     */
    method RecordMatchResult(matchId: int, winnerId: int) returns (r: Result<Settlement, TournamentError>)
      requires Valid()
      modifies this`matches, this`stats
      ensures Valid()
      ensures tournaments == old(tournaments)
      ensures !(1 <= matchId <= |old(matches)|) ==> r == Err(MatchNotFound)
      ensures 1 <= matchId <= |old(matches)| && old(matches)[matchId - 1].winner.Some? ==>
        r == Err(AlreadySettled)
      ensures (1 <= matchId <= |old(matches)| && old(matches)[matchId - 1].winner.None? &&
               !Participates(old(matches)[matchId - 1], winnerId)) ==> r == Err(NotAParticipant)
      ensures r.Err? ==> matches == old(matches) && stats == old(stats)
      ensures (1 <= matchId <= |old(matches)| && old(matches)[matchId - 1].winner.None? &&
               Participates(old(matches)[matchId - 1], winnerId)) ==>
        var m := old(matches)[matchId - 1];
        && r == Ok(Settlement(matchId, winnerId))
        && matches == old(matches)[matchId - 1 := m.(winner := Some(winnerId))]
        && stats.Keys == old(stats).Keys + {m.player1, m.player2}
        && (forall u :: Row(stats, u).games == Row(old(stats), u).games + (if Participates(m, u) then 1 else 0))
        && (forall u :: Row(stats, u).wins == Row(old(stats), u).wins + (if u == winnerId then 1 else 0))
    {
      if !(1 <= matchId <= |matches|) {
        return Err(MatchNotFound);
      }
      var i := matchId - 1;
      var m := matches[i];
      if m.winner.Some? {
        return Err(AlreadySettled);
      }
      if winnerId != m.player1 && winnerId != m.player2 {
        return Err(NotAParticipant);
      }
      var settled := m.(winner := Some(winnerId));
      ghost var before, beforeStats := matches, stats;
      assert m in before;
      matches := matches[i := settled];
      CreditPlayers(settled);
      r := Ok(Settlement(matchId, winnerId));
      SettleKeepsStore(directory, tournaments, before, beforeStats, i, winnerId, stats);
    }

    /**
     * recordVsPlayerMatch(player1Id, player2Id, isHostWinner): a standalone match between
     * two different (SamePlayers) known (PlayersNotFound) players, created already settled,
     * with the same stats update as a settlement.
     */
    method RecordVsPlayerMatch(player1Id: int, player2Id: int, isHostWinner: bool, now: int)
      returns (r: Result<Settlement, TournamentError>)
      requires Valid()
      modifies this`matches, this`stats
      ensures Valid()
      ensures tournaments == old(tournaments)
      ensures player1Id == player2Id ==> r == Err(SamePlayers)
      ensures player1Id != player2Id && (player1Id !in directory || player2Id !in directory) ==>
        r == Err(PlayersNotFound)
      ensures r.Err? ==> matches == old(matches) && stats == old(stats)
      ensures player1Id != player2Id && player1Id in directory && player2Id in directory ==>
        var w := if isHostWinner then player1Id else player2Id;
        var m := Match(|old(matches)| + 1, None, player1Id, player2Id, Some(w), now);
        && r == Ok(Settlement(m.id, w))
        && matches == old(matches) + [m]
        && stats.Keys == old(stats).Keys + {player1Id, player2Id}
        && (forall u :: Row(stats, u).games == Row(old(stats), u).games + (if Participates(m, u) then 1 else 0))
        && (forall u :: Row(stats, u).wins == Row(old(stats), u).wins + (if u == w then 1 else 0))
    {
      if player1Id == player2Id {
        return Err(SamePlayers);
      }
      if !BothFound(directory, player1Id, player2Id) {
        return Err(PlayersNotFound);
      }
      var w := if isHostWinner then player1Id else player2Id;
      var m := Match(|matches| + 1, None, player1Id, player2Id, Some(w), now);
      ghost var before, beforeStats := matches, stats;
      matches := matches + [m];
      CreditPlayers(m);
      r := Ok(Settlement(m.id, w));
      CasualMatchKeepsStore(directory, tournaments, before, beforeStats, m, stats);
    }

    /**
     * getPlayerStats(userId): the player's row, created with zeros when missing. By the
     * store invariant it is what the ledger accounts for, so wins never exceed games.
     */
    method GetPlayerStats(userId: int) returns (s: PlayerStats)
      requires Valid()
      modifies this`stats
      ensures Valid()
      ensures s == Tally(matches, userId)
      ensures s == Row(old(stats), userId)
      ensures s.wins <= s.games
      ensures stats == old(stats)[userId := s]
    {
      StatsBounded(directory, tournaments, matches, stats, userId);
      if userId !in stats {
        stats := stats[userId := PlayerStats(0, 0)];
      }
      s := stats[userId];
      assert forall u :: Row(stats, u) == Row(old(stats), u);
    }

    /**
     * getUserMatchHistory(userId): one entry for each match the user played in, tournament
     * or standalone, names looked up in the user table, newest first.
     */
    function GetUserMatchHistory(userId: int): (r: seq<History.HistoryEntry>)
      reads this
      requires Valid()
      ensures |r| == |History.Involving(matches, userId)|
      ensures forall k :: 0 <= k < |r| ==> History.EntryOf(r[k], matches, directory, userId)
      ensures forall i, j :: 0 <= i < j < |r| ==> r[i].date >= r[j].date
      ensures forall i, j :: 0 <= i < j < |r| ==> r[i].matchId != r[j].matchId
      ensures (forall m :: m in matches ==> History.Resolvable(m, directory)) &&
              r == History.MatchHistory(matches, directory, userId)
    {
      assert forall m :: m in matches ==> History.Resolvable(m, directory);
      assert History.UniqueIds(matches) by {
        forall i, j | 0 <= i < j < |matches| ensures matches[i].id != matches[j].id {
          assert matches[i].id == i + 1 && matches[j].id == j + 1;
        }
      }
      var sorted := History.HistoryMatches(matches, userId);
      var r := History.MatchHistory(matches, directory, userId);
      assert forall k :: 0 <= k < |r| ==> History.EntryOf(r[k], matches, directory, userId) by {
        forall k | 0 <= k < |r| ensures History.EntryOf(r[k], matches, directory, userId) {
          assert sorted[k] in sorted;
        }
      }
      r
    }
  }
}
