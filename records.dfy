/** The rows of the tournament store: tournaments, matches and per-player stats. */
module Records {
  import opened Outcomes

  datatype Status = Ongoing | Completed

  /** A tournament row. `roster` is the player list in creation order, host first. */
  datatype Tournament = Tournament(id: int, hostId: int, status: Status, roster: seq<int>)

  /**
   * A match row. `tournamentId` is None for a standalone (play vs player) match;
   * `winner` is None until the match is settled; `createdAt` is the creation timestamp.
   */
  datatype Match = Match(
    id: int,
    tournamentId: Option<int>,
    player1: int,
    player2: int,
    winner: Option<int>,
    createdAt: int)

  /** A player-stats row: games played and games won. */
  datatype PlayerStats = PlayerStats(games: nat, wins: nat)

  /** The errors the tournament service throws, one per message. */
  datatype TournamentError =
    | InvalidRoster          // 'Tournament must have exactly 4 unique players'
    | PlayerNotFound         // 'One or more players not found'
    | TournamentNotFound     // 'Tournament not found'
    | TournamentCompleted    // 'Tournament already completed'
    | SemifinalsUnsettled    // 'Previous matches must have winners'
    | MatchNotFound          // 'Match not found'
    | AlreadySettled         // 'Match already has a winner'
    | NotAParticipant        // 'Winner must be one of the players'
    | SamePlayers            // 'Players must be different'
    | PlayersNotFound        // 'One or both players not found'

  /** A player as shown to the caller: id and username from the user table. */
  datatype PlayerView = PlayerView(id: int, username: string)

  /** What getNextMatch hands out for a newly created match. */
  datatype MatchDescriptor = MatchDescriptor(matchId: int, player1: PlayerView, player2: PlayerView)

  /** What recordMatchResult and recordVsPlayerMatch return. */
  datatype Settlement = Settlement(matchId: int, winnerId: int)

  /** A settled match names one of its two players as winner; the players differ. */
  predicate WellFormedMatch(m: Match) {
    m.player1 != m.player2 &&
    (m.winner.Some? ==> m.winner.value == m.player1 || m.winner.value == m.player2)
  }

  predicate Participates(m: Match, u: int) {
    m.player1 == u || m.player2 == u
  }
}
