/**
 * The invariant of the tournament store, stated on the values of its three tables, and
 * one lemma per kind of change the service makes showing that the change keeps it.
 */
module Store {
  import opened Outcomes
  import opened Records
  import opened Bracket
  import opened Ledger
  import History

  /**
   * A tournament row: four distinct known players, host first, whose matches form a
   * prefix of the four-player bracket; a completed tournament has all three.
   */
  ghost predicate TournamentRowValid(t: Tournament, ms: seq<Match>, directory: map<int, string>) {
    && |t.roster| == 4 && Distinct(t.roster)
    && t.roster[0] == t.hostId
    && (forall x :: x in t.roster ==> x in directory)
    && BracketShape(t.roster, MatchesOf(ms, t.id))
    && (t.status == Completed ==> |MatchesOf(ms, t.id)| == 3)
  }

  /**
   * A match row: two different known players, a winner among them once settled, and a
   * tournament id, when present, that names an existing tournament.
   */
  ghost predicate MatchRowValid(m: Match, directory: map<int, string>, tournamentCount: nat) {
    && WellFormedMatch(m)
    && History.Resolvable(m, directory)
    && (m.tournamentId.Some? ==> 1 <= m.tournamentId.value <= tournamentCount)
  }

  /**
   * The store invariant: user ids are positive; row ids are positions + 1; every row is
   * valid; and every player's stats row is what the ledger's settled matches account for.
   */
  ghost predicate StoreValid(
    directory: map<int, string>, ts: seq<Tournament>, ms: seq<Match>, stats: map<int, PlayerStats>)
  {
    && (forall id :: id in directory ==> id > 0)
    && (forall i :: 0 <= i < |ts| ==> ts[i].id == i + 1 && |ts[i].roster| == 4)
    && (forall i {:trigger TournamentRowValid(ts[i], ms, directory)} ::
          0 <= i < |ts| ==> TournamentRowValid(ts[i], ms, directory))
    && (forall i :: 0 <= i < |ms| ==> ms[i].id == i + 1)
    && (forall m :: m in ms ==> MatchRowValid(m, directory, |ts|))
    && (forall u :: Row(stats, u) == Tally(ms, u))
  }

  /** Every player's wins are at most their games in a valid store. */
  lemma StatsBounded(
    directory: map<int, string>, ts: seq<Tournament>, ms: seq<Match>, stats: map<int, PlayerStats>, u: int)
    requires StoreValid(directory, ts, ms, stats)
    ensures Row(stats, u).wins <= Row(stats, u).games
  {
    WinsAtMostGames(ms, u);
  }

  /**
   * In a valid store every tournament has at most three matches, laid out as the bracket
   * says (pairing order, final between the semifinal winners); a completed one has all three.
   */
  lemma TournamentBracket(
    directory: map<int, string>, ts: seq<Tournament>, ms: seq<Match>, stats: map<int, PlayerStats>, k: nat)
    requires StoreValid(directory, ts, ms, stats) && k < |ts|
    ensures |MatchesOf(ms, k + 1)| <= 3
    ensures BracketShape(ts[k].roster, MatchesOf(ms, k + 1))
    ensures ts[k].status == Completed ==> |MatchesOf(ms, k + 1)| == 3
  {
    assert TournamentRowValid(ts[k], ms, directory);
  }

  /** A new ongoing tournament with a valid roster of known players starts with no matches. */
  lemma NewTournamentKeepsStore(
    directory: map<int, string>, ts: seq<Tournament>, ms: seq<Match>, stats: map<int, PlayerStats>,
    t: Tournament)
    requires StoreValid(directory, ts, ms, stats)
    requires t.id == |ts| + 1 && t.status == Ongoing
    requires |t.roster| == 4 && Distinct(t.roster) && t.roster[0] == t.hostId
    requires forall x :: x in t.roster ==> x in directory
    ensures MatchesOf(ms, t.id) == []
    ensures StoreValid(directory, ts + [t], ms, stats)
  {
    MatchesOfNone(ms, t.id);
  }

  /**
   * Creating the match the bracket phase asks for keeps the store valid; its two players
   * are different members of the roster and known users.
   */
  lemma ScheduleKeepsStore(
    directory: map<int, string>, ts: seq<Tournament>, ms: seq<Match>, stats: map<int, PlayerStats>,
    k: nat, m: Match)
    requires StoreValid(directory, ts, ms, stats)
    requires k < |ts|
    requires NextPairing(ts[k].roster, MatchesOf(ms, k + 1)).Ok?
    requires NextPairing(ts[k].roster, MatchesOf(ms, k + 1)).value.Some?
    requires var p := NextPairing(ts[k].roster, MatchesOf(ms, k + 1)).value.value;
      m == Match(|ms| + 1, Some(k + 1), p.player1, p.player2, None, m.createdAt)
    ensures m.player1 != m.player2 && m.player1 in ts[k].roster && m.player2 in ts[k].roster
    ensures m.player1 in directory && m.player2 in directory
    ensures StoreValid(directory, ts, ms + [m], stats)
  {
    var t := ts[k];
    assert TournamentRowValid(t, ms, directory);
    NextPairingExtendsBracket(t.roster, MatchesOf(ms, k + 1), m);
    forall j | 0 <= j < |ts| ensures TournamentRowValid(ts[j], ms + [m], directory) {
      MatchesOfAppend(ms, m, ts[j].id);
      if j != k {
        assert TournamentRowValid(ts[j], ms, directory);
      }
    }
    AppendKeepsStore(directory, ts, ms, stats, m, stats);
  }

  /** Marking a tournament with three matches completed keeps the store valid. */
  lemma CompleteKeepsStore(
    directory: map<int, string>, ts: seq<Tournament>, ms: seq<Match>, stats: map<int, PlayerStats>,
    k: nat)
    requires StoreValid(directory, ts, ms, stats)
    requires k < |ts|
    requires NextPairing(ts[k].roster, MatchesOf(ms, k + 1)) == Ok(None)
    ensures StoreValid(directory, ts[k := ts[k].(status := Completed)], ms, stats)
  {
    assert TournamentRowValid(ts[k], ms, directory);
  }

  /**
   * Settling an unsettled match with one of its players as winner, while crediting every
   * player's row with that settlement, keeps the store valid.
   */
  lemma SettleKeepsStore(
    directory: map<int, string>, ts: seq<Tournament>, ms: seq<Match>, stats: map<int, PlayerStats>,
    i: nat, w: int, stats': map<int, PlayerStats>)
    requires StoreValid(directory, ts, ms, stats)
    requires i < |ms| && ms[i].winner.None? && Participates(ms[i], w)
    requires forall u :: Row(stats', u) == Credit(Row(stats, u), ms[i].(winner := Some(w)), u)
    ensures StoreValid(directory, ts, ms[i := ms[i].(winner := Some(w))], stats')
  {
    var settled := ms[i := ms[i].(winner := Some(w))];
    forall u ensures Row(stats', u) == Tally(settled, u) {
      TallySettle(ms, i, w, u);
    }
    assert SettledFrom(ms, settled) by {
      forall k | 0 <= k < |ms| ensures SettlesTo(ms[k], settled[k]) {
      }
    }
    forall x | x in settled ensures MatchRowValid(x, directory, |ts|) {
      var k :| 0 <= k < |settled| && settled[k] == x;
      assert ms[k] in ms;
    }
    forall k | 0 <= k < |ts| ensures TournamentRowValid(ts[k], settled, directory) {
      assert TournamentRowValid(ts[k], ms, directory);
      MatchesOfSettled(ms, settled, ts[k].id);
      BracketSettled(ts[k].roster, MatchesOf(ms, ts[k].id), MatchesOf(settled, ts[k].id));
    }
  }

  /**
   * Appending a valid standalone match and crediting every player's row with it keeps the
   * store valid; no tournament's matches change.
   */
  lemma CasualMatchKeepsStore(
    directory: map<int, string>, ts: seq<Tournament>, ms: seq<Match>, stats: map<int, PlayerStats>,
    m: Match, stats': map<int, PlayerStats>)
    requires StoreValid(directory, ts, ms, stats)
    requires m.id == |ms| + 1 && m.tournamentId == None && MatchRowValid(m, directory, |ts|)
    requires forall u :: Row(stats', u) == Credit(Row(stats, u), m, u)
    ensures StoreValid(directory, ts, ms + [m], stats')
  {
    forall j | 0 <= j < |ts| ensures TournamentRowValid(ts[j], ms + [m], directory) {
      assert TournamentRowValid(ts[j], ms, directory);
      MatchesOfAppend(ms, m, ts[j].id);
    }
    AppendKeepsStore(directory, ts, ms, stats, m, stats');
  }

  /**
   * Appending a valid match that keeps every tournament row valid, while crediting every
   * player's row with it, keeps the store valid.
   */
  lemma AppendKeepsStore(
    directory: map<int, string>, ts: seq<Tournament>, ms: seq<Match>, stats: map<int, PlayerStats>,
    m: Match, stats': map<int, PlayerStats>)
    requires StoreValid(directory, ts, ms, stats)
    requires m.id == |ms| + 1 && MatchRowValid(m, directory, |ts|)
    requires forall j :: 0 <= j < |ts| ==> TournamentRowValid(ts[j], ms + [m], directory)
    requires forall u :: Row(stats', u) == Credit(Row(stats, u), m, u)
    ensures StoreValid(directory, ts, ms + [m], stats')
  {
    forall u ensures Row(stats', u) == Tally(ms + [m], u) {
      TallyAppend(ms, m, u);
    }
    forall x | x in ms + [m] ensures MatchRowValid(x, directory, |ts|) {
      if x != m {
        assert x in ms;
      }
    }
  }
}
