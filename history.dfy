/**
 * getUserMatchHistory: the matches a user played in, ordered by creation date newest
 * first, with player and winner names looked up in the user table.
 */
module History {
  import opened Outcomes
  import opened Records

  datatype HistoryEntry = HistoryEntry(
    matchId: int,
    player1Name: string,
    player2Name: string,
    winnerName: Option<string>,
    date: int)

  /** The matches with player1Id = u or player2Id = u, in creation order. */
  function Involving(ms: seq<Match>, u: int): (r: seq<Match>)
    ensures |r| <= |ms|
    ensures forall m :: m in r <==> m in ms && Participates(m, u)
  {
    if ms == [] then []
    else
      var n := |ms| - 1;
      var rest := Involving(ms[..n], u);
      assert forall m :: m in ms <==> m in ms[..n] || m == ms[n];
      if Participates(ms[n], u) then rest + [ms[n]] else rest
  }

  /** The filter keeps each match of `u` as often as the ledger holds it, and no other. */
  lemma {:induction false} InvolvingCounts(ms: seq<Match>, u: int)
    ensures forall m :: multiset(Involving(ms, u))[m] == if Participates(m, u) then multiset(ms)[m] else 0
  {
    if ms != [] {
      var n := |ms| - 1;
      InvolvingCounts(ms[..n], u);
      assert ms == ms[..n] + [ms[n]];
    }
  }

  /** `orderBy: { createdAt: 'desc' }`. */
  predicate NewestFirst(s: seq<Match>) {
    forall i, j :: 0 <= i < j < |s| ==> s[i].createdAt >= s[j].createdAt
  }

  /** `x` is at least as new as every match of `t`. */
  predicate NotNewerThanAll(x: Match, t: seq<Match>) {
    forall j :: 0 <= j < |t| ==> x.createdAt >= t[j].createdAt
  }

  lemma ConsNewestFirst(x: Match, t: seq<Match>)
    requires NewestFirst(t) && NotNewerThanAll(x, t)
    ensures NewestFirst([x] + t)
  {
    forall i, j | 0 <= i < j < |[x] + t| ensures ([x] + t)[i].createdAt >= ([x] + t)[j].createdAt {
      if i == 0 {
        assert ([x] + t)[j] == t[j - 1];
      } else {
        assert ([x] + t)[i] == t[i - 1] && ([x] + t)[j] == t[j - 1];
      }
    }
  }

  lemma NotNewerThanPermutation(x: Match, t: seq<Match>, m: Match, r: seq<Match>)
    requires NotNewerThanAll(x, t) && x.createdAt >= m.createdAt
    requires multiset(r) == multiset(t) + multiset{m}
    ensures NotNewerThanAll(x, r)
  {
    forall j | 0 <= j < |r| ensures x.createdAt >= r[j].createdAt {
      assert r[j] in multiset(r);
      if r[j] != m {
        assert r[j] in multiset(t);
        var k :| 0 <= k < |t| && t[k] == r[j];
      }
    }
  }

  /** Puts `m` in front of the first match that is not newer than it. */
  function InsertByDate(m: Match, s: seq<Match>): (r: seq<Match>)
    requires NewestFirst(s)
    ensures NewestFirst(r)
    ensures multiset(r) == multiset(s) + multiset{m}
  {
    if s == [] || m.createdAt >= s[0].createdAt then
      assert NotNewerThanAll(m, s) by {
        forall j | 0 <= j < |s| ensures m.createdAt >= s[j].createdAt {
          if j > 0 { assert s[0].createdAt >= s[j].createdAt; }
        }
      }
      ConsNewestFirst(m, s);
      [m] + s
    else
      var tail := s[1..];
      assert NewestFirst(tail) by {
        forall i, j | 0 <= i < j < |tail| ensures tail[i].createdAt >= tail[j].createdAt {
          assert tail[i] == s[i + 1] && tail[j] == s[j + 1];
        }
      }
      var rest := InsertByDate(m, tail);
      assert NotNewerThanAll(s[0], tail) by {
        forall j | 0 <= j < |tail| ensures s[0].createdAt >= tail[j].createdAt {
          assert tail[j] == s[j + 1];
        }
      }
      NotNewerThanPermutation(s[0], tail, m, rest);
      ConsNewestFirst(s[0], rest);
      assert s == [s[0]] + tail;
      [s[0]] + rest
  }

  /**
   * Sorts the matches newest first. Among matches with the same timestamp the one created
   * later comes first.
   */
  function SortByDate(s: seq<Match>): (r: seq<Match>)
    ensures NewestFirst(r)
    ensures multiset(r) == multiset(s)
  {
    if s == [] then []
    else
      var n := |s| - 1;
      assert s == s[..n] + [s[n]];
      InsertByDate(s[n], SortByDate(s[..n]))
  }

  /** The matches getUserMatchHistory reports for `u`, in the order it reports them. */
  function HistoryMatches(ms: seq<Match>, u: int): (r: seq<Match>)
    ensures NewestFirst(r)
    ensures multiset(r) == multiset(Involving(ms, u))
    ensures forall m :: m in r <==> m in ms && Participates(m, u)
  {
    var r := SortByDate(Involving(ms, u));
    assert forall m :: m in r <==> m in multiset(r);
    r
  }

  /** No two matches of `ms` share an id, as the rows of a table with a primary key. */
  predicate UniqueIds(ms: seq<Match>) {
    forall i, j :: 0 <= i < j < |ms| ==> ms[i].id != ms[j].id
  }

  /** In a ledger whose ids are unique, every match occurs exactly once. */
  lemma OccursOnce(ms: seq<Match>, p: int)
    requires UniqueIds(ms) && 0 <= p < |ms|
    ensures multiset(ms)[ms[p]] == 1
  {
    var x := ms[p];
    assert ms == ms[..p] + [x] + ms[p + 1..];
    assert x !in ms[..p] by {
      forall k | 0 <= k < p ensures ms[..p][k] != x {
        assert ms[..p][k].id == ms[k].id != ms[p].id;
      }
    }
    var after := ms[p + 1..];
    assert x !in after by {
      forall k | 0 <= k < |after| ensures after[k] != x {
        assert after[k].id == ms[p + 1 + k].id != ms[p].id;
      }
    }
  }

  /** Two positions of `h` hold different matches when the first one's match occurs at most once. */
  lemma DistinctWhenOnce(h: seq<Match>, i: int, j: int)
    requires 0 <= i < j < |h| && multiset(h)[h[i]] <= 1
    ensures h[i] != h[j]
  {
    assert h == h[..j] + h[j..];
    assert h[i] == h[..j][i];
    assert h[j] == h[j..][0];
    assert multiset(h) == multiset(h[..j]) + multiset(h[j..]);
  }

  /**
   * Each match of the user appears once in the history: over a ledger whose ids are
   * unique, no two history positions carry the same match id.
   */
  lemma HistoryOncePerMatch(ms: seq<Match>, u: int)
    requires UniqueIds(ms)
    ensures UniqueIds(HistoryMatches(ms, u))
  {
    var h := HistoryMatches(ms, u);
    InvolvingCounts(ms, u);
    forall i, j | 0 <= i < j < |h| ensures h[i].id != h[j].id {
      assert h[i] in h && h[j] in h;
      var p :| 0 <= p < |ms| && ms[p] == h[i];
      var q :| 0 <= q < |ms| && ms[q] == h[j];
      OccursOnce(ms, p);
      DistinctWhenOnce(h, i, j);
      assert p != q;
      if p < q {
        assert ms[p].id != ms[q].id;
      } else {
        assert ms[q].id != ms[p].id;
      }
    }
  }

  /** Both players (and the winner, once set) have a row in the user table. */
  predicate Resolvable(m: Match, directory: map<int, string>) {
    m.player1 in directory && m.player2 in directory &&
    (m.winner.Some? ==> m.winner.value in directory)
  }

  /**
   * One line of the history. `winner?.username || null` reads an empty username as no
   * winner, so winnerName is None for an unsettled match and for a winner named "".
   */
  function Entry(m: Match, directory: map<int, string>): (e: HistoryEntry)
    requires Resolvable(m, directory)
    ensures e.matchId == m.id && e.date == m.createdAt
    ensures e.player1Name == directory[m.player1] && e.player2Name == directory[m.player2]
    ensures e.winnerName.None? <==> m.winner.None? || directory[m.winner.value] == ""
    ensures e.winnerName.Some? ==> e.winnerName.value == directory[m.winner.value]
  {
    var winnerName :=
      if m.winner.Some? && directory[m.winner.value] != "" then Some(directory[m.winner.value]) else None;
    HistoryEntry(m.id, directory[m.player1], directory[m.player2], winnerName, m.createdAt)
  }

  /** `e` is the history line of some match of `u` in the ledger `ms`. */
  predicate EntryOf(e: HistoryEntry, ms: seq<Match>, directory: map<int, string>, u: int) {
    exists m :: m in ms && Participates(m, u) && Resolvable(m, directory) && e == Entry(m, directory)
  }

  /**
   * getUserMatchHistory(u): one entry per match of `u`, newest first.
   */
  function MatchHistory(ms: seq<Match>, directory: map<int, string>, u: int): (r: seq<HistoryEntry>)
    requires forall m :: m in ms ==> Resolvable(m, directory)
    ensures |r| == |HistoryMatches(ms, u)| == |Involving(ms, u)|
    ensures forall k :: 0 <= k < |r| ==> r[k] == Entry(HistoryMatches(ms, u)[k], directory)
    ensures forall i, j :: 0 <= i < j < |r| ==> r[i].date >= r[j].date
    ensures UniqueIds(ms) ==> forall i, j :: 0 <= i < j < |r| ==> r[i].matchId != r[j].matchId
  {
    var sorted := HistoryMatches(ms, u);
    assert |sorted| == |Involving(ms, u)| by {
      assert |multiset(sorted)| == |multiset(Involving(ms, u))|;
    }
    assert forall k :: 0 <= k < |sorted| ==> Resolvable(sorted[k], directory) by {
      forall k | 0 <= k < |sorted| ensures Resolvable(sorted[k], directory) {
        assert sorted[k] in sorted;
      }
    }
    var r := seq(|sorted|, k requires 0 <= k < |sorted| => Entry(sorted[k], directory));
    assert UniqueIds(ms) ==> forall i, j :: 0 <= i < j < |r| ==> r[i].matchId != r[j].matchId by {
      if UniqueIds(ms) {
        HistoryOncePerMatch(ms, u);
        forall i, j | 0 <= i < j < |r| ensures r[i].matchId != r[j].matchId {
          assert r[i].matchId == sorted[i].id && r[j].matchId == sorted[j].id;
        }
      }
    }
    r
  }

  /** The clock never runs backwards along the ledger. */
  predicate ClockMonotone(ms: seq<Match>) {
    forall i, j :: 0 <= i < j < |ms| ==> ms[i].createdAt <= ms[j].createdAt
  }

  function Reverse(s: seq<Match>): (r: seq<Match>)
    ensures |r| == |s|
  {
    if s == [] then [] else [s[|s| - 1]] + Reverse(s[..|s| - 1])
  }

  lemma {:induction false} InvolvingKeepsClockOrder(ms: seq<Match>, u: int)
    requires ClockMonotone(ms)
    ensures ClockMonotone(Involving(ms, u))
  {
    if ms != [] {
      var n := |ms| - 1;
      assert ClockMonotone(ms[..n]);
      InvolvingKeepsClockOrder(ms[..n], u);
      var rest := Involving(ms[..n], u);
      forall j | 0 <= j < |rest| ensures rest[j].createdAt <= ms[n].createdAt {
        assert rest[j] in rest;
        var i :| 0 <= i < n && ms[..n][i] == rest[j];
      }
    }
  }

  lemma {:induction false} SortOfClockOrderIsReverse(s: seq<Match>)
    requires ClockMonotone(s)
    ensures SortByDate(s) == Reverse(s)
  {
    if s != [] {
      var n := |s| - 1;
      assert ClockMonotone(s[..n]);
      SortOfClockOrderIsReverse(s[..n]);
      var sorted := SortByDate(s[..n]);
      if sorted != [] {
        assert sorted[0] in multiset(s[..n]);
        assert sorted[0] in s[..n];
      }
    }
  }

  /**
   * Under a clock that never runs backwards, the history is simply the user's matches
   * in reverse creation order.
   */
  lemma HistoryUnderMonotoneClock(ms: seq<Match>, u: int)
    requires ClockMonotone(ms)
    ensures HistoryMatches(ms, u) == Reverse(Involving(ms, u))
  {
    InvolvingKeepsClockOrder(ms, u);
    SortOfClockOrderIsReverse(Involving(ms, u));
  }
}
