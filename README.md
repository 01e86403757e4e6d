# Tournament engine and social graph of the transcendence backend

This project models, in Dafny, the two service cores of the transcendence backend:

* **The tournament service** (`tournament-service/src/services/tournamentService.ts`). A
  `TournamentStore` holds four tables in memory:
  * the user table as this service sees it (`directory`, id to username);
  * the tournaments, in id order;
  * the match ledger, in creation order;
  * the player-stats rows.

  Its methods are the service's operations:
  * `createTournament` checks that the roster has four distinct, known players;
  * `getNextMatch` is the four-player single-elimination state machine, whose phase is derived from how many matches the tournament already has;
  * `recordMatchResult` settles a match at most once and updates the stats;
  * `recordVsPlayerMatch` records a standalone match that is created already settled;
  * `initializeOrUpdatePlayerStats`;
  * `getPlayerStats`;
  * `getUserMatchHistory`.

  The pure parts are functions with their own lemmas, in four modules:
  * `Bracket`: the roster check and the bracket phases;
  * `Ledger`: stats as a tally of settled matches;
  * `History`: the filter and the newest-first sort behind the match history;
  * `Store`: the store invariant and one lemma per kind of change.
* **The user service** (`user-service/src/services/userService.ts`). A `UserService` holds
  the user table, the friends table (rows in creation order) and the set of block rows. It
  implements `createUser`, `getUserById`, `getUserByUsername`, `addFriend`, `blockUser`,
  `updateUsername`, `updatePhoto` and `getFriends`. The merge-and-deduplicate pipeline of
  `getFriends` is modelled in `Social` as functions with lemmas.

## The store invariant

The central property is `Store.StoreValid`, kept by every state-changing method of
`TournamentStore` as `Valid()`. It says:

* every tournament has a valid roster of known players, host first;
* every tournament's matches, in creation order, are a prefix of the bracket:
  * `roster[0]` vs `roster[1]`;
  * then `roster[2]` vs `roster[3]`;
  * then the first semifinal's winner vs the second's;
  * no more than three matches in all;
* a completed tournament has all three matches;
* every match has two different known players, and any winner it has is one of them;
* each player's stats row equals the games and wins that the settled matches of the ledger
  account for (`Ledger.Tally`).

From this, `wins <= games` follows for every player (`Store.StatsBounded`). So does the
fact that each settlement adds exactly one game to each participant and one win to the winner.

Modelling choices:

* Ids are positive integers, because the source tests `winnerId` for truthiness, so an
  id of 0 would read as unset.
* Row ids are autoincrement, as the tables' generated ids are: the row at position `i`
  has id `i + 1`.
* A match's winner is an `Option`.
* `tournament.matches` is read in creation order.
* The creation time of a match is a parameter `now` of the methods that create one.

The model keeps these behaviours of the code, which a reader might not expect:

* `getNextMatch` completes a tournament on any call that finds three or more matches. It
  does not look at whether the final has a winner.
* `recordMatchResult` does not look at the status of the match's tournament.
* `getPlayerStats` creates a zero row for any id, known or not.

## Model

| member | source | states |
|---|---|---|
| Bracket.ToSet | tournament-service/src/services/tournamentService.ts:7 | `new Set(ids)` holds the ids of the list, no more than the list is long, and exactly as many exactly when the list has no repeats |
| Bracket.Found | tournament-service/src/services/tournamentService.ts:11-15 | the users `findMany` returns are roster ids that name a user; for a repeat-free list, as many come back as ids went in exactly when every id names a user |
| Bracket.RosterValid | tournament-service/src/services/tournamentService.ts:6-9 | the length-and-set-size roster check holds exactly for four distinct ids |
| Bracket.BothFound | tournament-service/src/services/tournamentService.ts:170-173 | for two different ids, the lookup returns two users exactly when both ids name a user |
| Bracket.MatchesOf | tournament-service/src/services/tournamentService.ts:32-38 | a tournament's matches are exactly the ledger's matches carrying its id, and never more than the ledger holds |
| Bracket.MatchesOfNone | tournament-service/src/services/tournamentService.ts:17-26 | a tournament that no match names has no matches, as a newly created one |
| Bracket.MatchesOfAppend | tournament-service/src/services/tournamentService.ts:54-60 | creating a match extends exactly its own tournament's match list |
| Bracket.NextPairing | tournament-service/src/services/tournamentService.ts:51-109 | the phase by match count: complete exactly at three or more matches; a failure exactly when two matches exist and one lacks a winner, and it is the unsettled-semifinals error |
| Bracket.NextPairingExtendsBracket | tournament-service/src/services/tournamentService.ts:52-101 | every pairing is two different roster members; the final pairs a player of the first semifinal against one of the second; the new match keeps the bracket shape |
| Bracket.MatchesOfSettled | tournament-service/src/services/tournamentService.ts:152-155 | settling matches in the ledger settles the same positions of every tournament's list and changes nothing else |
| Bracket.BracketSettled | tournament-service/src/services/tournamentService.ts:143-155 | setting winners on unsettled matches never breaks a tournament's bracket |
| Ledger.Credit | tournament-service/src/services/tournamentService.ts:157-159 | a settled match adds one game to each of its players and one win to its winner alone; everyone else and every unsettled match add nothing; wins never grow more than games |
| Ledger.TallyOfStranger | tournament-service/src/services/tournamentService.ts:157-159 | a player who is in no match has zero games and zero wins |
| Ledger.WinsAtMostGames | tournament-service/src/services/tournamentService.ts:157-159 | when every winner is one of its match's players, each player's tallied wins are at most their games |
| Ledger.TallyAppend | tournament-service/src/services/tournamentService.ts:180-190 | appending a match changes each player's tally by exactly that match's credit |
| Ledger.TallySettle | tournament-service/src/services/tournamentService.ts:152-159 | settling one unsettled match changes each player's tally by exactly the settled match's credit |
| Ledger.CreditBothPlayers | tournament-service/src/services/tournamentService.ts:158-159 | the two row updates after a settlement add one game to each participant and one win to the winner, leave every other row unchanged, and create both rows |
| History.Involving | tournament-service/src/services/tournamentService.ts:211-217 | the selected matches are exactly those in which the user is player 1 or player 2 |
| History.InvolvingCounts | tournament-service/src/services/tournamentService.ts:211-217 | the filter keeps each of the user's matches exactly as often as the ledger holds it, and no other match |
| History.InsertByDate | tournament-service/src/services/tournamentService.ts:223 | inserting into a newest-first list keeps it newest first and adds exactly that match |
| History.SortByDate | tournament-service/src/services/tournamentService.ts:223 | the result is newest first and a permutation of the input |
| History.HistoryMatches | tournament-service/src/services/tournamentService.ts:211-224 | the user's matches, newest first, as a permutation of the filtered ledger (so, by `InvolvingCounts`, each as often as in the ledger) |
| History.HistoryOncePerMatch | tournament-service/src/services/tournamentService.ts:211-224 | over a ledger whose match ids are unique, each match of the user appears once: no two history positions share a match id |
| History.MatchHistory | tournament-service/src/services/tournamentService.ts:210-233 | one entry per match of the user, the k-th built from the k-th match newest first, dates non-increasing, and no match id twice when the ledger's ids are unique |
| History.InvolvingKeepsClockOrder | tournament-service/src/services/tournamentService.ts:211-217 | filtering keeps a ledger's creation-time order |
| History.SortOfClockOrderIsReverse | tournament-service/src/services/tournamentService.ts:223 | sorting a list whose times never decrease reverses it |
| History.HistoryUnderMonotoneClock | tournament-service/src/services/tournamentService.ts:210-224 | under a clock that never runs backwards, the history is the user's matches in reverse creation order |
| Store.StatsBounded | tournament-service/src/services/tournamentService.ts:195-208 | in a valid store every player's wins are at most their games |
| Store.TournamentBracket | tournament-service/src/services/tournamentService.ts:51-109 | in a valid store every tournament has at most three matches, in bracket shape, and all three once completed |
| Store.NewTournamentKeepsStore | tournament-service/src/services/tournamentService.ts:17-26 | adding an ongoing tournament with a valid roster of known players keeps the invariant, and it has no matches |
| Store.ScheduleKeepsStore | tournament-service/src/services/tournamentService.ts:52-101 | creating the match the phase asks for keeps the invariant; its players are different known roster members |
| Store.CompleteKeepsStore | tournament-service/src/services/tournamentService.ts:104-109 | marking a tournament with three matches completed keeps the invariant |
| Store.SettleKeepsStore | tournament-service/src/services/tournamentService.ts:152-159 | settling an unsettled match with one of its players, and crediting the rows, keeps the invariant |
| Store.CasualMatchKeepsStore | tournament-service/src/services/tournamentService.ts:180-190 | appending a settled standalone match, and crediting the rows, keeps the invariant |
| Tournaments.TournamentStore.CreateTournament | tournament-service/src/services/tournamentService.ts:5-29 | InvalidRoster unless four distinct ids; PlayerNotFound if one is unknown; success exactly otherwise, appending an ongoing, host-first tournament with no matches; a failure changes nothing |
| Tournaments.TournamentStore.GetNextMatch | tournament-service/src/services/tournamentService.ts:31-110 | TournamentNotFound, then TournamentCompleted, changing nothing; otherwise the phase's effect: unsettled semifinals change nothing, a new match is appended and described with directory names, or the tournament is marked completed |
| Tournaments.TournamentStore.Schedule | tournament-service/src/services/tournamentService.ts:52-101 | appends exactly the unsettled match of the phase's pairing and describes both players |
| Tournaments.TournamentStore.Complete | tournament-service/src/services/tournamentService.ts:104-109 | only that tournament's status changes, to completed |
| Tournaments.TournamentStore.InitializeOrUpdatePlayerStats | tournament-service/src/services/tournamentService.ts:113-131 | the user's row becomes the old row, or zeros, plus the increments; no other row changes |
| Tournaments.TournamentStore.CreditPlayers | tournament-service/src/services/tournamentService.ts:157-159 | the two stats updates after a settlement credit each player with that match, so each participant gains one game and the winner one win; no other row changes and both rows exist afterwards |
| Tournaments.TournamentStore.RecordMatchResult | tournament-service/src/services/tournamentService.ts:133-162 | MatchNotFound, AlreadySettled, NotAParticipant, each changing nothing; otherwise only that match gets its winner, each participant gains one game, the winner one win, nobody else changes |
| Tournaments.TournamentStore.RecordVsPlayerMatch | tournament-service/src/services/tournamentService.ts:165-193 | SamePlayers, then PlayersNotFound, changing nothing; otherwise appends a settled standalone match with the flag's winner and applies the same stats update |
| Tournaments.TournamentStore.GetPlayerStats | tournament-service/src/services/tournamentService.ts:195-208 | returns the stored row or zeros, creating it; it equals the ledger's tally and wins are at most games |
| Tournaments.TournamentStore.GetUserMatchHistory | tournament-service/src/services/tournamentService.ts:210-233 | exactly the history of the user's matches, newest first: one entry per match the user played, each the entry of such a match, no match id twice, dates non-increasing |
| Social.FindBy | user-service/src/services/userService.ts:19-42 | the position of a user whose unique column, username or email, holds the value (the uniqueness test of `user.create` and the `findUnique` by username), or -1 exactly when no user holds it |
| Social.FindIndex | user-service/src/services/userService.ts:135 | the first position of the id, or -1 exactly when it is absent |
| Social.KeepFrom | user-service/src/services/userService.ts:134-136 | the filter from a position on keeps at most the remaining values |
| Social.KeepFromMembers | user-service/src/services/userService.ts:134-136 | from a position on, the filter keeps exactly the values whose first occurrence is there or later |
| Social.KeepFromOrder | user-service/src/services/userService.ts:134-136 | the kept values are in the order of their first occurrences |
| Social.FirstOccurrences | user-service/src/services/userService.ts:134-136 | the filter keeps every value, once, in order of first occurrence |
| Social.Outgoing | user-service/src/services/userService.ts:132 | exactly the users this user added |
| Social.Incoming | user-service/src/services/userService.ts:133 | exactly the users who added this user |
| Social.FriendIds | user-service/src/services/userService.ts:131-136 | the merged, deduplicated friend ids are exactly the users related by a friendship row in either direction, each once |
| Social.OutgoingFirst | user-service/src/services/userService.ts:131-136 | in the merged friend list, the users this user added come before those who added this user |
| Social.FriendIdsInRange | user-service/src/services/userService.ts:115-124 | friend lists name only ids that some friendship row holds |
| Users.UserService.CreateUser | user-service/src/services/userService.ts:17-27 | UniqueViolation exactly when the username or the email is taken, and success exactly otherwise, appending the user with the next id and no photo |
| Users.UserService.GetUserById | user-service/src/services/userService.ts:29-38 | the stored user with that id, or UserNotFound exactly when none exists |
| Users.UserService.GetUserByUsername | user-service/src/services/userService.ts:40-49 | the one stored user with that username, or UserNotFound exactly when none exists |
| Users.UserService.AddFriend | user-service/src/services/userService.ts:51-66 | AlreadyFriends when that ordered pair exists (the reverse is not looked at); success exactly when it is new and names two users, adding exactly that row |
| Users.UserService.BlockUser | user-service/src/services/userService.ts:68-83 | AlreadyBlocked exactly when the ordered pair exists, success exactly when it is new, adding exactly that row |
| Users.UserService.UpdateUsername | user-service/src/services/userService.ts:85-99 | UsernameTaken when another user holds the name, then UserNotFound; success exactly when the name is free or the user's own and the user exists, and then only that user's username changes |
| Users.UserService.UpdatePhoto | user-service/src/services/userService.ts:101-108 | UserNotFound exactly for a missing user, success exactly for an existing one, and then only that user's photo changes |
| Users.UserService.GetFriends | user-service/src/services/userService.ts:110-149 | UserNotFound exactly for a missing user; otherwise one view per friend id, in friend-list order, with that user's name and photo |
| Users.UserService.FriendsAreTheRelatedUsers | user-service/src/services/userService.ts:131-144 | an existing user's friend views name each user related by a friendship row in either direction exactly once, and nobody else |

## Left out

- Persistence, Prisma and its I/O: the tables are in-memory sequences, sets and maps.
- Console logging (`console.error`, `console.table`) is not modelled.
- Concurrency. Each operation is one atomic step, and partial failure is not modelled. This covers:
  - the read-then-write races of `getNextMatch` and `recordMatchResult`;
  - the gap between settling a match and updating the two stats rows.
- The wall clock: a match's `createdAt` is the `now` parameter of the method that creates it.
- The user table as the tournament service sees it is a fixed id-to-username map. Users created while a tournament runs are not modelled.
- The tie order of the history among equal timestamps is not fixed by the query. `History.SortByDate` puts the later-created match first.
- The order of `tournament.players` is taken to be the roster order given at creation.
- The rows of `friendsAsUser` and `friendsAsFriend` are read without an ordering, so their order within each direction is taken to be the order in which the friendships were created. `Social.Outgoing` and `Social.Incoming` keep that order.
- The mapping of errors to HTTP status codes, and the controllers, routes, middlewares and servers, are not modelled.
- The frontend, the chat service and the authentication services are not modelled.
- Uniqueness of email:
  - the user model relies on the table's unique username and unique email;
  - `findUnique` is used on both keys (user-service/src/services/userService.ts:42, backend/services/authService.ts:23);
  - the database schema itself is not part of this model.
- `AddFriend` fails with `ForeignKeyViolation` for an id that names no user; this is the store's relation constraint, and the service itself does not check it.
- A friendship of a user with itself is not refused, as in the source.
- Blocks carry no such constraint, because no relation on the blocked table is visible.
- The `createdAt` timestamps that `addFriend` and `blockUser` write on friendship and block rows (user-service/src/services/userService.ts:59, :76) are left out of `Friendship` and `Block`, because no operation of the user service reads them.
- `Tournaments.TournamentStore.GetNextMatch` takes the display data of a match descriptor from the directory, not from the tournament's player rows. This gives the same names, because every roster member is a known user.
- `Tournaments.TournamentStore.InitializeOrUpdatePlayerStats` takes both increments as required, non-negative arguments. The source makes `games` and `wins` optional with a default of 0, but every caller gives both, and only non-negative ones.
- Counters and ids are unbounded integers. The integer width of the database columns, and any overflow, are not modelled.
