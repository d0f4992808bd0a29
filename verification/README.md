# Room engine of po-factu-server, in Dafny

This project models the game room of the po-factu party-game server
(`src/Room.ts` and the `PlayerFact` record of `src/PlayerFact.ts`). A room
goes through the stages `waiting → facts → about → turns → answers → final`:

- players join a lobby and mark themselves ready;
- each player writes one secret fact about themselves;
- players take turns talking, one lap in `about` and four laps in `turns`;
- while listening, each player notes which players they suspect of owning each
  other fact;
- each player submits a final pairing of facts to players, and the leader
  scores the game.

The room is an immutable `Rooms.Room` record. Each player action is a pure
function. It returns `Err(error)` with the room unchanged, or `Ok(room')`.
Where the source guards an action with `assert(this.stage === …)`, the model
has a `requires` instead of an error result. Where the source would throw
through a `!` dereference while scoring, the model returns `None` (in
`Scoring.Guesses`, `Scoring.GuessedBy`, `Scoring.Tally`) or `Threw` (in
`Scoring.FinishGame`). The other `!` dereferences, in
`changeFactCandidates` and in the per-stage getters, become preconditions
instead; the invariant shows that every roster player meets them (see
"Left out").

The ghost predicate `Rooms.Valid` is the invariant of every reachable room:

- roster ids are unique and never `-1`;
- fact ids strictly increase and stay below the id sequence;
- each player owns at most one fact, and every player owns one from `about` on;
- the current turn is a roster player while turns are played;
- every player has candidate lists keyed by exactly the other players' facts;
- every recorded answer passed the source's validation.

Every action comes with a lemma showing that it preserves `Valid`.

Modules, one file each:

| file | module | models |
|---|---|---|
| lists.dfy | `Lists` | `indexOf`/`findIndex`, `splice`, duplicate-freedom, sublists |
| facts.dfy | `PlayerFacts` | `PlayerFact` and its public `toJSON` form |
| rooms.dfy | `Rooms` | the room record, errors, `getPlayerFact`, the constructor, `Valid` |
| lobby.dfy | `Lobby` | `setLeader`, `addPlayer`, `connectPlayer`, `disconnectPlayer`, `setPlayerReadyState`, `startFacts` |
| fact_stage.dfy | `FactStage` | `addFact`, `dropFact`, `startAbout` |
| rotation.dfy | `Rotation` | `setNextTurn`, `startTurns`, `startAnswers`, `nextTurn`, `leaderNextTurn`, and the full turn schedule |
| candidates.dfy | `CandidateLists` | `changeFactCandidates` |
| answer_rules.dfy | `AnswerRules` | the validation inside `addAnswers`, and the corrected check |
| answers.dfy | `FinalAnswers` | `addAnswers`, `dropAnswers` |
| scoring.dfy | `Scoring` | `playerGuesses`, `playerGuessedBy`, `finishGame` |
| counterexamples.dfy | `Counterexamples` | two concrete rooms showing the gaps in `addAnswers` |
| recipients.dfy | `Recipients` | `filterPlayers` |
| views.dfy | `Views` | `getRoomState` and the six per-stage getters |

The scoring constants `GUESSING_REWARD` and `GUESSED_OFFS` live in a
`constants` module that is not part of this model. They are the parameters
`reward` and `offs`. A player's transport connection is the boolean
`Player.connected`.

## Model

| member | source | states |
|---|---|---|
| PlayerFacts.NewFact | src/PlayerFact.ts:6-10 | the constructor stores id, text and owner exactly as given |
| PlayerFacts.ToPublic | src/PlayerFact.ts:12-17 | `toJSON` keeps the fact's id and text unchanged |
| PlayerFacts.PublicHidesOwner | src/PlayerFact.ts:12-17 | the public form is the same whoever owns the fact: it carries no owner |
| PlayerFacts.PublicFacts | src/Room.ts:185 | the public fact list has one entry per fact, the public form of the fact at the same position |
| PlayerFacts.PublicFactsIgnoreOwners | src/PlayerFact.ts:12-17 | two fact lists with the same ids and texts in the same order have the same public list, whatever their owners |
| Lists.IndexOf | src/Room.ts:377 | `findIndex` gives -1 exactly when the value is absent, otherwise the position of its first occurrence |
| Lists.RemoveAtDistinct | src/Room.ts:293-297 | `splice(i, 1)` on a duplicate-free list removes exactly that value and keeps the list duplicate-free |
| Lists.DistinctBySize | src/Room.ts:447-452 | the idiom `new Set(xs).size !== xs.length` detects exactly a repeated element |
| Rooms.FactOf | src/Room.ts:370-372 | `getPlayerFact` finds a fact exactly when the player owns one, and the fact found is owned by that player |
| Rooms.FactOfUnique | src/Room.ts:370-372 | with one fact per owner, `getPlayerFact` returns the owner's one fact |
| Rooms.OthersFacts | src/Room.ts:126-128 | `facts.filter(f => f.ownerId !== p)` keeps exactly the facts not owned by `p`, in order |
| Rooms.NewRoom | src/Room.ts:39-56 | a new room is in `waiting` with its code, no players, no facts, nobody ready, no leader, no current turn, lap count 0, no candidates, answers, results or guesses, and the fact sequence at 1; it satisfies the invariant |
| Rooms.ValidWithSameIds | src/Room.ts:266-309 | changing connection flags, with the roster's ids and a valid leader unchanged, keeps the invariant |
| Lobby.MarkDisconnected | src/RoomPlayer.ts:32-46 | closing a player's connection keeps the roster's ids and order, clears exactly the leaver's connection flag and changes nothing else about any player |
| Lobby.Unready | src/Room.ts:295-298 | the ready list loses the leaver and nobody else, and stays duplicate-free |
| Lobby.FirstConnected | src/Room.ts:336-338 | `players.find(p => p.connected)?.id ?? -1` is -1 when nobody is connected, otherwise the first connected player |
| Lobby.SetLeader | src/Room.ts:334-344 | only the leader changes: an explicit id becomes leader, -1 picks the first connected player or nobody |
| Lobby.AddPlayer | src/Room.ts:310-317 | the player is appended; an unled room is then led by them, a led room keeps its leader |
| Lobby.ConnectPlayer | src/Room.ts:266-285 | a connected id is refused as a duplicate session; an unknown id is refused outside `waiting`; it succeeds exactly when neither applies, changing only roster and leader: a new player is appended connected, or a known one reconnected; a led room keeps its leader, an unled room is led by a new joiner, or after a reconnection by the first connected player |
| Lobby.LeaveLobby | src/Room.ts:291-303 | in `waiting` a leaving player is removed from the roster (with unique ids, the roster is `splice`d at their index) and from the ready list, nobody else is; a departing leader is replaced by the first connected player left, or nobody; an unknown id changes nothing |
| Lobby.DropConnection | src/Room.ts:301-304 | after `waiting` every player stays on the roster unchanged except that the leaver's connection is closed; a departing leader is replaced by the first connected player, or nobody |
| Lobby.DisconnectPlayer | src/Room.ts:290-309 | `disconnectPlayer` removes the player in `waiting` and only disconnects them later |
| Lobby.Relead | src/Room.ts:301-303 | when the leader leaves, leadership passes to exactly the first connected player (`setLeader(-1)`), or to nobody, and never back to the one who left; any other departure keeps the leader |
| Lobby.SetPlayerReadyState | src/Room.ts:318-333 | refused outside `waiting`; otherwise only the ready list changes, the caller is in it exactly when `state` is true, others keep their state, and it stays duplicate-free |
| Lobby.SetReadyIdempotent | src/Room.ts:318-333 | setting the same ready state twice is setting it once |
| Lobby.StartFacts | src/Room.ts:98-113 | refused, in this order, unless the caller leads, the stage is `waiting`, every non-leader is ready and there are at least 4 players; success changes only the stage, to `facts` |
| Lobby.ConnectPreservesValid | src/Room.ts:266-285 | connecting keeps the invariant |
| Lobby.DisconnectPreservesValid | src/Room.ts:290-309 | disconnecting keeps the invariant |
| Lobby.SetReadyPreservesValid | src/Room.ts:318-333 | changing the ready list keeps the invariant |
| Lobby.StartFactsPreservesValid | src/Room.ts:98-113 | opening `facts` keeps the invariant, including the 4-player minimum |
| FactStage.AddFact | src/Room.ts:346-358 | refused outside `facts` and for a second fact from the same owner, and succeeds exactly when neither applies; then the fact gets id `factIdSeq`, the sequence increments, the fact is appended, the owner finds it by `getPlayerFact`, and the reply is its public form |
| FactStage.DropFact | src/Room.ts:359-369 | refused outside `facts` and without a fact, and succeeds exactly when the caller has a fact in `facts`; then only the fact list changes: exactly one fact goes, the rest stay in order, and with one fact per owner the caller's fact is the one removed |
| FactStage.Seed | src/Room.ts:126-128 | a fresh candidate list has one entry with no suspects for each fact not owned by the player, in fact order |
| FactStage.StartAbout | src/Room.ts:115-132 | refused, in this order, unless the caller leads, the stage is `facts` and every player owns a fact, and succeeds exactly when all three hold; then only stage, candidates and turn change: every player gets fresh candidate lists for the others' facts, and `setNextTurn` runs on the room in `about` |
| FactStage.AddFactPreservesValid | src/Room.ts:346-358 | adding a fact keeps ids unique and increasing and one fact per owner |
| FactStage.DropFactPreservesValid | src/Room.ts:359-369 | dropping a fact keeps the invariant |
| FactStage.StartAboutPreservesValid | src/Room.ts:115-132 | opening `about` keeps the invariant: every player has a fact, a turn and candidate lists for the others' facts |
| FactStage.StartAboutOpensSchedule | src/Room.ts:115-132 | after `startAbout` the turn is at the head of the roster with no laps counted |
| Rotation.NextIndex | src/Room.ts:377 | the next turn index is one past the current player's roster position, or 0 when the current turn (such as -1) is not on the roster |
| Rotation.EndLapCounts | src/Room.ts:386-392 | ending a lap changes only the stage, the lap count and the turn, and counts the lap; `answers` opens exactly when the fourth lap is complete, with the turn left where it was; otherwise `turns` goes on with the first roster player |
| Rotation.SetNextTurn | src/Room.ts:374-392 | only stage, turn and lap count change; the stage never moves back or past `answers`; mid-lap the next roster player moves; the end of the `about` lap starts `turns` through `startTurns` |
| Rotation.NextTurn | src/Room.ts:394-406 | only the current player may advance; the reply is the new current turn when the stage stayed, and null when it changed |
| Rotation.LeaderNextTurn | src/Room.ts:407-419 | only the leader may advance for someone else, with the same reply |
| Rotation.SetNextTurnPreservesValid | src/Room.ts:374-392 | advancing keeps the current turn on the roster while turns are played |
| Rotation.TurnActionsPreserveValid | src/Room.ts:394-419 | both advancing actions keep the invariant |
| Rotation.WithinLap | src/Room.ts:376-378 | `k` advances within a lap move the turn `k` roster places on |
| Rotation.FullLap | src/Room.ts:374-392 | `n` passes from the head of the roster count one lap and return the turn to the head in `turns`, or, past the fourth lap, open `answers` with the turn left on the last player |
| Rotation.TurnsLaps | src/Room.ts:386-391 | `m` full laps of `turns` count `m` laps and return the turn to the head |
| Rotation.AboutLap | src/Room.ts:133-138 | one lap of `about` opens `turns` at lap 1 with the turn at the head |
| Rotation.TurnsPass | src/Room.ts:374-392 | the position of every pass of `turns` |
| Rotation.AnswersOpen | src/Room.ts:139-143 | five laps from the opening of `about` open `answers` |
| Rotation.Schedule | src/Room.ts:374-392 | the full schedule: each player has exactly one turn in `about` and exactly four in `turns`, in roster order, then `answers` opens |
| Rotation.AdvanceAdd | src/Room.ts:374-392 | advancing `a + b` times is advancing `a` then `b` times |
| CandidateLists.SuspectsOf | src/Room.ts:432 | the lookup of a fact's suspects finds an entry exactly when the fact is tracked |
| CandidateLists.SetSuspects | src/Room.ts:432-437 | replacing one fact's suspects keeps the keys, reads back the new suspects, and leaves every other fact's suspects unchanged |
| CandidateLists.ChangeFactCandidates | src/Room.ts:421-438 | refused, in this order, for the viewer's own fact, for a suspect off the roster and for an untracked fact, and succeeds exactly when none applies; then only that one (viewer, fact) list changes, to the given suspects |
| CandidateLists.ChangeKeepsSuspectsKnown | src/Room.ts:426-429 | suspects anywhere in the candidate map stay roster players |
| CandidateLists.ChangePreservesValid | src/Room.ts:421-438 | changing candidates keeps the invariant |
| CandidateLists.ChangeIdempotent | src/Room.ts:421-438 | recording the same suspects twice is recording them once |
| AnswerRules.Check | src/Room.ts:445-455 | the checks run in source order: repeated facts, a missing fact not the submitter's, repeated players, a missing player other than the submitter; it accepts exactly what passes all four |
| AnswerRules.BijectionAccepted | src/Room.ts:445-455 | every answer pairing the foreign facts one-to-one with the other players passes |
| AnswerRules.SelfPlacementAccepted | src/Room.ts:447-455 | an answer placing the submitter's own fact on the submitter passes, though it is not the intended pairing |
| AnswerRules.UnknownTargetAccepted | src/Room.ts:447-455 | an answer with an extra pair naming an unknown fact and player passes |
| AnswerRules.CheckStrict | src/Room.ts:445-455 | the corrected check accepts exactly the one-to-one pairings and otherwise refuses for the same reasons as the source |
| FinalAnswers.AddAnswers | src/Room.ts:440-458 | refused when already sent, then with the reason the validation gives; otherwise only that player's answer is recorded |
| FinalAnswers.AddAnswersStrict | src/Room.ts:440-458 | the corrected action records exactly the one-to-one pairings, and agrees with the source whenever it records |
| FinalAnswers.DropAnswers | src/Room.ts:459-466 | refused when nothing is recorded; otherwise only that player's answer is removed |
| FinalAnswers.AddThenDrop | src/Room.ts:440-466 | withdrawing an answer just recorded restores the room |
| FinalAnswers.DropThenAdd | src/Room.ts:440-466 | resubmitting a withdrawn answer restores the room |
| FinalAnswers.AddAnswersPreservesValid | src/Room.ts:440-458 | recording an answer keeps the invariant |
| FinalAnswers.DropAnswersPreservesValid | src/Room.ts:459-466 | withdrawing an answer keeps the invariant |
| FinalAnswers.StrictActionsKeepStrict | src/Room.ts:440-466 | with the corrected check every recorded answer stays a one-to-one pairing |
| Scoring.RightAnswer | src/Room.ts:242 | the answer key pairs every fact with its owner, in fact order |
| Scoring.Hit | src/Room.ts:481 | the filter test throws exactly when the target owns no fact, and otherwise holds exactly for an entry of the answer key |
| Scoring.CorrectTargets | src/Room.ts:479-483 | the correct targets are a sublist of the answer's players, exactly those paired with their own fact, and as many as the answer's entries in the key |
| Scoring.Guesses | src/Room.ts:479-483 | `playerGuesses` throws exactly when the player has no answer or names a target without a fact; otherwise it lists the targets placed on their true fact, one per entry found in the key |
| Scoring.FirstTarget | src/Room.ts:475 | the lookup finds an entry exactly when the fact is named, and with distinct facts it is the one pair naming it |
| Scoring.Guessers | src/Room.ts:470-477 | the filter throws exactly when another player's answer is missing or omits the fact; otherwise it lists, in roster order, the other players whose answer puts the fact on `p`, as many as `NamedBy` counts |
| Scoring.GuessedBy | src/Room.ts:468-478 | `playerGuessedBy` throws exactly when the player owns no fact or another answer omits it; it never lists the player and has fewer entries than the roster |
| Scoring.Tally | src/Room.ts:153-161 | the two `players.map`s fail exactly when some player's row throws; otherwise they give one score and one guess record per player, in roster order: the score is the reward times the player's right guesses minus the penalty times the players who guessed them, and the guess record names the player, their fact and exactly those who guessed them |
| Scoring.FinishGame | src/Room.ts:144-163 | refused unless the caller leads, then unless everyone has answered; it throws exactly when some player's scoring throws, with the stage already `final` and the tables untouched; otherwise it scores every player |
| Scoring.HasFactIffRoster | src/Room.ts:122-125 | from `about` on, owning a fact is being on the roster |
| Scoring.GuessedBySafe | src/Room.ts:468-478 | once everyone has answered, `playerGuessedBy` of a roster player never throws |
| Scoring.GuessesThrowIff | src/Room.ts:479-483 | `playerGuesses` throws exactly when the answer names someone off the roster |
| Scoring.ThrowsIffUnknownTarget | src/Room.ts:144-163 | `finishGame` as written throws exactly when some recorded answer names a target off the roster |
| Scoring.GuessDuality | src/Room.ts:468-483 | `q` guessed `p` in `playerGuessedBy(p)` exactly when `p` is in `playerGuesses(q)` |
| Scoring.SelfGuessCounts | src/Room.ts:479-483 | as written, a player who places their own fact on themselves counts as guessing themselves |
| Scoring.StrictNoSelfGuess | src/Room.ts:479-483 | with the corrected check nobody guesses themselves |
| Scoring.StrictNeverThrows | src/Room.ts:144-163 | with the corrected check `finishGame` always scores |
| Scoring.StrictGuessBound | src/Room.ts:479-483 | with the corrected check a player guesses at most the other `n - 1` players |
| Scoring.StrictScoreBounds | src/Room.ts:152-155 | with the corrected check and non-negative constants every score lies between `-(n-1)·offs` and `(n-1)·reward` |
| Scoring.ScoresMeaning | src/Room.ts:152-155 | a player's score is `reward` times their answer's entries found in the key, less `offs` times the other players who paired that player's fact with them |
| Scoring.FinishGamePreservesValid | src/Room.ts:144-163 | ending the game keeps the invariant, whether scoring finished or threw |
| Counterexamples.DemoRoomValid | src/Room.ts:115-132 | the demonstration room, with the candidate lists `startAbout` seeds and no answers yet, satisfies the invariant |
| Counterexamples.SelfGuessAsWritten | src/Room.ts:440-483 | in a concrete valid room, player 10's answer placing their own fact on themselves is recorded, the room stays valid, and the answer counts as a guess of themselves |
| Counterexamples.UnknownTargetThrowsAsWritten | src/Room.ts:144-163 | in a concrete room, an answer with a pair (99, 99) is recorded and `finishGame` then throws |
| Recipients.Keep | src/Room.ts:73-78 | one filter pass keeps, in order, exactly the players whose id is (or is not) listed |
| Recipients.FilterPlayers | src/Room.ts:71-80 | the recipients are an order-preserving sublist of the roster: with `include` only listed ids, and never an id in `exclude` |
| Recipients.FilterIdempotent | src/Room.ts:71-80 | filtering twice with the same filters is filtering once |
| Views.OwnFactId | src/Room.ts:184 | the viewer's own fact id is present exactly when they own a fact |
| Views.PlayerViews | src/Room.ts:172 | `players.map(p => p.toJSON())` gives one view per player, in roster order, with that player's id, name and connection |
| Views.GetRoomState | src/Room.ts:165-264 | each stage's view carries that stage's fields: facts only in public form, the current turn in `about` and `turns`, the viewer's own candidates and answer, and only in `final` the answer key with results |
| Views.HiddenBeforeFinal | src/Room.ts:165-229 | before `final`, the owners of other facts, other players' candidate lists and the content of other answers do not change what a viewer sees |
| Views.OwnersInvisible | src/Room.ts:165-229 | before `final`, reassigning the owners of facts (other than the viewer's own) does not change the view |
| Views.FinalRevealsOwners | src/Room.ts:230-247 | in `final`, rooms whose facts differ only in owners give different views |
| Views.RosterViewsReady | src/Room.ts:188-238 | in a valid room the getters never throw for a roster player |

## Left out

- Events and sockets (`sendString`, `sendEvent`, `sendRoomState`, `reconnectPlayer`) are transport. They are not modelled; the recipients `sendRoomState` picks are `Recipients.FilterPlayers`.
- The auto-close timers (`autoClose`, `dropAutoCloseTimer`) and their re-arming in `connectPlayer` and `disconnectPlayer` are wall-clock scheduling.
- The `constructor`'s `onClose` callback and the unused `turnsCount` field have no effect on the game.
- `src/RoomPlayer.ts` is modelled only as far as its connection flag (`Lobby.MarkDisconnected`). Its action dispatch calls room methods that `Room.ts` does not define. `RoomPlayer.toJSON` is modelled as `Views.PlayerView` with id, name and connection only. The `knownFact` and `score` fields it also reports are never changed by `Room.ts`.
- `src/index.ts`, `src/TgBot.ts` and `src/utils.ts` (server, bot, room codes) are not part of this model. `src/types.d.ts` and `src/events.d.ts` are type declarations that disagree with `Room.ts`; the model follows `Room.ts`.
- `disconnectPlayer` is called when a player's socket has closed, and `RoomPlayer.connected` reads the socket. The model therefore marks the player disconnected in `Lobby.DropConnection` (and the room never writes the flag otherwise).
- `getPlayer` is the lookup `IndexOf(Ids(players), id)` used inside `Lobby.ConnectPlayer`.
- CandidateLists.ChangeFactCandidates: `getPlayerFact(playerId)!` (src/Room.ts:423) and `candidatesMap[playerId]` (src/Room.ts:432) would throw for a caller without a fact or candidate lists; the model requires both instead of modelling the throw. In a valid room past `facts` every roster player meets the requirement (`Scoring.HasFactIffRoster`, `Rooms.CandidatesOk`).
- Views.GetRoomState: from `about` on, the getters dereference `getPlayerFact(playerId)!` (src/Room.ts:196, 209, 223, 238); the model requires `ViewReady` instead of modelling the throw. Every roster player of a valid room meets it (`Views.RosterViewsReady`).
- Views.GetRoomState: `answersSent` is the set of players who answered. The order of `Object.keys` is not modelled.
- Views.GetRoomState: a candidate map or answer lookup that is `undefined` in the source is `None`.
- Lobby.ConnectPreservesValid: requires the joining id to differ from -1. The source would accept id -1, which then collides with its "no leader" sentinel.
- Rotation.SetNextTurn: does not pin the stage after the move to one step, because from `about` with a lap count already at 4 or more, one advance goes straight to `answers`. It states the bound that the stage never moves back or past `answers`.
- Scoring.FinishGame: a throw is the `Threw` outcome. The stage is then `final` and the result table and guesses keep their old values, which is what the source leaves behind when `players.map` throws. Which dereference throws first is not distinguished.
- FinalAnswers.AddAnswers and the other actions take the room's stage assertions as preconditions. A caller that breaks one would crash the source's `assert`.

## Findings

| source | as written | input that shows it | evidently intended | confidence | as-written member | corrected member |
|---|---|---|---|---|---|---|
| src/Room.ts:447-455 | `addAnswers` checks only that facts and players are distinct and cover the others. A player may place their own fact on themselves, and `playerGuesses` (src/Room.ts:479-483) then counts that as a correct guess, worth `GUESSING_REWARD`. | Players 10, 20, 30, 40 own facts 1–4. Player 10 answers (1,10), (2,20), (3,30), (4,40). | An answer is a one-to-one pairing of the other players' facts with the other players, so nobody guesses themselves. | high; not executed | Counterexamples.SelfGuessAsWritten | Scoring.StrictNoSelfGuess |
| src/Room.ts:447-455 | `addAnswers` accepts extra pairs naming a fact and a player that do not exist. `finishGame` then dereferences `getPlayerFact(target)!` in `playerGuesses` (src/Room.ts:481) and throws a TypeError after setting the stage to `final`. The result table and guesses are never computed. | Same room. Player 10 answers (2,20), (3,30), (4,40), (99,99); the others answer correctly; the leader finishes. | Pairs outside the other players' facts and the other players are refused, so `finishGame` always scores. | high; not executed | Counterexamples.UnknownTargetThrowsAsWritten | Scoring.StrictNeverThrows |

The corrected validation is `AnswerRules.CheckStrict`. It runs the source's
four checks, then refuses a pair whose fact is not another player's fact
(`ForeignFacts`) or whose player is not another roster player
(`ForeignPlayers`). `FinalAnswers.AddAnswersStrict` records an answer with
it. `FinalAnswers.StrictActionsKeepStrict` keeps every recorded answer a
bijection. With that, `Scoring.StrictNeverThrows`,
`Scoring.StrictNoSelfGuess` and `Scoring.StrictScoreBounds` hold.
