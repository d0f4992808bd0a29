/** Two concrete rooms in the `answers` stage on which the source's
    `addAnswers` accepts an answer that is not a bijection, with what
    `finishGame` then does with it. Four players 10, 20, 30 and 40 own
    facts 1, 2, 3 and 4; player 10 leads. */
module Counterexamples {
  import opened Lists
  import opened PlayerFacts
  import opened AnswerRules
  import opened Rooms
  import opened FinalAnswers
  import opened Scoring

  function DemoFacts(): (fs: seq<PlayerFact>)
    ensures NoDup(Owners(fs))
  {
    [PlayerFact(1, "a", 10), PlayerFact(2, "b", 20), PlayerFact(3, "c", 30), PlayerFact(4, "d", 40)]
  }

  /** Fresh candidate lists, as `startAbout` seeds them: each player
      tracks the other three facts, with no suspects yet. */
  function DemoCandidates(): map<PlayerId, seq<Candidate>> {
    map[10 := [Candidate(2, []), Candidate(3, []), Candidate(4, [])],
        20 := [Candidate(1, []), Candidate(3, []), Candidate(4, [])],
        30 := [Candidate(1, []), Candidate(2, []), Candidate(4, [])],
        40 := [Candidate(1, []), Candidate(2, []), Candidate(3, [])]]
  }

  /** The room after five laps of turns, with fresh candidate lists and
      the given answers recorded. */
  function DemoRoom(answers: map<PlayerId, Answer>): Room {
    Room(Answers, "ROOM", 10,
         [Player(10, "A", true), Player(20, "B", true), Player(30, "C", true), Player(40, "D", true)],
         [20, 30, 40], DemoFacts(), 5, 40, 5, DemoCandidates(), answers, [], [])
  }

  /** Before any answer the demonstration room satisfies the invariant, so
      both counterexamples start from a room of the kind the game reaches. */
  lemma DemoRoomValid()
    ensures Valid(DemoRoom(map[]))
  {
    DemoRosterOk();
    DemoFactsOk();
    DemoCandidatesOk();
  }

  lemma DemoRosterOk()
    ensures RosterOk(DemoRoom(map[]))
  {
    assert Ids(DemoRoom(map[]).players) == [10, 20, 30, 40];
  }

  lemma DemoFactsOk()
    ensures FactsOk(DemoRoom(map[]))
  {
    var r := DemoRoom(map[]);
    assert Ids(r.players) == [10, 20, 30, 40];
    assert Owners(r.facts) == [10, 20, 30, 40];
    forall id <- Ids(r.players) ensures HasFact(r.facts, id) { }
  }

  lemma Seeded10() ensures CandidateKeys(DemoCandidates()[10]) == FactIds(OthersFacts(DemoFacts(), 10)) { }
  lemma Seeded20() ensures CandidateKeys(DemoCandidates()[20]) == FactIds(OthersFacts(DemoFacts(), 20)) { }
  lemma Seeded30() ensures CandidateKeys(DemoCandidates()[30]) == FactIds(OthersFacts(DemoFacts(), 30)) { }
  lemma Seeded40() ensures CandidateKeys(DemoCandidates()[40]) == FactIds(OthersFacts(DemoFacts(), 40)) { }

  lemma DemoCandidatesOk()
    ensures CandidatesOk(DemoRoom(map[]))
  {
    var r := DemoRoom(map[]);
    assert Ids(r.players) == [10, 20, 30, 40];
    assert r.candidates.Keys == {10, 20, 30, 40};
    assert r.stage.Rank() >= About.Rank();
    assert CandidateKeys(r.candidates[10]) == FactIds(OthersFacts(r.facts, 10)) by { Seeded10(); }
    assert CandidateKeys(r.candidates[20]) == FactIds(OthersFacts(r.facts, 20)) by { Seeded20(); }
    assert CandidateKeys(r.candidates[30]) == FactIds(OthersFacts(r.facts, 30)) by { Seeded30(); }
    assert CandidateKeys(r.candidates[40]) == FactIds(OthersFacts(r.facts, 40)) by { Seeded40(); }
    FourPlayerCandidatesOk(r);
  }

  /** Candidate lists keyed by the other players' facts for each of four
      roster players make the candidate part of the invariant hold. */
  lemma FourPlayerCandidatesOk(r: Room)
    requires r.stage.Rank() >= About.Rank() && Ids(r.players) == [10, 20, 30, 40]
    requires r.candidates.Keys == {10, 20, 30, 40}
    requires CandidateKeys(r.candidates[10]) == FactIds(OthersFacts(r.facts, 10))
    requires CandidateKeys(r.candidates[20]) == FactIds(OthersFacts(r.facts, 20))
    requires CandidateKeys(r.candidates[30]) == FactIds(OthersFacts(r.facts, 30))
    requires CandidateKeys(r.candidates[40]) == FactIds(OthersFacts(r.facts, 40))
    ensures CandidatesOk(r)
  {
    assert (set p | p in Ids(r.players)) == {10, 20, 30, 40};
  }

  /** Player 10 places their own fact on themselves; `addAnswers` records
      it and `playerGuesses(10)` then lists 10. */
  lemma SelfGuessAsWritten()
    ensures var a := [Entry(1, 10), Entry(2, 20), Entry(3, 30), Entry(4, 40)];
            && AddAnswers(DemoRoom(map[]), 10, a).Ok?
            && Valid(AddAnswers(DemoRoom(map[]), 10, a).value)
            && Guesses(AddAnswers(DemoRoom(map[]), 10, a).value, 10).Some?
            && 10 in Guesses(AddAnswers(DemoRoom(map[]), 10, a).value, 10).value
  {
    var a := [Entry(1, 10), Entry(2, 20), Entry(3, 30), Entry(4, 40)];
    var r := DemoRoom(map[]);
    var r' := r.(answers := map[10 := a]);
    assert Ids(r.players) == [10, 20, 30, 40];
    assert AddAnswers(r, 10, a) == Ok(r') by { SelfPlacementAccepted(); }
    assert Owners(r'.facts) == [10, 20, 30, 40];
    assert FactOf(r'.facts, 10) == Some(PlayerFact(1, "a", 10)) by {
      FactOfUnique(r'.facts, PlayerFact(1, "a", 10));
    }
    assert Guesses(r', 10).Some? by {
      forall e <- a ensures HasFact(r'.facts, e.playerId) { }
    }
    SelfGuessCounts(r', 10);
    DemoRoomValid();
    AddAnswersPreservesValid(r, 10, a);
  }

  /** Player 10 adds a pair for a fact 99 and a player 99 that do not
      exist; `addAnswers` records it and, once the others have answered,
      `finishGame` throws. */
  lemma UnknownTargetThrowsAsWritten(reward: int, offs: int)
    ensures var others := map[20 := [Entry(1, 10), Entry(3, 30), Entry(4, 40)],
                              30 := [Entry(1, 10), Entry(2, 20), Entry(4, 40)],
                              40 := [Entry(1, 10), Entry(2, 20), Entry(3, 30)]];
            var a := [Entry(2, 20), Entry(3, 30), Entry(4, 40), Entry(99, 99)];
            && AddAnswers(DemoRoom(others), 10, a).Ok?
            && FinishGame(AddAnswers(DemoRoom(others), 10, a).value, 10, reward, offs).Threw?
  {
    var others := map[20 := [Entry(1, 10), Entry(3, 30), Entry(4, 40)],
                      30 := [Entry(1, 10), Entry(2, 20), Entry(4, 40)],
                      40 := [Entry(1, 10), Entry(2, 20), Entry(3, 30)]];
    var a := [Entry(2, 20), Entry(3, 30), Entry(4, 40), Entry(99, 99)];
    var r := DemoRoom(others);
    UnknownTargetAccepted();
    assert Ids(r.players) == [10, 20, 30, 40];
    var r' := AddAnswers(r, 10, a).value;
    assert AllAnswered(r');
    assert Owners(r'.facts) == [10, 20, 30, 40];
    assert !HasFact(r'.facts, 99);
    assert Entry(99, 99) in r'.answers[10];
    assert Guesses(r', r'.players[0].id).None?;
  }
}
