/** Scoring of src/Room.ts: `playerGuesses` (the players whose fact a
    player placed correctly), `playerGuessedBy` (the other players who
    placed this player's fact correctly) and `finishGame`, which turns them
    into the result table. The source dereferences `getPlayerFact(..)!` and
    `find(..)!` here; where those would throw, the model returns `None`. */
module Scoring {
  import opened Lists
  import opened PlayerFacts
  import opened AnswerRules
  import opened Rooms
  import opened FinalAnswers

  /** The answer key revealed in the final view: every fact paired with
      its owner, in fact order. */
  function RightAnswer(facts: seq<PlayerFact>): (key: seq<Entry>)
    ensures |key| == |facts|
    ensures forall i :: 0 <= i < |facts| ==> key[i] == Entry(facts[i].id, facts[i].ownerId)
  {
    seq(|facts|, i requires 0 <= i < |facts| => Entry(facts[i].id, facts[i].ownerId))
  }

  /** How many entries of `a` appear in the answer key. */
  function RightCount(a: Answer, key: seq<Entry>): nat {
    if |a| == 0 then 0
    else (if a[0] in key then 1 else 0) + RightCount(a[1..], key)
  }

  /** The filter test of `playerGuesses`: does the entry's fact id equal the
      id of its target's fact? `None` when the target owns no fact. */
  function Hit(facts: seq<PlayerFact>, e: Entry): (o: Option<bool>)
    ensures o.None? <==> !HasFact(facts, e.playerId)
    ensures o.Some? && NoDup(Owners(facts)) ==> (o.value <==> e in RightAnswer(facts))
  {
    var f := FactOf(facts, e.playerId);
    if f.None? then None
    else
      assert NoDup(Owners(facts)) ==> (f.value.id == e.factId <==> e in RightAnswer(facts)) by {
        var k :| 0 <= k < |facts| && facts[k] == f.value;
        assert RightAnswer(facts)[k] == Entry(f.value.id, e.playerId);
        if NoDup(Owners(facts)) && e in RightAnswer(facts) {
          var j :| 0 <= j < |facts| && RightAnswer(facts)[j] == e;
          FactOfUnique(facts, facts[j]);
        }
      }
      Some(f.value.id == e.factId)
  }

  /** The targets of the entries of `a` that pass `Hit`, in answer order. */
  function CorrectTargets(a: Answer, facts: seq<PlayerFact>): (o: Option<seq<PlayerId>>)
    ensures o.None? <==> exists e <- a :: !HasFact(facts, e.playerId)
    ensures o.Some? ==> IsSublist(o.value, AnswerPlayers(a))
    ensures o.Some? && NoDup(Owners(facts)) ==>
              && (forall q :: q in o.value <==> exists e <- a :: e.playerId == q && e in RightAnswer(facts))
              && |o.value| == RightCount(a, RightAnswer(facts))
  {
    if |a| == 0 then Some([])
    else
      var h := Hit(facts, a[0]);
      var rest := CorrectTargets(a[1..], facts);
      assert AnswerPlayers(a)[1..] == AnswerPlayers(a[1..]);
      assert forall e :: e in a <==> e == a[0] || e in a[1..];
      if h.None? || rest.None? then None
      else if h.value then Some([a[0].playerId] + rest.value)
      else Some(rest.value)
  }

  /** `playerGuesses(p)`: `None` when `p` sent no answer or the filter
      meets a target without a fact. */
  function Guesses(r: Room, p: PlayerId): (o: Option<seq<PlayerId>>)
    ensures o.None? <==> p !in r.answers || exists e <- r.answers[p] :: !HasFact(r.facts, e.playerId)
    ensures o.Some? ==> IsSublist(o.value, AnswerPlayers(r.answers[p]))
    ensures o.Some? && NoDup(Owners(r.facts)) ==>
              && (forall q :: q in o.value <==> exists e <- r.answers[p] :: e.playerId == q && e in RightAnswer(r.facts))
              && |o.value| == RightCount(r.answers[p], RightAnswer(r.facts))
  {
    if p !in r.answers then None else CorrectTargets(r.answers[p], r.facts)
  }

  /** The target `a` gives fact `fid` (`answer.find(([f]) => f === fid)`). */
  function FirstTarget(a: Answer, fid: FactId): (o: Option<PlayerId>)
    ensures o.Some? <==> fid in AnswerFacts(a)
    ensures o.Some? ==> Entry(fid, o.value) in a
    ensures NoDup(AnswerFacts(a)) ==> forall x :: o == Some(x) <==> Entry(fid, x) in a
  {
    var i := IndexOf(AnswerFacts(a), fid);
    assert NoDup(AnswerFacts(a)) ==> forall x :: Entry(fid, x) in a ==> a[i].playerId == x by {
      if NoDup(AnswerFacts(a)) {
        forall x | Entry(fid, x) in a ensures a[i].playerId == x {
          var k :| 0 <= k < |a| && a[k] == Entry(fid, x);
          IndexOfDistinct(AnswerFacts(a), k);
        }
      }
    }
    if i < 0 then None else Some(a[i].playerId)
  }

  /** How many players of `ps` other than `p` answered with the pair
      (`fid`, `p`). */
  function NamedBy(ps: seq<Player>, answers: map<PlayerId, Answer>, p: PlayerId, fid: FactId): nat {
    if |ps| == 0 then 0
    else
      var q := ps[0].id;
      (if q != p && q in answers && Entry(fid, p) in answers[q] then 1 else 0) + NamedBy(ps[1..], answers, p, fid)
  }

  /** The filter of `playerGuessedBy` over the players `ps`, for `p` whose
      fact is `fid`: `None` when some other player's answer is missing or
      does not mention `fid`. */
  function Guessers(ps: seq<Player>, answers: map<PlayerId, Answer>, p: PlayerId, fid: FactId): (o: Option<seq<PlayerId>>)
    ensures o.None? <==> exists q <- Ids(ps) :: q != p && (q !in answers || fid !in AnswerFacts(answers[q]))
    ensures o.Some? ==> IsSublist(o.value, Ids(ps)) && p !in o.value
    ensures o.Some? ==> |o.value| <= |ps| && (p in Ids(ps) ==> |o.value| < |ps|)
    ensures o.Some? ==> forall q :: q in o.value <==>
              q in Ids(ps) && q != p && q in answers && FirstTarget(answers[q], fid) == Some(p)
    ensures o.Some? && (forall q <- answers :: NoDup(AnswerFacts(answers[q]))) ==>
              |o.value| == NamedBy(ps, answers, p, fid)
  {
    if |ps| == 0 then Some([])
    else
      var q := ps[0].id;
      var rest := Guessers(ps[1..], answers, p, fid);
      assert Ids(ps)[1..] == Ids(ps[1..]);
      assert forall x :: x in Ids(ps) <==> x == q || x in Ids(ps[1..]);
      if q == p then
        (if rest.Some? then SublistMembers(rest.value, Ids(ps[1..])); rest else None)
      else if q !in answers then None
      else
        var t := FirstTarget(answers[q], fid);
        if t.None? || rest.None? then None
        else if t.value == p then Some([q] + rest.value)
        else Some(rest.value)
  }

  /** `playerGuessedBy(p)`: `None` when `p` owns no fact (the first `!`)
      or another player's answer does not place `p`'s fact (the second). */
  function GuessedBy(r: Room, p: PlayerId): (o: Option<seq<PlayerId>>)
    ensures o.None? <==>
              || !HasFact(r.facts, p)
              || exists q <- Ids(r.players) :: q != p &&
                   (q !in r.answers || FactOf(r.facts, p).value.id !in AnswerFacts(r.answers[q]))
    ensures o.Some? ==> IsSublist(o.value, Ids(r.players)) && p !in o.value
    ensures o.Some? && p in Ids(r.players) ==> |o.value| < |r.players|
  {
    var f := FactOf(r.facts, p);
    if f.None? then None else Guessers(r.players, r.answers, p, f.value.id)
  }

  /** Scoring player `p` would throw: one of the two filters meets a
      missing fact or answer. */
  predicate RowThrows(r: Room, p: PlayerId) {
    Guesses(r, p).None? || GuessedBy(r, p).None?
  }

  /** The result table and guess records of `finishGame`, one row per
      player of `ps` in roster order, as the source's two `map`s build them;
      `None` when one of the rows would throw. */
  function Tally(r: Room, ps: seq<Player>, reward: int, offs: int): (t: Option<(seq<Score>, seq<GuessRecord>)>)
    ensures t.None? <==> exists i :: 0 <= i < |ps| && RowThrows(r, ps[i].id)
    ensures t.Some? ==>
              && |t.value.0| == |ps| && |t.value.1| == |ps|
              && forall i :: 0 <= i < |ps| ==>
                   && HasFact(r.facts, ps[i].id)
                   && Guesses(r, ps[i].id).Some? && GuessedBy(r, ps[i].id).Some?
                   && t.value.0[i] == Score(ps[i].id, |Guesses(r, ps[i].id).value| * reward
                                                        - |GuessedBy(r, ps[i].id).value| * offs)
                   && t.value.1[i] == GuessRecord(ps[i].id, FactOf(r.facts, ps[i].id).value.id,
                                                  GuessedBy(r, ps[i].id).value)
  {
    if exists i :: 0 <= i < |ps| && RowThrows(r, ps[i].id) then None
    else
      Some((seq(|ps|, i requires 0 <= i < |ps| && !RowThrows(r, ps[i].id) =>
                  Score(ps[i].id, |Guesses(r, ps[i].id).value| * reward - |GuessedBy(r, ps[i].id).value| * offs)),
            seq(|ps|, i requires 0 <= i < |ps| && !RowThrows(r, ps[i].id) =>
                  GuessRecord(ps[i].id, FactOf(r.facts, ps[i].id).value.id, GuessedBy(r, ps[i].id).value))))
  }

  /** Every roster player has sent an answer. */
  predicate AllAnswered(r: Room) {
    forall id <- Ids(r.players) :: id in r.answers
  }

  /** How `finishGame` ends: refused with an error, scored, or thrown out of
      after the stage was already set to `final`. */
  datatype Finish = Refused(error: Error) | Scored(room: Room) | Threw(room: Room)

  /** `finishGame`: the leader ends the `answers` stage once every player
      has answered; each player scores `reward` per fact placed on its true
      owner and loses `offs` per other player who placed theirs. */
  function FinishGame(r: Room, pid: PlayerId, reward: int, offs: int): (o: Finish)
    requires r.stage == Answers
    ensures o == Refused(NotLeader) <==> r.leaderId != pid
    ensures o == Refused(AnswersMissing) <==> r.leaderId == pid && !AllAnswered(r)
    ensures o.Refused? ==> o.error == NotLeader || o.error == AnswersMissing
    ensures o.Threw? <==>
              && r.leaderId == pid && AllAnswered(r)
              && exists i :: 0 <= i < |r.players| &&
                   (Guesses(r, r.players[i].id).None? || GuessedBy(r, r.players[i].id).None?)
    ensures o.Threw? ==> o.room == r.(stage := Final)
    ensures o.Scored? ==>
              && o.room == r.(stage := Final, resultTable := o.room.resultTable, guesses := o.room.guesses)
              && |o.room.resultTable| == |r.players| && |o.room.guesses| == |r.players|
              && forall i :: 0 <= i < |r.players| ==>
                   var p := r.players[i].id;
                   && Guesses(r, p).Some? && GuessedBy(r, p).Some?
                   && o.room.resultTable[i] == Score(p, |Guesses(r, p).value| * reward - |GuessedBy(r, p).value| * offs)
                   && o.room.guesses[i] == GuessRecord(p, FactOf(r.facts, p).value.id, GuessedBy(r, p).value)
  {
    if r.leaderId != pid then Refused(NotLeader)
    else if !AllAnswered(r) then Refused(AnswersMissing)
    else
      var t := Tally(r, r.players, reward, offs);
      if t.None? then Threw(r.(stage := Final))
      else Scored(r.(stage := Final, resultTable := t.value.0, guesses := t.value.1))
  }

  // ---------------------------------------------------------------------
  // What the scores mean, and when scoring throws.
  // ---------------------------------------------------------------------

  /** In a valid room past `facts`, owning a fact is being on the roster. */
  lemma HasFactIffRoster(r: Room)
    requires Valid(r) && r.stage.Rank() >= About.Rank()
    ensures forall x :: HasFact(r.facts, x) <==> x in Ids(r.players)
  {
    forall x | HasFact(r.facts, x) ensures x in Ids(r.players) {
      var k :| 0 <= k < |r.facts| && Owners(r.facts)[k] == x;
      assert r.facts[k] in r.facts;
    }
  }

  /** Once everyone has answered, `playerGuessedBy` of a roster player
      never throws: every other answer covers that player's fact. */
  lemma GuessedBySafe(r: Room, p: PlayerId)
    requires Valid(r) && r.stage == Answers && AllAnswered(r) && p in Ids(r.players)
    ensures GuessedBy(r, p).Some?
  {
    assert HasFact(r.facts, p);
    var f := FactOf(r.facts, p).value;
    forall q <- Ids(r.players) | q != p
      ensures q in r.answers && f.id in AnswerFacts(r.answers[q])
    {
      assert Accepted(r.answers[q], q, r.facts, Ids(r.players));
      assert f in r.facts;
    }
  }

  /** Some recorded answer of a roster player names a target who is not
      on the roster. */
  predicate UnknownTarget(r: Room) {
    exists p, e :: p in Ids(r.players) && p in r.answers && e in r.answers[p] && e.playerId !in Ids(r.players)
  }

  /** Once everyone has answered, `playerGuesses` of a roster player throws
      exactly when that player's answer names someone off the roster. */
  lemma GuessesThrowIff(r: Room, p: PlayerId)
    requires Valid(r) && r.stage == Answers && p in r.answers
    ensures Guesses(r, p).None? <==> exists e <- r.answers[p] :: e.playerId !in Ids(r.players)
  {
    HasFactIffRoster(r);
  }

  /** As written, `finishGame` throws exactly when some recorded answer
      names a target who is not on the roster. */
  lemma ThrowsIffUnknownTarget(r: Room, pid: PlayerId, reward: int, offs: int)
    requires Valid(r) && r.stage == Answers && r.leaderId == pid && AllAnswered(r)
    ensures FinishGame(r, pid, reward, offs).Threw? <==> UnknownTarget(r)
  {
    AllGuessedBySafe(r);
    assert FinishGame(r, pid, reward, offs).Threw? <==> SomeGuessesThrow(r);
    if UnknownTarget(r) {
      UnknownTargetThrows(r);
    }
    if SomeGuessesThrow(r) {
      ThrowNamesUnknown(r);
    }
  }

  /** `playerGuesses` throws for some roster player. */
  predicate SomeGuessesThrow(r: Room) {
    exists i :: 0 <= i < |r.players| && Guesses(r, r.players[i].id).None?
  }

  lemma AllGuessedBySafe(r: Room)
    requires Valid(r) && r.stage == Answers && AllAnswered(r)
    ensures forall i :: 0 <= i < |r.players| ==> GuessedBy(r, r.players[i].id).Some?
  {
    forall i | 0 <= i < |r.players| ensures GuessedBy(r, r.players[i].id).Some? {
      assert Ids(r.players)[i] == r.players[i].id;
      GuessedBySafe(r, r.players[i].id);
    }
  }

  lemma UnknownTargetThrows(r: Room)
    requires Valid(r) && r.stage == Answers && AllAnswered(r) && UnknownTarget(r)
    ensures SomeGuessesThrow(r)
  {
    var p, e :| p in Ids(r.players) && p in r.answers && e in r.answers[p] && e.playerId !in Ids(r.players);
    var i :| 0 <= i < |r.players| && Ids(r.players)[i] == p;
    GuessesThrowIff(r, p);
    assert Guesses(r, r.players[i].id).None?;
  }

  lemma ThrowNamesUnknown(r: Room)
    requires Valid(r) && r.stage == Answers && AllAnswered(r) && SomeGuessesThrow(r)
    ensures UnknownTarget(r)
  {
    var i :| 0 <= i < |r.players| && Guesses(r, r.players[i].id).None?;
    var p := r.players[i].id;
    assert Ids(r.players)[i] == p;
    GuessesThrowIff(r, p);
    var e :| e in r.answers[p] && e.playerId !in Ids(r.players);
  }

  /** `q` is among those who guessed `p` exactly when `p` is among those
      `q` guessed: both mean that `q`'s answer pairs `p`'s fact with `p`. */
  lemma GuessDuality(r: Room, p: PlayerId, q: PlayerId)
    requires Valid(r) && r.stage == Answers && AllAnswered(r)
    requires p in Ids(r.players) && q in Ids(r.players) && p != q
    requires Guesses(r, q).Some?
    ensures GuessedBy(r, p).Some?
    ensures q in GuessedBy(r, p).value <==> p in Guesses(r, q).value
  {
    GuessedBySafe(r, p);
    var f := FactOf(r.facts, p).value;
    assert Accepted(r.answers[q], q, r.facts, Ids(r.players));
    forall e | e in RightAnswer(r.facts) && e.playerId == p ensures e == Entry(f.id, p) {
      var j :| 0 <= j < |r.facts| && RightAnswer(r.facts)[j] == e;
      FactOfUnique(r.facts, r.facts[j]);
    }
    var k :| 0 <= k < |r.facts| && r.facts[k] == f;
    assert RightAnswer(r.facts)[k] == Entry(f.id, p);
  }

  /** As written, a player whose answer places their own fact on
      themselves counts as guessing themselves. */
  lemma SelfGuessCounts(r: Room, p: PlayerId)
    requires NoDup(Owners(r.facts)) && HasFact(r.facts, p)
    requires p in r.answers && Entry(FactOf(r.facts, p).value.id, p) in r.answers[p]
    requires Guesses(r, p).Some?
    ensures p in Guesses(r, p).value
  {
    var f := FactOf(r.facts, p).value;
    var k :| 0 <= k < |r.facts| && r.facts[k] == f;
    assert RightAnswer(r.facts)[k] == Entry(f.id, p);
  }

  /** With the corrected check, nobody guesses themselves. */
  lemma StrictNoSelfGuess(r: Room, p: PlayerId)
    requires StrictAnswers(r) && p in r.answers && Guesses(r, p).Some?
    ensures p !in Guesses(r, p).value
  {
    SublistMembers(Guesses(r, p).value, AnswerPlayers(r.answers[p]));
    assert IsBijection(r.answers[p], p, r.facts, Ids(r.players));
    assert p !in OtherPlayers(p, Ids(r.players));
  }

  /** With the corrected check, `finishGame` never throws. */
  lemma StrictNeverThrows(r: Room, pid: PlayerId, reward: int, offs: int)
    requires Valid(r) && r.stage == Answers && r.leaderId == pid && AllAnswered(r) && StrictAnswers(r)
    ensures FinishGame(r, pid, reward, offs).Scored?
  {
    ThrowsIffUnknownTarget(r, pid, reward, offs);
    forall p, e | p in Ids(r.players) && p in r.answers && e in r.answers[p]
      ensures e.playerId in Ids(r.players)
    {
      assert IsBijection(r.answers[p], p, r.facts, Ids(r.players));
      var k :| 0 <= k < |r.answers[p]| && r.answers[p][k] == e;
      assert AnswerPlayers(r.answers[p])[k] == e.playerId;
      assert e.playerId in OtherPlayers(p, Ids(r.players));
    }
  }

  /** With the corrected check a player guesses at most the other players. */
  lemma StrictGuessBound(r: Room, p: PlayerId)
    requires Valid(r) && StrictAnswers(r) && p in Ids(r.players) && p in r.answers
    requires Guesses(r, p).Some?
    ensures |Guesses(r, p).value| <= |r.players| - 1
  {
    var a := r.answers[p];
    SublistMembers(Guesses(r, p).value, AnswerPlayers(a));
    DistinctBySize(AnswerPlayers(a));
    DistinctBySize(Ids(r.players));
    assert (set x | x in AnswerPlayers(a)) == OtherPlayers(p, Ids(r.players));
    assert OtherPlayers(p, Ids(r.players)) == (set x | x in Ids(r.players)) - {p};
  }

  lemma PointsBetween(g: int, b: int, m: int, reward: int, offs: int)
    requires 0 <= g <= m && 0 <= b <= m && reward >= 0 && offs >= 0
    ensures -m * offs <= g * reward - b * offs <= m * reward
  {
    assert (m - g) * reward >= 0;
    assert (m - b) * offs >= 0;
    assert g * offs >= 0 && b * reward >= 0;
  }

  /** One player's score under the corrected check. */
  lemma StrictScoreBoundOf(r: Room, p: PlayerId, reward: int, offs: int)
    requires Valid(r) && StrictAnswers(r) && p in Ids(r.players) && p in r.answers
    requires Guesses(r, p).Some? && GuessedBy(r, p).Some?
    requires reward >= 0 && offs >= 0
    ensures var n: int := |r.players|;
            var points := |Guesses(r, p).value| * reward - |GuessedBy(r, p).value| * offs;
            -(n - 1) * offs <= points <= (n - 1) * reward
  {
    StrictGuessBound(r, p);
    PointsBetween(|Guesses(r, p).value|, |GuessedBy(r, p).value|, |r.players| - 1, reward, offs);
  }

  /** With the corrected check and non-negative constants, every score lies
      between `-(n-1) * offs` and `(n-1) * reward` for a roster of `n`. */
  lemma StrictScoreBounds(r: Room, pid: PlayerId, reward: int, offs: int)
    requires Valid(r) && r.stage == Answers && r.leaderId == pid && AllAnswered(r) && StrictAnswers(r)
    requires reward >= 0 && offs >= 0
    ensures FinishGame(r, pid, reward, offs).Scored?
    ensures var n: int := |r.players|;
            forall s <- FinishGame(r, pid, reward, offs).room.resultTable ::
              -(n - 1) * offs <= s.points <= (n - 1) * reward
  {
    StrictNeverThrows(r, pid, reward, offs);
    var t := FinishGame(r, pid, reward, offs).room.resultTable;
    forall i | 0 <= i < |t|
      ensures -(|r.players| - 1) * offs <= t[i].points <= (|r.players| - 1) * reward
    {
      var p := r.players[i].id;
      assert Ids(r.players)[i] == p;
      StrictScoreBoundOf(r, p, reward, offs);
    }
  }

  /** The result table scores each player by the entries of their answer
      found in the answer key, less the other players who answered with that
      player's own (fact, owner) pair. */
  lemma ScoresMeaning(r: Room, pid: PlayerId, reward: int, offs: int)
    requires Valid(r) && r.stage == Answers
    requires FinishGame(r, pid, reward, offs).Scored?
    ensures forall i :: 0 <= i < |r.players| ==>
              var p := r.players[i].id;
              && p in r.answers && HasFact(r.facts, p)
              && FinishGame(r, pid, reward, offs).room.resultTable[i] ==
                   Score(p, RightCount(r.answers[p], RightAnswer(r.facts)) * reward
                            - NamedBy(r.players, r.answers, p, FactOf(r.facts, p).value.id) * offs)
  {
    AnswerFactsDistinct(r);
    RowsMeaning(r, pid, reward, offs);
  }

  /** `ScoresMeaning` from the two facts of the invariant it needs. */
  lemma RowsMeaning(r: Room, pid: PlayerId, reward: int, offs: int)
    requires r.stage == Answers && FinishGame(r, pid, reward, offs).Scored?
    requires NoDup(Owners(r.facts)) && forall q <- r.answers :: NoDup(AnswerFacts(r.answers[q]))
    ensures forall i :: 0 <= i < |r.players| ==>
              var p := r.players[i].id;
              && p in r.answers && HasFact(r.facts, p)
              && FinishGame(r, pid, reward, offs).room.resultTable[i] ==
                   Score(p, RightCount(r.answers[p], RightAnswer(r.facts)) * reward
                            - NamedBy(r.players, r.answers, p, FactOf(r.facts, p).value.id) * offs)
  {
    var o := FinishGame(r, pid, reward, offs);
    forall i | 0 <= i < |r.players|
      ensures var p := r.players[i].id;
              && p in r.answers && HasFact(r.facts, p)
              && o.room.resultTable[i] ==
                   Score(p, RightCount(r.answers[p], RightAnswer(r.facts)) * reward
                            - NamedBy(r.players, r.answers, p, FactOf(r.facts, p).value.id) * offs)
    {
      RowMeaning(r, r.players[i].id, o.room.resultTable[i], reward, offs);
    }
  }

  /** One row of the result table, read through the answer key. */
  lemma RowMeaning(r: Room, p: PlayerId, row: Score, reward: int, offs: int)
    requires NoDup(Owners(r.facts)) && forall q <- r.answers :: NoDup(AnswerFacts(r.answers[q]))
    requires Guesses(r, p).Some? && GuessedBy(r, p).Some?
    requires row == Score(p, |Guesses(r, p).value| * reward - |GuessedBy(r, p).value| * offs)
    ensures p in r.answers && HasFact(r.facts, p)
    ensures row == Score(p, RightCount(r.answers[p], RightAnswer(r.facts)) * reward
                            - NamedBy(r.players, r.answers, p, FactOf(r.facts, p).value.id) * offs)
  {
  }

  /** Every accepted answer names each fact at most once. */
  lemma AnswerFactsDistinct(r: Room)
    requires Valid(r)
    ensures forall q <- r.answers :: NoDup(AnswerFacts(r.answers[q]))
  {
    forall q <- r.answers ensures NoDup(AnswerFacts(r.answers[q])) {
      assert Accepted(r.answers[q], q, r.facts, Ids(r.players));
    }
  }

  /** Ending the game keeps the invariant, whether scoring completed or
      threw after the stage was set. */
  lemma FinishGamePreservesValid(r: Room, pid: PlayerId, reward: int, offs: int)
    requires Valid(r) && r.stage == Answers
    ensures !FinishGame(r, pid, reward, offs).Refused? ==> Valid(FinishGame(r, pid, reward, offs).room)
  {
    var o := FinishGame(r, pid, reward, offs);
    if o.Threw? {
      assert AllAnswered(r);
      assert o.room == r.(stage := Final, resultTable := r.resultTable, guesses := r.guesses);
      FinalKeepsValid(r, r.resultTable, r.guesses);
    } else if o.Scored? {
      assert AllAnswered(r);
      FinalKeepsValid(r, o.room.resultTable, o.room.guesses);
    }
  }

  /** Entering `final` with every answer in keeps the invariant, whatever
      the result table and guess records hold. */
  lemma FinalKeepsValid(r: Room, table: seq<Score>, records: seq<GuessRecord>)
    requires Valid(r) && r.stage == Answers && AllAnswered(r)
    ensures Valid(r.(stage := Final, resultTable := table, guesses := records))
  {
    var r' := r.(stage := Final, resultTable := table, guesses := records);
    assert RosterOk(r');
    assert FactsOk(r');
    assert TurnOk(r');
    assert CandidatesOk(r');
    assert AnswersOk(r');
  }
}
