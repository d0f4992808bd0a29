/** The room aggregate of src/Room.ts: its stage, roster, facts, turn
    state, per-viewer candidate lists, recorded final answers and results,
    the error every refused action reports, and the invariant every
    reachable room satisfies. */
module Rooms {
  import opened Lists
  import opened PlayerFacts
  import opened AnswerRules

  /** The `-1` the source uses for "no leader" and "no current turn". */
  const NoPlayer: PlayerId := -1
  /** `startFacts` refuses a smaller roster. */
  const MinPlayers: nat := 4
  /** Number of full laps in the `turns` stage. */
  const MaxCycles: nat := 4

  datatype Stage = Waiting | Facts | About | Turns | Answers | Final {
    /** Position in the fixed stage order. */
    function Rank(): nat {
      match this
      case Waiting => 0
      case Facts => 1
      case About => 2
      case Turns => 3
      case Answers => 4
      case Final => 5
    }
  }

  /** A roster entry; `connected` stands for the state of the player's
      transport, which the room only reads. */
  datatype Player = Player(id: PlayerId, name: string, connected: bool)

  /** One of a viewer's working guesses: the players suspected of owning
      fact `factId`. */
  datatype Candidate = Candidate(factId: FactId, suspects: seq<PlayerId>)

  datatype Score = Score(playerId: PlayerId, points: int)
  datatype GuessRecord = GuessRecord(playerId: PlayerId, factId: FactId, guessedBy: seq<PlayerId>)

  datatype Room = Room(
    stage: Stage,
    code: string,
    leaderId: PlayerId,
    players: seq<Player>,
    readyPlayers: seq<PlayerId>,
    facts: seq<PlayerFact>,
    factIdSeq: FactId,
    currentTurn: PlayerId,
    cycleNum: int,
    candidates: map<PlayerId, seq<Candidate>>,
    answers: map<PlayerId, Answer>,
    resultTable: seq<Score>,
    guesses: seq<GuessRecord>)

  /** The error strings the room's actions return, one per distinct message. */
  datatype Error =
    | NotLeader
    | WrongStage
    | PlayersNotReady
    | TooFewPlayers
    | FactAlreadyAdded
    | NoFactToDrop
    | FactsMissing
    | NotYourTurn
    | OwnFact
    | UnknownPlayers
    | UnknownFact
    | AnswerAlreadySent
    | AnswerRefused(reason: Rejection)
    | AnswerNotSent
    | AnswersMissing
    | DuplicateSession
    | GameStarted

  /** An action either refuses with an error, changing nothing, or succeeds. */
  datatype Outcome<+T> = Ok(value: T) | Err(error: Error)

  function Ids(ps: seq<Player>): (ids: seq<PlayerId>)
    ensures |ids| == |ps|
    ensures forall i :: 0 <= i < |ps| ==> ids[i] == ps[i].id
  {
    seq(|ps|, i requires 0 <= i < |ps| => ps[i].id)
  }

  predicate HasFact(facts: seq<PlayerFact>, p: PlayerId) {
    p in Owners(facts)
  }

  /** `getPlayerFact`: the first fact owned by `p`, if any. */
  function FactOf(facts: seq<PlayerFact>, p: PlayerId): (r: Option<PlayerFact>)
    ensures r.Some? <==> HasFact(facts, p)
    ensures r.Some? ==> r.value in facts && r.value.ownerId == p
  {
    var i := IndexOf(Owners(facts), p);
    if i < 0 then None else Some(facts[i])
  }

  /** With owners unique, the fact `FactOf` finds is the only one `p` owns. */
  lemma FactOfUnique(facts: seq<PlayerFact>, f: PlayerFact)
    requires NoDup(Owners(facts)) && f in facts
    ensures FactOf(facts, f.ownerId) == Some(f)
  {
    var k :| 0 <= k < |facts| && facts[k] == f;
    IndexOfDistinct(Owners(facts), k);
  }

  /** `facts.filter(f => f.ownerId !== p)`. */
  function OthersFacts(facts: seq<PlayerFact>, p: PlayerId): (os: seq<PlayerFact>)
    ensures forall f :: f in os <==> f in facts && f.ownerId != p
    ensures IsSublist(os, facts)
  {
    if |facts| == 0 then []
    else
      var rest := OthersFacts(facts[1..], p);
      if facts[0].ownerId != p then [facts[0]] + rest else rest
  }

  function CandidateKeys(cs: seq<Candidate>): (ks: seq<FactId>)
    ensures |ks| == |cs|
    ensures forall i :: 0 <= i < |cs| ==> ks[i] == cs[i].factId
  {
    seq(|cs|, i requires 0 <= i < |cs| => cs[i].factId)
  }

  /** The constructor: an empty room in `waiting` with the fact sequence at 1. */
  function NewRoom(code: string): (r: Room)
    ensures Valid(r)
    ensures r.stage == Waiting && r.code == code && r.players == [] && r.facts == []
    ensures r.leaderId == NoPlayer && r.factIdSeq == 1
    ensures r.readyPlayers == [] && r.currentTurn == NoPlayer && r.cycleNum == 0
    ensures r.candidates == map[] && r.answers == map[] && r.resultTable == [] && r.guesses == []
  {
    Room(Waiting, code, NoPlayer, [], [], [], 1, NoPlayer, 0, map[], map[], [], [])
  }

  // ---------------------------------------------------------------------
  // The invariant of every room the actions can reach.
  // ---------------------------------------------------------------------

  /** Roster ids are distinct and never the sentinel, the ready list has no
      repeats, the leader is on the roster or absent, and the roster that
      left `waiting` has at least `MinPlayers` players. */
  ghost predicate RosterOk(r: Room) {
    && NoDup(Ids(r.players))
    && NoPlayer !in Ids(r.players)
    && NoDup(r.readyPlayers)
    && (r.leaderId == NoPlayer || r.leaderId in Ids(r.players))
    && (r.stage != Waiting ==> |r.players| >= MinPlayers)
  }

  /** Fact ids strictly increase along the list and lie in
      [1, factIdSeq); each player owns at most one fact and only roster
      players own facts; there are no facts in `waiting` and every player
      owns one from `about` on. */
  ghost predicate FactsOk(r: Room) {
    && 1 <= r.factIdSeq
    && (forall i, j :: 0 <= i < j < |r.facts| ==> r.facts[i].id < r.facts[j].id)
    && (forall f <- r.facts :: 1 <= f.id < r.factIdSeq)
    && NoDup(Owners(r.facts))
    && (forall f <- r.facts :: f.ownerId in Ids(r.players))
    && (r.stage == Waiting ==> r.facts == [])
    && (r.stage.Rank() >= About.Rank() ==> forall id <- Ids(r.players) :: HasFact(r.facts, id))
  }

  /** No turn before `about`; the current turn is a roster player while
      turns are played; `cycleNum` counts the laps of `turns`. */
  ghost predicate TurnOk(r: Room) {
    && (r.stage.Rank() < About.Rank() ==> r.currentTurn == NoPlayer && r.cycleNum == 0)
    && (r.stage == About ==> r.cycleNum == 0 && r.currentTurn in Ids(r.players))
    && (r.stage == Turns ==> 1 <= r.cycleNum <= MaxCycles && r.currentTurn in Ids(r.players))
  }

  /** From `about` on, every roster player has a candidate list whose keys
      are exactly the ids of the other players' facts, in fact order. */
  ghost predicate CandidatesOk(r: Room) {
    && (r.stage.Rank() < About.Rank() ==> r.candidates == map[])
    && (r.stage.Rank() >= About.Rank() ==>
          && r.candidates.Keys == (set p | p in Ids(r.players))
          && forall p <- r.candidates :: CandidateKeys(r.candidates[p]) == FactIds(OthersFacts(r.facts, p)))
  }

  /** Answers exist only from `answers` on, only for roster players, each
      one passed the source's check; in `final` every player has one. */
  ghost predicate AnswersOk(r: Room) {
    && (r.stage.Rank() < Answers.Rank() ==> r.answers == map[])
    && (forall p <- r.answers :: p in Ids(r.players) && Accepted(r.answers[p], p, r.facts, Ids(r.players)))
    && (r.stage == Final ==> forall id <- Ids(r.players) :: id in r.answers)
  }

  ghost predicate Valid(r: Room) {
    RosterOk(r) && FactsOk(r) && TurnOk(r) && CandidatesOk(r) && AnswersOk(r)
  }

  /** The invariant speaks of players only through their ids, so changing
      connection flags keeps it, as long as the leader stays on the roster. */
  lemma ValidWithSameIds(r: Room, ps: seq<Player>, leader: PlayerId)
    requires Valid(r) && Ids(ps) == Ids(r.players)
    requires leader == NoPlayer || leader in Ids(ps)
    ensures Valid(r.(players := ps, leaderId := leader))
  {
    var r' := r.(players := ps, leaderId := leader);
    assert RosterOk(r');
    assert FactsOk(r');
    assert TurnOk(r');
    assert CandidatesOk(r');
    assert AnswersOk(r');
  }
}
