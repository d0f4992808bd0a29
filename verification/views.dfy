/** The per-viewer room state of src/Room.ts (`getRoomState` and the six
    `get*RoomState` getters). Before `final` a viewer sees facts only in
    their public form, their own candidate lists and their own answer;
    `final` reveals every fact's owner. */
module Views {
  import opened Lists
  import opened PlayerFacts
  import opened AnswerRules
  import opened Rooms
  import opened Scoring

  /** `RoomPlayer.toJSON` as far as the room determines it. */
  datatype PlayerView = PlayerView(id: PlayerId, name: string, connected: bool)

  datatype FinalResult = FinalResult(
    ownAnswer: Option<Answer>,
    rightAnswer: seq<Entry>,
    guesses: seq<GuessRecord>,
    resultTable: seq<Score>)

  /** The stage-specific part of a view. `None` stands for a lookup that is
      `undefined` (or `null`) in the source. */
  datatype Detail =
    | WaitingDetail(readyPlayers: seq<PlayerId>)
    | FactsDetail(maybeOwnFact: Option<FactId>, facts: seq<PublicFact>)
    | AboutDetail(ownFactId: FactId, facts: seq<PublicFact>, currentTurn: PlayerId)
    | TurnsDetail(ownFactId: FactId, facts: seq<PublicFact>, currentTurn: PlayerId,
                  candidates: Option<seq<Candidate>>)
    | AnswersDetail(ownFactId: FactId, facts: seq<PublicFact>, candidates: Option<seq<Candidate>>,
                    answer: Option<Answer>, answersSent: set<PlayerId>)
    | FinalDetail(ownFactId: FactId, facts: seq<PublicFact>, result: FinalResult)

  datatype RoomView = RoomView(
    stage: Stage,
    roomCode: string,
    leaderId: PlayerId,
    ownId: PlayerId,
    players: seq<PlayerView>,
    detail: Detail)

  function ViewOf(p: Player): PlayerView {
    PlayerView(p.id, p.name, p.connected)
  }

  function PlayerViews(ps: seq<Player>): (vs: seq<PlayerView>)
    ensures |vs| == |ps|
    ensures forall i :: 0 <= i < |ps| ==> vs[i].id == ps[i].id && vs[i].name == ps[i].name
                                          && vs[i].connected == ps[i].connected
  {
    seq(|ps|, i requires 0 <= i < |ps| => ViewOf(ps[i]))
  }

  /** The getters from `about` on dereference `getPlayerFact(viewer)!`,
      which throws unless the viewer owns a fact. */
  predicate ViewReady(r: Room, viewer: PlayerId) {
    r.stage == Waiting || r.stage == Facts || HasFact(r.facts, viewer)
  }

  function OwnFactId(facts: seq<PlayerFact>, viewer: PlayerId): (o: Option<FactId>)
    ensures o.Some? <==> HasFact(facts, viewer)
    ensures o.Some? ==> exists f <- facts :: f.ownerId == viewer && f.id == o.value
  {
    var f := FactOf(facts, viewer);
    if f.None? then None else Some(f.value.id)
  }

  function Lookup<V>(m: map<PlayerId, V>, k: PlayerId): (o: Option<V>)
    ensures o.Some? <==> k in m
    ensures o.Some? ==> o.value == m[k]
  {
    if k in m then Some(m[k]) else None
  }

  /** `getRoomState(viewer)`. */
  function GetRoomState(r: Room, viewer: PlayerId): (v: RoomView)
    requires ViewReady(r, viewer)
    ensures v.stage == r.stage && v.roomCode == r.code && v.leaderId == r.leaderId && v.ownId == viewer
    ensures v.players == PlayerViews(r.players)
    ensures v.detail.WaitingDetail? <==> r.stage == Waiting
    ensures v.detail.FactsDetail? <==> r.stage == Facts
    ensures v.detail.AboutDetail? <==> r.stage == About
    ensures v.detail.TurnsDetail? <==> r.stage == Turns
    ensures v.detail.AnswersDetail? <==> r.stage == Answers
    ensures v.detail.FinalDetail? <==> r.stage == Final
    ensures r.stage == Waiting ==> v.detail.readyPlayers == r.readyPlayers
    ensures r.stage == Facts ==> v.detail.maybeOwnFact == OwnFactId(r.facts, viewer)
    ensures r.stage != Waiting ==> v.detail.facts == PublicFacts(r.facts)
    ensures r.stage.Rank() >= About.Rank() ==> Some(v.detail.ownFactId) == OwnFactId(r.facts, viewer)
    ensures r.stage == About || r.stage == Turns ==> v.detail.currentTurn == r.currentTurn
    ensures r.stage == Turns || r.stage == Answers ==> v.detail.candidates == Lookup(r.candidates, viewer)
    ensures r.stage == Answers ==> v.detail.answer == Lookup(r.answers, viewer) && v.detail.answersSent == r.answers.Keys
    ensures r.stage == Final ==> v.detail.result == FinalResult(Lookup(r.answers, viewer), RightAnswer(r.facts), r.guesses, r.resultTable)
  {
    var header := RoomView(r.stage, r.code, r.leaderId, viewer, PlayerViews(r.players), WaitingDetail([]));
    var pub := PublicFacts(r.facts);
    match r.stage
    case Waiting => header.(detail := WaitingDetail(r.readyPlayers))
    case Facts => header.(detail := FactsDetail(OwnFactId(r.facts, viewer), pub))
    case About =>
      header.(detail := AboutDetail(OwnFactId(r.facts, viewer).value, pub, r.currentTurn))
    case Turns =>
      header.(detail := TurnsDetail(OwnFactId(r.facts, viewer).value, pub, r.currentTurn,
                                    Lookup(r.candidates, viewer)))
    case Answers =>
      header.(detail := AnswersDetail(OwnFactId(r.facts, viewer).value, pub, Lookup(r.candidates, viewer),
                                      Lookup(r.answers, viewer), r.answers.Keys))
    case Final =>
      header.(detail := FinalDetail(OwnFactId(r.facts, viewer).value, pub,
                                    FinalResult(Lookup(r.answers, viewer), RightAnswer(r.facts),
                                                r.guesses, r.resultTable)))
  }

  /** In a valid room every roster player can be shown the state. */
  lemma RosterViewsReady(r: Room, viewer: PlayerId)
    requires Valid(r) && viewer in Ids(r.players)
    ensures ViewReady(r, viewer)
  {
  }

  /** Two rooms a viewer cannot tell apart before `final`: the same public
      fields, the same facts up to owners, the same own fact, the same own
      candidate lists and own answer, and answers from the same players. */
  ghost predicate SameToViewer(r1: Room, r2: Room, viewer: PlayerId) {
    && r1.stage == r2.stage && r1.code == r2.code && r1.leaderId == r2.leaderId
    && r1.players == r2.players && r1.readyPlayers == r2.readyPlayers && r1.currentTurn == r2.currentTurn
    && PublicFacts(r1.facts) == PublicFacts(r2.facts)
    && OwnFactId(r1.facts, viewer) == OwnFactId(r2.facts, viewer)
    && Lookup(r1.candidates, viewer) == Lookup(r2.candidates, viewer)
    && Lookup(r1.answers, viewer) == Lookup(r2.answers, viewer)
    && r1.answers.Keys == r2.answers.Keys
  }

  /** Ownership stays hidden until `final`: before it, who owns the other
      facts, the other players' candidate lists and the content of their
      answers do not affect what a viewer is shown. */
  lemma HiddenBeforeFinal(r1: Room, r2: Room, viewer: PlayerId)
    requires r1.stage != Final && SameToViewer(r1, r2, viewer)
    requires ViewReady(r1, viewer) && ViewReady(r2, viewer)
    ensures GetRoomState(r1, viewer) == GetRoomState(r2, viewer)
  {
  }

  /** Facts with the same ids and texts look the same before `final`,
      whoever owns them, provided the viewer's own fact is unchanged. */
  lemma OwnersInvisible(r: Room, fs: seq<PlayerFact>, viewer: PlayerId)
    requires r.stage != Final && |fs| == |r.facts|
    requires forall i :: 0 <= i < |fs| ==> fs[i].id == r.facts[i].id && fs[i].text == r.facts[i].text
    requires OwnFactId(fs, viewer) == OwnFactId(r.facts, viewer)
    requires ViewReady(r, viewer)
    ensures ViewReady(r.(facts := fs), viewer)
    ensures GetRoomState(r, viewer) == GetRoomState(r.(facts := fs), viewer)
  {
    PublicFactsIgnoreOwners(r.facts, fs);
    HiddenBeforeFinal(r, r.(facts := fs), viewer);
  }

  /** `final` does reveal ownership: rooms whose facts differ only in their
      owners are shown differently. */
  lemma FinalRevealsOwners(r1: Room, r2: Room, viewer: PlayerId)
    requires r1.stage == Final && r2 == r1.(facts := r2.facts)
    requires FactIds(r1.facts) == FactIds(r2.facts) && Owners(r1.facts) != Owners(r2.facts)
    requires ViewReady(r1, viewer) && ViewReady(r2, viewer)
    ensures GetRoomState(r1, viewer) != GetRoomState(r2, viewer)
  {
    var i :| 0 <= i < |r1.facts| && Owners(r1.facts)[i] != Owners(r2.facts)[i];
    assert RightAnswer(r1.facts)[i] != RightAnswer(r2.facts)[i];
  }
}
