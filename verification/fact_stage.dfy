/** The `facts` stage of src/Room.ts: `addFact`, `dropFact` and the leader's
    `startAbout`, which seeds every player's candidate lists and gives the
    first turn. */
module FactStage {
  import opened Lists
  import opened PlayerFacts
  import opened AnswerRules
  import opened Rooms
  import opened Rotation

  lemma OwnersAppend(fs: seq<PlayerFact>, f: PlayerFact)
    ensures Owners(fs + [f]) == Owners(fs) + [f.ownerId]
  {
  }

  /** `addFact`: while the stage is `facts`, a player without a fact gets a
      new one whose id is the next value of the fact sequence; the reply is
      the fact's public form. A second fact from the same owner is refused. */
  function AddFact(r: Room, pid: PlayerId, text: string): (o: Outcome<(Room, PublicFact)>)
    ensures o == Err(WrongStage) <==> r.stage != Facts
    ensures o == Err(FactAlreadyAdded) <==> r.stage == Facts && HasFact(r.facts, pid)
    ensures o.Ok? <==> r.stage == Facts && !HasFact(r.facts, pid)
    ensures o.Ok? ==>
              var (r', reply) := o.value;
              && r' == r.(facts := r'.facts, factIdSeq := r.factIdSeq + 1)
              && r'.facts == r.facts + [NewFact(r.factIdSeq, text, pid)]
              && FactOf(r'.facts, pid) == Some(NewFact(r.factIdSeq, text, pid))
              && reply == PublicFact(r.factIdSeq, text)
  {
    if r.stage != Facts then Err(WrongStage)
    else if HasFact(r.facts, pid) then Err(FactAlreadyAdded)
    else
      var f := NewFact(r.factIdSeq, text, pid);
      OwnersAppend(r.facts, f);
      assert IndexOf(Owners(r.facts + [f]), pid) == |r.facts|;
      Ok((r.(facts := r.facts + [f], factIdSeq := r.factIdSeq + 1), ToPublic(f)))
  }

  /** `dropFact`: while the stage is `facts`, the caller's fact is removed;
      the other facts stay, in order. Without a fact there is nothing to drop. */
  function DropFact(r: Room, pid: PlayerId): (o: Outcome<Room>)
    ensures o == Err(WrongStage) <==> r.stage != Facts
    ensures o == Err(NoFactToDrop) <==> r.stage == Facts && !HasFact(r.facts, pid)
    ensures o.Ok? <==> r.stage == Facts && HasFact(r.facts, pid)
    ensures o.Ok? ==>
              && o.value == r.(facts := o.value.facts)
              && |o.value.facts| == |r.facts| - 1
              && IsSublist(o.value.facts, r.facts)
              && (forall f :: f in r.facts && f.ownerId != pid ==> f in o.value.facts)
    ensures o.Ok? && NoDup(Owners(r.facts)) ==>
              && !HasFact(o.value.facts, pid)
              && forall f :: f in o.value.facts <==> f in r.facts && f.ownerId != pid
  {
    if r.stage != Facts then Err(WrongStage)
    else
      var i := IndexOf(Owners(r.facts), pid);
      if i == -1 then Err(NoFactToDrop)
      else
        var rest := RemoveAt(r.facts, i);
        RemoveAtSublist(r.facts, i);
        RemoveKeepsOthers(r.facts, i);
        assert NoDup(Owners(r.facts)) ==>
                 !HasFact(rest, pid) && forall f :: f in rest <==> f in r.facts && f.ownerId != pid by {
          if NoDup(Owners(r.facts)) { RemoveOnlyFact(r.facts, i); }
        }
        Ok(r.(facts := rest))
  }

  /** Removing the fact at `i` keeps every fact of another owner. */
  lemma RemoveKeepsOthers(fs: seq<PlayerFact>, i: int)
    requires 0 <= i < |fs|
    ensures forall f :: f in fs && f.ownerId != fs[i].ownerId ==> f in RemoveAt(fs, i)
  {
    var rest := RemoveAt(fs, i);
    forall f | f in fs && f.ownerId != fs[i].ownerId ensures f in rest {
      var k :| 0 <= k < |fs| && fs[k] == f;
      if k < i { assert rest[k] == f; } else { assert rest[k - 1] == f; }
    }
  }

  /** With owners unique, removing the fact at `i` removes exactly the
      facts of its owner. */
  lemma RemoveOnlyFact(fs: seq<PlayerFact>, i: int)
    requires NoDup(Owners(fs)) && 0 <= i < |fs|
    ensures !HasFact(RemoveAt(fs, i), fs[i].ownerId)
    ensures forall f :: f in RemoveAt(fs, i) <==> f in fs && f.ownerId != fs[i].ownerId
  {
    var rest := RemoveAt(fs, i);
    RemoveAtDistinct(Owners(fs), i);
    assert Owners(rest) == RemoveAt(Owners(fs), i);
    RemoveKeepsOthers(fs, i);
    RemoveAtSublist(fs, i);
    SublistMembers(rest, fs);
    forall f | f in rest ensures f.ownerId != fs[i].ownerId {
      var k :| 0 <= k < |rest| && rest[k] == f;
      assert Owners(rest)[k] == f.ownerId;
    }
  }

  /** A fresh candidate list: one entry with no suspects per fact not owned
      by `p`, in fact order. */
  function Seed(facts: seq<PlayerFact>, p: PlayerId): (cs: seq<Candidate>)
    ensures CandidateKeys(cs) == FactIds(OthersFacts(facts, p))
    ensures forall c <- cs :: c.suspects == []
  {
    var os := OthersFacts(facts, p);
    seq(|os|, i requires 0 <= i < |os| => Candidate(os[i].id, []))
  }

  /** Every player has put in a fact. */
  predicate AllFactsIn(r: Room) {
    forall id <- Ids(r.players) :: HasFact(r.facts, id)
  }

  /** `startAbout`: the leader moves a `facts` room on to `about` once every
      player has a fact, gives every player a fresh candidate list and passes
      the first turn. */
  function StartAbout(r: Room, pid: PlayerId): (o: Outcome<Room>)
    requires r.stage == Facts ==> |r.players| > 0
    ensures o == Err(NotLeader) <==> r.leaderId != pid
    ensures o == Err(WrongStage) <==> r.leaderId == pid && r.stage != Facts
    ensures o == Err(FactsMissing) <==> r.leaderId == pid && r.stage == Facts && !AllFactsIn(r)
    ensures o.Ok? <==> r.leaderId == pid && r.stage == Facts && AllFactsIn(r)
    ensures o.Ok? ==>
              o.value == r.(stage := o.value.stage, candidates := o.value.candidates,
                            currentTurn := o.value.currentTurn, cycleNum := o.value.cycleNum)
    ensures o.Ok? ==> o.value == SetNextTurn(r.(stage := About, candidates := o.value.candidates))
    ensures o.Ok? ==>
              && o.value.candidates.Keys == (set p | p in Ids(r.players))
              && (forall p <- o.value.candidates ::
                    && CandidateKeys(o.value.candidates[p]) == FactIds(OthersFacts(r.facts, p))
                    && forall c <- o.value.candidates[p] :: c.suspects == [])
              && o.value.facts == r.facts && o.value.players == r.players
    ensures o.Ok? && r.currentTurn !in Ids(r.players) ==>
              o.value.stage == About && o.value.currentTurn == r.players[0].id
              && o.value.cycleNum == r.cycleNum
  {
    if r.leaderId != pid then Err(NotLeader)
    else if r.stage != Facts then Err(WrongStage)
    else if !AllFactsIn(r) then Err(FactsMissing)
    else
      var seeded := map p | p in Ids(r.players) :: Seed(r.facts, p);
      Ok(SetNextTurn(r.(stage := About, candidates := seeded)))
  }

  // ---------------------------------------------------------------------
  // The fact actions keep the room invariant.
  // ---------------------------------------------------------------------

  /** Adding a fact keeps the invariant: ids keep increasing, owners stay
      distinct (the caller is a roster player). */
  lemma AddFactPreservesValid(r: Room, pid: PlayerId, text: string)
    requires Valid(r) && pid in Ids(r.players) && AddFact(r, pid, text).Ok?
    ensures Valid(AddFact(r, pid, text).value.0)
  {
    var f := NewFact(r.factIdSeq, text, pid);
    var r' := r.(facts := r.facts + [f], factIdSeq := r.factIdSeq + 1);
    assert AddFact(r, pid, text).value.0 == r';
    AppendKeepsFactsOk(r, f);
    assert RosterOk(r');
    assert TurnOk(r');
    assert CandidatesOk(r');
    assert AnswersOk(r');
  }

  /** Appending a fresh fact of a roster player who owns none, with the
      next id, keeps the fact part of the invariant during `facts`. */
  lemma AppendKeepsFactsOk(r: Room, f: PlayerFact)
    requires FactsOk(r) && r.stage == Facts
    requires f.id == r.factIdSeq && f.ownerId in Ids(r.players) && !HasFact(r.facts, f.ownerId)
    ensures FactsOk(r.(facts := r.facts + [f], factIdSeq := r.factIdSeq + 1))
  {
    var fs := r.facts + [f];
    OwnersAppend(r.facts, f);
    assert forall i, j :: 0 <= i < j < |fs| ==> fs[i].id < fs[j].id by {
      forall i, j | 0 <= i < j < |fs| ensures fs[i].id < fs[j].id {
        if j == |r.facts| { assert r.facts[i] in r.facts; }
      }
    }
  }

  lemma DropFactPreservesValid(r: Room, pid: PlayerId)
    requires Valid(r) && DropFact(r, pid).Ok?
    ensures Valid(DropFact(r, pid).value)
  {
    var r' := DropFact(r, pid).value;
    var i := IndexOf(Owners(r.facts), pid);
    assert r'.facts == RemoveAt(r.facts, i);
    RemoveAtDistinct(Owners(r.facts), i);
    assert Owners(r'.facts) == RemoveAt(Owners(r.facts), i);
    assert RosterOk(r');
    assert FactsOk(r');
    assert TurnOk(r');
    assert CandidatesOk(r');
    assert AnswersOk(r');
  }

  /** Opening `about` keeps the invariant: every player owns a fact, the
      first roster player has the turn and every player has a candidate list. */
  lemma StartAboutPreservesValid(r: Room, pid: PlayerId)
    requires Valid(r) && StartAbout(r, pid).Ok?
    ensures Valid(StartAbout(r, pid).value)
  {
    var r' := StartAbout(r, pid).value;
    assert RosterOk(r');
    assert FactsOk(r');
    assert TurnOk(r');
    assert CandidatesOk(r');
    assert AnswersOk(r');
  }

  /** In a valid room `startAbout` leaves the turn with the first roster
      player and no laps counted: the opening of the schedule `Rotation`
      describes. */
  lemma StartAboutOpensSchedule(r: Room, pid: PlayerId)
    requires Valid(r) && StartAbout(r, pid).Ok?
    ensures var r' := StartAbout(r, pid).value;
            && r'.stage == About && r'.cycleNum == 0
            && r'.currentTurn == r'.players[0].id
            && NoDup(Ids(r'.players))
  {
  }
}
