/** The per-viewer candidate lists of src/Room.ts: each player keeps, for
    every fact that is not theirs, the players they suspect of owning it,
    and `changeFactCandidates` replaces one such list. */
module CandidateLists {
  import opened Lists
  import opened PlayerFacts
  import opened Rooms
  import opened FactStage

  /** The suspects noted for fact `fid`: the first entry with that key
      (`find(([f]) => f === factId)`), if any. */
  function SuspectsOf(cs: seq<Candidate>, fid: FactId): (o: Option<seq<PlayerId>>)
    ensures o.Some? <==> fid in CandidateKeys(cs)
    ensures o.Some? ==> Candidate(fid, o.value) in cs
  {
    var i := IndexOf(CandidateKeys(cs), fid);
    if i < 0 then None else Some(cs[i].suspects)
  }

  /** The list with the suspects of the first `fid` entry replaced. */
  function SetSuspects(cs: seq<Candidate>, fid: FactId, sus: seq<PlayerId>): (cs': seq<Candidate>)
    requires fid in CandidateKeys(cs)
    ensures CandidateKeys(cs') == CandidateKeys(cs)
    ensures SuspectsOf(cs', fid) == Some(sus)
    ensures forall g :: g != fid ==> SuspectsOf(cs', g) == SuspectsOf(cs, g)
    ensures forall i :: 0 <= i < |cs| && cs[i].factId != fid ==> cs'[i] == cs[i]
  {
    var i := IndexOf(CandidateKeys(cs), fid);
    var cs' := cs[i := Candidate(fid, sus)];
    assert CandidateKeys(cs') == CandidateKeys(cs);
    cs'
  }

  /** `changeFactCandidates`: the viewer `pid` records `cands` as the
      suspects of fact `fid`. Refused for the viewer's own fact, for a
      suspect who is not on the roster and for a fact the viewer does not
      track; otherwise only that one (viewer, fact) list changes. */
  function ChangeFactCandidates(r: Room, pid: PlayerId, fid: FactId, cands: seq<PlayerId>): (o: Outcome<Room>)
    requires r.stage == Turns || r.stage == Answers
    requires HasFact(r.facts, pid) && pid in r.candidates
    ensures o == Err(OwnFact) <==> FactOf(r.facts, pid).value.id == fid
    ensures o == Err(UnknownPlayers) <==>
              FactOf(r.facts, pid).value.id != fid && !(forall c <- cands :: c in Ids(r.players))
    ensures o == Err(UnknownFact) <==>
              && FactOf(r.facts, pid).value.id != fid && (forall c <- cands :: c in Ids(r.players))
              && fid !in CandidateKeys(r.candidates[pid])
    ensures o.Ok? <==>
              && FactOf(r.facts, pid).value.id != fid && (forall c <- cands :: c in Ids(r.players))
              && fid in CandidateKeys(r.candidates[pid])
    ensures o.Ok? ==>
              && o.value == r.(candidates := o.value.candidates)
              && o.value.candidates.Keys == r.candidates.Keys
              && (forall q <- r.candidates :: q != pid ==> o.value.candidates[q] == r.candidates[q])
              && CandidateKeys(o.value.candidates[pid]) == CandidateKeys(r.candidates[pid])
              && SuspectsOf(o.value.candidates[pid], fid) == Some(cands)
              && (forall g :: g != fid ==> SuspectsOf(o.value.candidates[pid], g) == SuspectsOf(r.candidates[pid], g))
  {
    if FactOf(r.facts, pid).value.id == fid then Err(OwnFact)
    else if !(forall c <- cands :: c in Ids(r.players)) then Err(UnknownPlayers)
    else if fid !in CandidateKeys(r.candidates[pid]) then Err(UnknownFact)
    else Ok(r.(candidates := r.candidates[pid := SetSuspects(r.candidates[pid], fid, cands)]))
  }

  /** Every suspect anywhere in the candidate map is a roster player. */
  ghost predicate SuspectsKnown(r: Room) {
    forall p <- r.candidates, c <- r.candidates[p], s <- c.suspects :: s in Ids(r.players)
  }

  /** The lists `startAbout` seeds are empty, so suspects start out known. */
  lemma StartAboutSuspectsKnown(r: Room, pid: PlayerId)
    requires r.stage == Facts ==> |r.players| > 0
    requires StartAbout(r, pid).Ok?
    ensures SuspectsKnown(StartAbout(r, pid).value)
  {
  }

  lemma ChangeKeepsSuspectsKnown(r: Room, pid: PlayerId, fid: FactId, cands: seq<PlayerId>)
    requires r.stage == Turns || r.stage == Answers
    requires HasFact(r.facts, pid) && pid in r.candidates
    requires SuspectsKnown(r) && ChangeFactCandidates(r, pid, fid, cands).Ok?
    ensures SuspectsKnown(ChangeFactCandidates(r, pid, fid, cands).value)
  {
    var r' := ChangeFactCandidates(r, pid, fid, cands).value;
    var cs := r.candidates[pid];
    var i := IndexOf(CandidateKeys(cs), fid);
    assert r'.candidates[pid] == cs[i := Candidate(fid, cands)];
  }

  lemma ChangePreservesValid(r: Room, pid: PlayerId, fid: FactId, cands: seq<PlayerId>)
    requires Valid(r) && (r.stage == Turns || r.stage == Answers)
    requires HasFact(r.facts, pid) && pid in r.candidates
    requires ChangeFactCandidates(r, pid, fid, cands).Ok?
    ensures Valid(ChangeFactCandidates(r, pid, fid, cands).value)
  {
    var r' := ChangeFactCandidates(r, pid, fid, cands).value;
    assert RosterOk(r');
    assert FactsOk(r');
    assert TurnOk(r');
    assert CandidatesOk(r');
    assert AnswersOk(r');
  }

  /** Recording the same suspects a second time changes nothing. */
  lemma ChangeIdempotent(r: Room, pid: PlayerId, fid: FactId, cands: seq<PlayerId>)
    requires r.stage == Turns || r.stage == Answers
    requires HasFact(r.facts, pid) && pid in r.candidates
    requires ChangeFactCandidates(r, pid, fid, cands).Ok?
    ensures var r' := ChangeFactCandidates(r, pid, fid, cands).value;
            ChangeFactCandidates(r', pid, fid, cands) == Ok(r')
  {
    var r' := ChangeFactCandidates(r, pid, fid, cands).value;
    var cs := r.candidates[pid];
    var i := IndexOf(CandidateKeys(cs), fid);
    var cs' := cs[i := Candidate(fid, cands)];
    assert r'.candidates[pid] == cs';
    assert IndexOf(CandidateKeys(cs'), fid) == i;
    assert cs'[i := Candidate(fid, cands)] == cs';
    assert r'.candidates[pid := cs'] == r'.candidates;
  }
}
