/** Final answers of src/Room.ts: `addAnswers` records a player's pairing
    of facts with players after the validation of `AnswerRules.Check`, and
    `dropAnswers` withdraws it. `AddAnswersStrict` is the corrected action
    that refuses everything but a bijection. */
module FinalAnswers {
  import opened Lists
  import opened PlayerFacts
  import opened AnswerRules
  import opened Rooms

  /** `addAnswers` as written: refused when an answer is already recorded,
      then when `Check` finds a fault; otherwise the answer is stored. */
  function AddAnswers(r: Room, pid: PlayerId, a: Answer): (o: Outcome<Room>)
    requires r.stage == Answers
    ensures o == Err(AnswerAlreadySent) <==> pid in r.answers
    ensures (o.Err? && o.error.AnswerRefused?) <==>
              pid !in r.answers && !Accepted(a, pid, r.facts, Ids(r.players))
    ensures o.Err? && o.error.AnswerRefused? ==> Some(o.error.reason) == Check(a, pid, r.facts, Ids(r.players))
    ensures o.Ok? <==> pid !in r.answers && Accepted(a, pid, r.facts, Ids(r.players))
    ensures o.Ok? ==> o.value == r.(answers := o.value.answers)
    ensures o.Ok? ==> o.value.answers.Keys == r.answers.Keys + {pid} && o.value.answers[pid] == a
    ensures o.Ok? ==> forall q <- r.answers :: o.value.answers[q] == r.answers[q]
  {
    if pid in r.answers then Err(AnswerAlreadySent)
    else
      var v := Check(a, pid, r.facts, Ids(r.players));
      if v.Some? then Err(AnswerRefused(v.value))
      else Ok(r.(answers := r.answers[pid := a]))
  }

  /** The corrected action: the same, with `CheckStrict` in place of `Check`. */
  function AddAnswersStrict(r: Room, pid: PlayerId, a: Answer): (o: Outcome<Room>)
    requires r.stage == Answers
    ensures o == Err(AnswerAlreadySent) <==> pid in r.answers
    ensures o.Ok? <==> pid !in r.answers && IsBijection(a, pid, r.facts, Ids(r.players))
    ensures o.Ok? ==> o == AddAnswers(r, pid, a)
  {
    if pid in r.answers then Err(AnswerAlreadySent)
    else
      var v := CheckStrict(a, pid, r.facts, Ids(r.players));
      if v.Some? then Err(AnswerRefused(v.value))
      else
        BijectionAccepted(a, pid, r.facts, Ids(r.players));
        Ok(r.(answers := r.answers[pid := a]))
  }

  /** `dropAnswers`: refused when nothing is recorded; otherwise only the
      caller's entry is removed. */
  function DropAnswers(r: Room, pid: PlayerId): (o: Outcome<Room>)
    requires r.stage == Answers
    ensures o.Err? <==> pid !in r.answers
    ensures o.Err? ==> o.error == AnswerNotSent
    ensures o.Ok? ==> o.value == r.(answers := o.value.answers)
    ensures o.Ok? ==> o.value.answers.Keys == r.answers.Keys - {pid}
    ensures o.Ok? ==> forall q <- o.value.answers :: o.value.answers[q] == r.answers[q]
  {
    if pid !in r.answers then Err(AnswerNotSent)
    else Ok(r.(answers := r.answers - {pid}))
  }

  /** Withdrawing an answer just recorded gives back the room before. */
  lemma AddThenDrop(r: Room, pid: PlayerId, a: Answer)
    requires r.stage == Answers && AddAnswers(r, pid, a).Ok?
    ensures DropAnswers(AddAnswers(r, pid, a).value, pid) == Ok(r)
  {
    var r' := AddAnswers(r, pid, a).value;
    assert r'.answers - {pid} == r.answers;
  }

  /** In a valid room, resubmitting a withdrawn answer restores the room. */
  lemma DropThenAdd(r: Room, pid: PlayerId)
    requires Valid(r) && r.stage == Answers && pid in r.answers
    ensures var r' := DropAnswers(r, pid).value;
            AddAnswers(r', pid, r.answers[pid]) == Ok(r)
  {
    var r' := DropAnswers(r, pid).value;
    assert Accepted(r.answers[pid], pid, r.facts, Ids(r.players));
    assert (r.answers - {pid})[pid := r.answers[pid]] == r.answers;
  }

  lemma AddAnswersPreservesValid(r: Room, pid: PlayerId, a: Answer)
    requires Valid(r) && r.stage == Answers && pid in Ids(r.players)
    requires AddAnswers(r, pid, a).Ok?
    ensures Valid(AddAnswers(r, pid, a).value)
  {
    var r' := AddAnswers(r, pid, a).value;
    assert RosterOk(r');
    assert FactsOk(r');
    assert TurnOk(r');
    assert CandidatesOk(r');
    assert AnswersOk(r');
  }

  lemma DropAnswersPreservesValid(r: Room, pid: PlayerId)
    requires Valid(r) && r.stage == Answers && DropAnswers(r, pid).Ok?
    ensures Valid(DropAnswers(r, pid).value)
  {
    var r' := DropAnswers(r, pid).value;
    assert RosterOk(r');
    assert FactsOk(r');
    assert TurnOk(r');
    assert CandidatesOk(r');
    assert AnswersOk(r');
  }

  /** Every recorded answer is one of the intended bijections. */
  ghost predicate StrictAnswers(r: Room) {
    forall p <- r.answers :: IsBijection(r.answers[p], p, r.facts, Ids(r.players))
  }

  /** The corrected action keeps every recorded answer a bijection, and so
      does withdrawing one. */
  lemma StrictActionsKeepStrict(r: Room, pid: PlayerId, a: Answer)
    requires r.stage == Answers && StrictAnswers(r)
    ensures AddAnswersStrict(r, pid, a).Ok? ==> StrictAnswers(AddAnswersStrict(r, pid, a).value)
    ensures DropAnswers(r, pid).Ok? ==> StrictAnswers(DropAnswers(r, pid).value)
  {
  }
}
