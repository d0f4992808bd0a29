/** The final-answer validation of `Room.addAnswers` (src/Room.ts:445-455),
    stated over the fact list and the roster ids, together with the
    bijection the game design intends an answer to be. */
module AnswerRules {
  import opened Lists
  import opened PlayerFacts

  /** One pair of a final answer: "fact `factId` belongs to `playerId`". */
  datatype Entry = Entry(factId: FactId, playerId: PlayerId)
  type Answer = seq<Entry>

  /** Why an answer is refused, in the order the checks run. The last two
      are raised only by the corrected check `CheckStrict`. */
  datatype Rejection =
    | DuplicateFacts
    | MissingFacts
    | DuplicatePlayers
    | MissingPlayers
    | ForeignFacts
    | ForeignPlayers

  function AnswerFacts(a: Answer): (fs: seq<FactId>)
    ensures |fs| == |a|
    ensures forall i :: 0 <= i < |a| ==> fs[i] == a[i].factId
  {
    seq(|a|, i requires 0 <= i < |a| => a[i].factId)
  }

  function AnswerPlayers(a: Answer): (ps: seq<PlayerId>)
    ensures |ps| == |a|
    ensures forall i :: 0 <= i < |a| ==> ps[i] == a[i].playerId
  {
    seq(|a|, i requires 0 <= i < |a| => a[i].playerId)
  }

  /** The source's duplicate test: the set built from the list is smaller
      than the list. */
  predicate HasRepeats<T(==)>(xs: seq<T>) {
    |set x | x in xs| != |xs|
  }

  /** Every fact except the submitter's own is named in the answer. */
  predicate CoversFacts(a: Answer, submitter: PlayerId, facts: seq<PlayerFact>) {
    forall f <- facts :: f.ownerId == submitter || f.id in AnswerFacts(a)
  }

  /** Every roster player except the submitter is named in the answer. */
  predicate CoversPlayers(a: Answer, submitter: PlayerId, roster: seq<PlayerId>) {
    forall p <- roster :: p == submitter || p in AnswerPlayers(a)
  }

  /** What the source accepts: distinct facts covering all foreign facts and
      distinct players covering all other players. Nothing forbids extra
      entries, the submitter's own fact, or the submitter as a target. */
  predicate Accepted(a: Answer, submitter: PlayerId, facts: seq<PlayerFact>, roster: seq<PlayerId>) {
    && NoDup(AnswerFacts(a))
    && CoversFacts(a, submitter, facts)
    && NoDup(AnswerPlayers(a))
    && CoversPlayers(a, submitter, roster)
  }

  /** The checks of `addAnswers` after the "already sent" test, in source
      order; `None` means the answer is recorded. */
  function Check(a: Answer, submitter: PlayerId, facts: seq<PlayerFact>, roster: seq<PlayerId>): (v: Option<Rejection>)
    ensures v == Some(DuplicateFacts) <==> !NoDup(AnswerFacts(a))
    ensures v == Some(MissingFacts) <==> NoDup(AnswerFacts(a)) && !CoversFacts(a, submitter, facts)
    ensures v == Some(DuplicatePlayers) <==>
              NoDup(AnswerFacts(a)) && CoversFacts(a, submitter, facts) && !NoDup(AnswerPlayers(a))
    ensures v == Some(MissingPlayers) <==>
              NoDup(AnswerFacts(a)) && CoversFacts(a, submitter, facts) && NoDup(AnswerPlayers(a))
              && !CoversPlayers(a, submitter, roster)
    ensures v.None? <==> Accepted(a, submitter, facts, roster)
  {
    DistinctBySize(AnswerFacts(a));
    DistinctBySize(AnswerPlayers(a));
    if HasRepeats(AnswerFacts(a)) then Some(DuplicateFacts)
    else if !CoversFacts(a, submitter, facts) then Some(MissingFacts)
    else if HasRepeats(AnswerPlayers(a)) then Some(DuplicatePlayers)
    else if !CoversPlayers(a, submitter, roster) then Some(MissingPlayers)
    else None
  }

  /** The fact ids a submitter is meant to place: all but their own. */
  function ForeignFactIds(submitter: PlayerId, facts: seq<PlayerFact>): set<FactId> {
    set f | f in facts && f.ownerId != submitter :: f.id
  }

  /** The players a submitter is meant to place: all but themselves. */
  function OtherPlayers(submitter: PlayerId, roster: seq<PlayerId>): set<PlayerId> {
    set p | p in roster && p != submitter
  }

  /** The intended shape of a final answer: a one-to-one pairing of every
      foreign fact with every other player, and nothing else. */
  predicate IsBijection(a: Answer, submitter: PlayerId, facts: seq<PlayerFact>, roster: seq<PlayerId>) {
    && NoDup(AnswerFacts(a))
    && NoDup(AnswerPlayers(a))
    && (set x | x in AnswerFacts(a)) == ForeignFactIds(submitter, facts)
    && (set x | x in AnswerPlayers(a)) == OtherPlayers(submitter, roster)
  }

  /** Every intended answer passes the source's check. */
  lemma BijectionAccepted(a: Answer, submitter: PlayerId, facts: seq<PlayerFact>, roster: seq<PlayerId>)
    requires IsBijection(a, submitter, facts, roster)
    ensures Check(a, submitter, facts, roster) == None
  {
    forall f <- facts | f.ownerId != submitter
      ensures f.id in AnswerFacts(a)
    {
      assert f.id in ForeignFactIds(submitter, facts);
    }
    forall p <- roster | p != submitter
      ensures p in AnswerPlayers(a)
    {
      assert p in OtherPlayers(submitter, roster);
    }
  }

  /** The source's check is strictly weaker than the intended bijection:
      with four players 10, 20, 30, 40 owning facts 1, 2, 3, 4, player 10
      may also place their own fact on themselves, and the answer passes. */
  lemma SelfPlacementAccepted()
    ensures var facts := [PlayerFact(1, "a", 10), PlayerFact(2, "b", 20), PlayerFact(3, "c", 30), PlayerFact(4, "d", 40)];
            var a := [Entry(1, 10), Entry(2, 20), Entry(3, 30), Entry(4, 40)];
            Check(a, 10, facts, [10, 20, 30, 40]) == None && !IsBijection(a, 10, facts, [10, 20, 30, 40])
  {
    var facts := [PlayerFact(1, "a", 10), PlayerFact(2, "b", 20), PlayerFact(3, "c", 30), PlayerFact(4, "d", 40)];
    var a := [Entry(1, 10), Entry(2, 20), Entry(3, 30), Entry(4, 40)];
    assert AnswerFacts(a) == [1, 2, 3, 4];
    assert AnswerPlayers(a) == [10, 20, 30, 40];
    assert Accepted(a, 10, facts, [10, 20, 30, 40]);
    assert 10 in (set x | x in AnswerPlayers(a));
    assert 10 !in OtherPlayers(10, [10, 20, 30, 40]);
  }

  /** Likewise an extra pair naming a fact and a player that do not exist
      passes the source's check. */
  lemma UnknownTargetAccepted()
    ensures var facts := [PlayerFact(1, "a", 10), PlayerFact(2, "b", 20), PlayerFact(3, "c", 30), PlayerFact(4, "d", 40)];
            var a := [Entry(2, 20), Entry(3, 30), Entry(4, 40), Entry(99, 99)];
            Check(a, 10, facts, [10, 20, 30, 40]) == None && !IsBijection(a, 10, facts, [10, 20, 30, 40])
  {
    var facts := [PlayerFact(1, "a", 10), PlayerFact(2, "b", 20), PlayerFact(3, "c", 30), PlayerFact(4, "d", 40)];
    var a := [Entry(2, 20), Entry(3, 30), Entry(4, 40), Entry(99, 99)];
    assert AnswerFacts(a) == [2, 3, 4, 99];
    assert AnswerPlayers(a) == [20, 30, 40, 99];
    assert Accepted(a, 10, facts, [10, 20, 30, 40]);
    assert 99 !in OtherPlayers(10, [10, 20, 30, 40]);
    assert 99 in (set x | x in AnswerPlayers(a));
  }

  /** The corrected check: the source's checks, then two more refusing any
      pair whose fact is not a foreign fact or whose player is not another
      roster player. It accepts exactly the intended bijections. */
  function CheckStrict(a: Answer, submitter: PlayerId, facts: seq<PlayerFact>, roster: seq<PlayerId>): (v: Option<Rejection>)
    ensures v.None? <==> IsBijection(a, submitter, facts, roster)
    ensures v.Some? && v != Some(ForeignFacts) && v != Some(ForeignPlayers) ==> v == Check(a, submitter, facts, roster)
  {
    var w := Check(a, submitter, facts, roster);
    if w.Some? then
      assert !IsBijection(a, submitter, facts, roster) by {
        if IsBijection(a, submitter, facts, roster) { BijectionAccepted(a, submitter, facts, roster); }
      }
      w
    else if !(forall x <- AnswerFacts(a) :: x in ForeignFactIds(submitter, facts)) then
      Some(ForeignFacts)
    else if !(forall x <- AnswerPlayers(a) :: x in OtherPlayers(submitter, roster)) then
      Some(ForeignPlayers)
    else
      assert (set x | x in AnswerFacts(a)) == ForeignFactIds(submitter, facts) by {
        forall y | y in ForeignFactIds(submitter, facts) ensures y in AnswerFacts(a) {
          var f :| f in facts && f.ownerId != submitter && f.id == y;
        }
      }
      assert (set x | x in AnswerPlayers(a)) == OtherPlayers(submitter, roster);
      None
  }
}
