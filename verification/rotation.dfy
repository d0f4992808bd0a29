/** Turn rotation of src/Room.ts (`setNextTurn`, `startTurns`,
    `startAnswers`, `nextTurn`, `leaderNextTurn`): one lap of the roster in
    `about`, then `MaxCycles` laps in `turns`, then `answers`. */
module Rotation {
  import opened Lists
  import opened PlayerFacts
  import opened Rooms

  /** The roster index after the current turn; a current turn that is not
      on the roster (the initial `-1`) gives index 0. */
  function NextIndex(r: Room): (i: nat)
    ensures i <= |r.players|
    ensures r.currentTurn !in Ids(r.players) ==> i == 0
    ensures r.currentTurn in Ids(r.players) ==> 0 < i && r.players[i - 1].id == r.currentTurn
  {
    IndexOf(Ids(r.players), r.currentTurn) + 1
  }

  /** In a roster of distinct ids, the player after roster entry `i` is
      entry `i + 1`. */
  lemma NextIndexOf(r: Room, i: int)
    requires NoDup(Ids(r.players)) && 0 <= i < |r.players|
    requires r.currentTurn == r.players[i].id
    ensures NextIndex(r) == i + 1
  {
    IndexOfDistinct(Ids(r.players), i);
  }

  /** A lap of `turns` has ended: count it; after `MaxCycles` laps
      `startAnswers` opens the answers stage, otherwise play restarts at
      the head of the roster. */
  function EndLap(r: Room): (r': Room)
    requires r.stage == Turns && |r.players| > 0
    ensures r'.cycleNum == r.cycleNum + 1
    ensures r.cycleNum + 1 > MaxCycles ==> r' == r.(stage := Answers, cycleNum := r.cycleNum + 1)
    ensures r.cycleNum + 1 <= MaxCycles ==>
              r' == r.(cycleNum := r.cycleNum + 1, currentTurn := r.players[0].id)
  {
    var c := r.cycleNum + 1;
    if c > MaxCycles then r.(stage := Answers, cycleNum := c)
    else r.(cycleNum := c, currentTurn := r.players[0].id)
  }

  /** What the end of a lap does: it changes only the stage, the lap count
      and the turn; it counts the lap; `answers` opens exactly when the
      `MaxCycles` laps are complete, leaving the turn where it was, and
      otherwise `turns` goes on at the head of the roster. */
  lemma EndLapCounts(r: Room)
    requires r.stage == Turns && |r.players| > 0
    ensures var r' := EndLap(r);
            && r' == r.(stage := r'.stage, cycleNum := r'.cycleNum, currentTurn := r'.currentTurn)
            && r'.cycleNum == r.cycleNum + 1
            && (r'.stage == Turns || r'.stage == Answers)
            && (r'.stage == Answers <==> r.cycleNum >= MaxCycles)
            && (r'.stage == Turns ==> r'.currentTurn == r.players[0].id)
            && (r'.stage == Answers ==> r'.currentTurn == r.currentTurn)
  {
  }

  /** `setNextTurn`: mid-lap the turn passes to the next roster player; at
      the end of the `about` lap `startTurns` switches to `turns` and the lap
      ends there too; at the end of a `turns` lap the lap is counted.
      Only the stage, the current turn and the lap counter change, and the
      stage only moves forward, never past `answers`. */
  function SetNextTurn(r: Room): (r': Room)
    requires r.stage == About || r.stage == Turns
    requires |r.players| > 0
    ensures r' == r.(stage := r'.stage, currentTurn := r'.currentTurn, cycleNum := r'.cycleNum)
    ensures r.stage.Rank() <= r'.stage.Rank() <= Answers.Rank()
    ensures r'.stage == r.stage ==> r'.currentTurn in Ids(r.players)
    ensures NextIndex(r) < |r.players| ==> r' == r.(currentTurn := r.players[NextIndex(r)].id)
    ensures NextIndex(r) == |r.players| && r.stage == About ==> r' == EndLap(r.(stage := Turns))
    ensures NextIndex(r) == |r.players| && r.stage == Turns ==> r' == EndLap(r)
  {
    var i := NextIndex(r);
    if i < |r.players| then r.(currentTurn := r.players[i].id)
    else if r.stage == About then EndLap(r.(stage := Turns))
    else EndLap(r)
  }

  /** `nextTurn`: only the player whose turn it is may pass it on. The reply
      is the new current turn while the stage stays, and nothing once the
      stage moved on. */
  function NextTurn(r: Room, pid: PlayerId): (o: Outcome<(Room, Option<PlayerId>)>)
    requires r.stage == About || r.stage == Turns
    requires |r.players| > 0
    ensures o.Err? <==> r.currentTurn != pid
    ensures o.Err? ==> o.error == NotYourTurn
    ensures o.Ok? ==> o.value.0 == SetNextTurn(r)
    ensures o.Ok? ==> (o.value.1.Some? <==> o.value.0.stage == r.stage)
    ensures o.Ok? && o.value.1.Some? ==> o.value.1.value == o.value.0.currentTurn
  {
    if r.currentTurn != pid then Err(NotYourTurn)
    else
      var r' := SetNextTurn(r);
      Ok((r', if r'.stage == r.stage then Some(r'.currentTurn) else None))
  }

  /** `leaderNextTurn`: the leader may pass anyone's turn on. */
  function LeaderNextTurn(r: Room, pid: PlayerId): (o: Outcome<(Room, Option<PlayerId>)>)
    requires r.stage == About || r.stage == Turns
    requires |r.players| > 0
    ensures o.Err? <==> r.leaderId != pid
    ensures o.Err? ==> o.error == NotLeader
    ensures o.Ok? ==> o.value.0 == SetNextTurn(r)
    ensures o.Ok? ==> (o.value.1.Some? <==> o.value.0.stage == r.stage)
    ensures o.Ok? && o.value.1.Some? ==> o.value.1.value == o.value.0.currentTurn
  {
    if r.leaderId != pid then Err(NotLeader)
    else
      var r' := SetNextTurn(r);
      Ok((r', if r'.stage == r.stage then Some(r'.currentTurn) else None))
  }

  lemma SetNextTurnPreservesValid(r: Room)
    requires Valid(r) && (r.stage == About || r.stage == Turns)
    ensures Valid(SetNextTurn(r))
  {
    var r' := SetNextTurn(r);
    assert RosterOk(r');
    assert FactsOk(r');
    assert TurnOk(r');
    assert CandidatesOk(r');
    assert AnswersOk(r');
  }

  /** The turn actions keep the invariant; in particular the current turn
      stays a roster player while turns are played. */
  lemma TurnActionsPreserveValid(r: Room, pid: PlayerId)
    requires Valid(r) && (r.stage == About || r.stage == Turns)
    ensures NextTurn(r, pid).Ok? ==> Valid(NextTurn(r, pid).value.0)
    ensures LeaderNextTurn(r, pid).Ok? ==> Valid(LeaderNextTurn(r, pid).value.0)
    ensures var r' := SetNextTurn(r); r'.stage == About || r'.stage == Turns ==> r'.currentTurn in Ids(r'.players)
  {
    SetNextTurnPreservesValid(r);
  }

  // ---------------------------------------------------------------------
  // The schedule: one lap in `about`, exactly `MaxCycles` laps in `turns`.
  // ---------------------------------------------------------------------

  /** `k` successive turn passes, stopping once the turn stages are over. */
  function Advance(r: Room, k: nat): Room
    requires |r.players| > 0
    decreases k
  {
    if k == 0 || !(r.stage == About || r.stage == Turns) then r
    else Advance(SetNextTurn(r), k - 1)
  }

  lemma {:induction false} AdvanceAdd(r: Room, a: nat, b: nat)
    requires |r.players| > 0
    ensures |Advance(r, a).players| == |r.players|
    ensures Advance(r, a + b) == Advance(Advance(r, a), b)
    decreases a
  {
    if a == 0 || !(r.stage == About || r.stage == Turns) {
      if !(r.stage == About || r.stage == Turns) {
        AdvanceStopped(r, b);
        AdvanceStopped(r, a + b);
      }
    } else {
      var s := SetNextTurn(r);
      assert Advance(r, a) == Advance(s, a - 1);
      assert Advance(r, a + b) == Advance(s, (a - 1) + b);
      AdvanceAdd(s, a - 1, b);
    }
  }

  /** `AdvanceAdd` with the total pass count named by the caller. */
  lemma AdvanceSplit(r: Room, a: nat, b: nat, total: nat)
    requires |r.players| > 0 && a + b == total
    ensures |Advance(r, a).players| == |r.players|
    ensures Advance(r, total) == Advance(Advance(r, a), b)
  {
    AdvanceAdd(r, a, b);
  }

  lemma AdvanceStopped(r: Room, k: nat)
    requires |r.players| > 0 && !(r.stage == About || r.stage == Turns)
    ensures Advance(r, k) == r
  {
  }

  /** Within a lap, `k` passes from roster entry `i` land on entry `i + k`
      and change nothing else. */
  lemma {:induction false} WithinLap(r: Room, i: nat, k: nat)
    requires r.stage == About || r.stage == Turns
    requires NoDup(Ids(r.players)) && i + k < |r.players|
    requires r.currentTurn == r.players[i].id
    ensures Advance(r, k) == r.(currentTurn := r.players[i + k].id)
    decreases k
  {
    if k > 0 {
      NextIndexOf(r, i);
      var s := SetNextTurn(r);
      assert s == r.(currentTurn := r.players[i + 1].id);
      assert Advance(r, k) == Advance(s, k - 1);
      WithinLap(s, i + 1, k - 1);
    }
  }

  /** The pass from the last roster entry ends the lap. */
  lemma LapEnd(r: Room)
    requires r.stage == About || r.stage == Turns
    requires NoDup(Ids(r.players)) && |r.players| > 0
    requires r.currentTurn == r.players[|r.players| - 1].id
    ensures r.cycleNum + 1 <= MaxCycles ==>
              SetNextTurn(r) == r.(stage := Turns, cycleNum := r.cycleNum + 1, currentTurn := r.players[0].id)
    ensures r.cycleNum + 1 > MaxCycles ==>
              SetNextTurn(r) == r.(stage := Answers, cycleNum := r.cycleNum + 1)
  {
    NextIndexOf(r, |r.players| - 1);
  }

  /** A full lap from the head of the roster: `n` passes bring the turn back
      to the head, counting one lap (and leaving `about` for `turns`), or
      open `answers` once the lap counter passes `MaxCycles`. */
  lemma FullLap(r: Room)
    requires r.stage == About || r.stage == Turns
    requires NoDup(Ids(r.players)) && |r.players| > 0
    requires r.currentTurn == r.players[0].id
    ensures r.cycleNum + 1 <= MaxCycles ==>
              Advance(r, |r.players|) == r.(stage := Turns, cycleNum := r.cycleNum + 1)
    ensures r.cycleNum + 1 > MaxCycles ==>
              Advance(r, |r.players|)
                == r.(stage := Answers, cycleNum := r.cycleNum + 1, currentTurn := r.players[|r.players| - 1].id)
  {
    var n := |r.players|;
    var last := r.(currentTurn := r.players[n - 1].id);
    assert Advance(r, n - 1) == last by { WithinLap(r, 0, n - 1); }
    assert Advance(r, n) == Advance(last, 1) by { AdvanceSplit(r, n - 1, 1, n); }
    assert Advance(last, 1) == SetNextTurn(last) by { AdvanceOne(last); }
    LapEnd(last);
  }

  lemma AdvanceOne(r: Room)
    requires (r.stage == About || r.stage == Turns) && |r.players| > 0
    ensures Advance(r, 1) == SetNextTurn(r)
  {
    assert Advance(SetNextTurn(r), 0) == SetNextTurn(r);
  }

  /** The `turns` laps: starting lap `m + 1` at the head of the roster, the
      state after `m * n` more passes (m < MaxCycles) is the head of the
      roster with `m + 1` laps counted. */
  lemma {:induction false} TurnsLaps(r: Room, m: nat)
    requires r.stage == Turns && r.cycleNum == 1
    requires NoDup(Ids(r.players)) && |r.players| > 0
    requires r.currentTurn == r.players[0].id
    requires m < MaxCycles
    ensures Advance(r, m * |r.players|) == r.(cycleNum := m + 1)
  {
    var n := |r.players|;
    if m > 0 {
      var k := (m - 1) * n;
      var v := r.(cycleNum := m);
      assert Advance(r, k) == v by { TurnsLaps(r, m - 1); }
      assert Advance(v, n) == r.(cycleNum := m + 1) by { FullLap(v); }
      assert k + n == m * n;
      AdvanceSplit(r, k, n, m * n);
    }
  }

  /** Opening `about` at the head of the roster, `n` passes reach the
      head of the roster in lap 1 of `turns`. */
  lemma AboutLap(r: Room)
    requires r.stage == About && r.cycleNum == 0
    requires NoDup(Ids(r.players)) && |r.players| > 0
    requires r.currentTurn == r.players[0].id
    ensures Advance(r, |r.players|) == r.(stage := Turns, cycleNum := 1)
  {
    FullLap(r);
  }

  /** Pass `n + m*n + j` from the opening of `about` is roster entry `j`
      in lap `m + 1` of `turns`. */
  lemma TurnsPass(r: Room, m: nat, j: nat)
    requires r.stage == About && r.cycleNum == 0
    requires NoDup(Ids(r.players)) && |r.players| > 0
    requires r.currentTurn == r.players[0].id
    requires m < MaxCycles && j < |r.players|
    ensures Advance(r, |r.players| + m * |r.players| + j)
              == r.(stage := Turns, cycleNum := m + 1, currentTurn := r.players[j].id)
  {
    var n := |r.players|;
    var k := m * n;
    var t := r.(stage := Turns, cycleNum := 1);
    var u := t.(cycleNum := m + 1);
    assert Advance(r, n) == t by { AboutLap(r); }
    assert Advance(t, k) == u by { TurnsLaps(t, m); }
    assert Advance(u, j) == u.(currentTurn := r.players[j].id) by { WithinLap(u, 0, j); }
    assert Advance(t, k + j) == Advance(u, j) by { AdvanceAdd(t, k, j); }
    AdvanceSplit(r, n, k + j, n + m * n + j);
  }

  /** Pass `(MaxCycles + 1) * n` from the opening of `about` opens
      `answers`, the turn left on the last roster entry. */
  lemma AnswersOpen(r: Room)
    requires r.stage == About && r.cycleNum == 0
    requires NoDup(Ids(r.players)) && |r.players| > 0
    requires r.currentTurn == r.players[0].id
    ensures Advance(r, (MaxCycles + 1) * |r.players|)
              == r.(stage := Answers, cycleNum := MaxCycles + 1, currentTurn := r.players[|r.players| - 1].id)
  {
    var n := |r.players|;
    var a := (MaxCycles - 1) * n;
    var t := r.(stage := Turns, cycleNum := 1);
    var u := t.(cycleNum := MaxCycles);
    var w := u.(stage := Answers, cycleNum := MaxCycles + 1, currentTurn := r.players[n - 1].id);
    assert Advance(r, n) == t by { AboutLap(r); }
    assert Advance(t, a) == u by { TurnsLaps(t, MaxCycles - 1); }
    assert Advance(u, n) == w by { FullLap(u); }
    assert Advance(t, a + n) == w by { AdvanceAdd(t, a, n); }
    assert n + (a + n) == (MaxCycles + 1) * n by { assert a == 3 * n; }
    AdvanceSplit(r, n, a + n, (MaxCycles + 1) * n);
  }

  /** The whole schedule from the opening of `about` (turn at the head of
      the roster, no laps counted), pass by pass: pass `k < n` is roster
      entry `k` in `about`; pass `k` with `n <= k < 5n` is entry `k % n` in
      lap `k / n` of `turns`; pass `5n` opens `answers`. So every player
      gets exactly one turn in `about` and exactly four in `turns`. */
  lemma Schedule(r: Room)
    requires r.stage == About && r.cycleNum == 0
    requires NoDup(Ids(r.players)) && |r.players| > 0
    requires r.currentTurn == r.players[0].id
    ensures forall k :: 0 <= k < |r.players| ==> Advance(r, k) == r.(currentTurn := r.players[k].id)
    ensures forall k :: |r.players| <= k < (MaxCycles + 1) * |r.players| ==>
              Advance(r, k) == r.(stage := Turns, cycleNum := k / |r.players|,
                                  currentTurn := r.players[k % |r.players|].id)
    ensures Advance(r, (MaxCycles + 1) * |r.players|)
              == r.(stage := Answers, cycleNum := MaxCycles + 1, currentTurn := r.players[|r.players| - 1].id)
  {
    AboutSchedule(r);
    TurnsSchedule(r);
    AnswersOpen(r);
  }

  lemma AboutSchedule(r: Room)
    requires r.stage == About && r.cycleNum == 0
    requires NoDup(Ids(r.players)) && |r.players| > 0
    requires r.currentTurn == r.players[0].id
    ensures forall k :: 0 <= k < |r.players| ==> Advance(r, k) == r.(currentTurn := r.players[k].id)
  {
    forall k | 0 <= k < |r.players| ensures Advance(r, k) == r.(currentTurn := r.players[k].id) {
      WithinLap(r, 0, k);
    }
  }

  lemma TurnsSchedule(r: Room)
    requires r.stage == About && r.cycleNum == 0
    requires NoDup(Ids(r.players)) && |r.players| > 0
    requires r.currentTurn == r.players[0].id
    ensures forall k :: |r.players| <= k < (MaxCycles + 1) * |r.players| ==>
              Advance(r, k) == r.(stage := Turns, cycleNum := k / |r.players|,
                                  currentTurn := r.players[k % |r.players|].id)
  {
    var n := |r.players|;
    forall k | n <= k < (MaxCycles + 1) * n
      ensures Advance(r, k) == r.(stage := Turns, cycleNum := k / n, currentTurn := r.players[k % n].id)
    {
      LapOfPass(k, n);
      TurnsPass(r, k / n - 1, k % n);
    }
  }

  /** Pass `k` of the `turns` stretch lies in lap `k / n`, at entry `k % n`. */
  lemma LapOfPass(k: nat, n: nat)
    requires 0 < n <= k < (MaxCycles + 1) * n
    ensures 1 <= k / n <= MaxCycles && 0 <= k % n < n
    ensures k == n + (k / n - 1) * n + k % n
  {
    assert k == (k / n) * n + k % n;
  }
}
