/** The `waiting` stage of src/Room.ts: joining and leaving, leadership,
    the ready list, and the leader's `startFacts`. */
module Lobby {
  import opened Lists
  import opened PlayerFacts
  import opened AnswerRules
  import opened Rooms

  /** `players.find(p => p.connected)?.id ?? -1`. */
  function FirstConnected(ps: seq<Player>): (id: PlayerId)
    ensures (forall p <- ps :: !p.connected) ==> id == NoPlayer
    ensures (exists p <- ps :: p.connected) ==>
              exists i :: 0 <= i < |ps| && ps[i].connected && ps[i].id == id
                          && forall j :: 0 <= j < i ==> !ps[j].connected
  {
    if |ps| == 0 then NoPlayer
    else if ps[0].connected then ps[0].id
    else
      var id := FirstConnected(ps[1..]);
      assert (exists p <- ps :: p.connected) ==> exists p <- ps[1..] :: p.connected;
      assert forall i :: 0 <= i < |ps| - 1 ==> ps[1..][i] == ps[i + 1];
      id
  }

  /** `setLeader`: an explicit id becomes leader; `-1` means "the first
      connected player, or nobody". Nothing else changes. */
  function SetLeader(r: Room, pid: PlayerId): (r': Room)
    ensures r' == r.(leaderId := r'.leaderId)
    ensures pid != NoPlayer ==> r'.leaderId == pid
    ensures pid == NoPlayer && (forall p <- r.players :: !p.connected) ==> r'.leaderId == NoPlayer
    ensures pid == NoPlayer && (exists p <- r.players :: p.connected) ==>
              exists i :: 0 <= i < |r.players| && r.players[i].connected && r.players[i].id == r'.leaderId
                          && forall j :: 0 <= j < i ==> !r.players[j].connected
  {
    if pid == NoPlayer then
      r.(leaderId := if |r.players| > 0 then FirstConnected(r.players) else NoPlayer)
    else
      r.(leaderId := pid)
  }

  /** `addPlayer`: append to the roster; the first player to join an
      unled room leads it. */
  function AddPlayer(r: Room, p: Player): (r': Room)
    requires r.stage == Waiting
    ensures r'.players == r.players + [p]
    ensures r' == r.(players := r'.players, leaderId := r'.leaderId)
    ensures r.leaderId != NoPlayer ==> r'.leaderId == r.leaderId
    ensures r.leaderId == NoPlayer && p.id != NoPlayer ==> r'.leaderId == p.id
  {
    var r1 := r.(players := r.players + [p]);
    if r.leaderId == NoPlayer then SetLeader(r1, p.id) else r1
  }

  /** `connectPlayer`, roster effects only: a known disconnected player is
      marked connected again; an unknown player joins, but only while the
      room is `waiting`; then an unled room gets a leader. */
  function ConnectPlayer(r: Room, id: PlayerId, name: string): (o: Outcome<Room>)
    ensures o == Err(DuplicateSession) <==>
              id in Ids(r.players) && r.players[IndexOf(Ids(r.players), id)].connected
    ensures o == Err(GameStarted) <==> id !in Ids(r.players) && r.stage != Waiting
    ensures o.Ok? <==>
              !(id in Ids(r.players) && r.players[IndexOf(Ids(r.players), id)].connected)
              && (id in Ids(r.players) || r.stage == Waiting)
    ensures o.Ok? ==> o.value == r.(players := o.value.players, leaderId := o.value.leaderId)
    ensures o.Ok? && id !in Ids(r.players) ==> o.value.players == r.players + [Player(id, name, true)]
    ensures o.Ok? && id in Ids(r.players) ==>
              var i := IndexOf(Ids(r.players), id);
              o.value.players == r.players[i := r.players[i].(connected := true)]
    ensures o.Ok? && r.leaderId != NoPlayer ==> o.value.leaderId == r.leaderId
    ensures o.Ok? && r.leaderId == NoPlayer && id !in Ids(r.players) && id != NoPlayer ==> o.value.leaderId == id
    ensures o.Ok? && r.leaderId == NoPlayer && id in Ids(r.players) ==> o.value.leaderId == FirstConnected(o.value.players)
    ensures o.Ok? && NoPlayer !in Ids(o.value.players) ==> o.value.leaderId != NoPlayer
  {
    var i := IndexOf(Ids(r.players), id);
    if 0 <= i && r.players[i].connected then Err(DuplicateSession)
    else if i < 0 && r.stage != Waiting then Err(GameStarted)
    else
      var joined :=
        if 0 <= i then r.(players := r.players[i := r.players[i].(connected := true)])
        else AddPlayer(r, Player(id, name, true));
      var k := if 0 <= i then i else |r.players|;
      assert joined.players[k].connected;
      Ok(if joined.leaderId == NoPlayer then SetLeader(joined, NoPlayer) else joined)
  }

  /** The roster after player `id`'s connection closed. */
  function MarkDisconnected(ps: seq<Player>, id: PlayerId): (qs: seq<Player>)
    ensures Ids(qs) == Ids(ps)
    ensures forall i :: 0 <= i < |ps| ==> qs[i] == ps[i].(connected := qs[i].connected)
    ensures forall i :: 0 <= i < |ps| ==> qs[i].connected == (ps[i].connected && ps[i].id != id)
    ensures forall k :: 0 <= k < |qs| && qs[k].connected ==> qs[k].id != id
  {
    seq(|ps|, k requires 0 <= k < |ps| => if ps[k].id == id then ps[k].(connected := false) else ps[k])
  }

  /** The ready list without `id` (`splice` at its first index). */
  function Unready(ready: seq<PlayerId>, id: PlayerId): (rs: seq<PlayerId>)
    requires NoDup(ready)
    ensures NoDup(rs)
    ensures forall x :: x in rs <==> x in ready && x != id
  {
    var j := IndexOf(ready, id);
    if j == -1 then ready
    else
      RemoveAtDistinct(ready, j);
      RemoveAt(ready, j)
  }

  lemma IdsRemoveAt(ps: seq<Player>, i: int)
    requires 0 <= i < |ps|
    ensures Ids(RemoveAt(ps, i)) == RemoveAt(Ids(ps), i)
  {
  }

  /** `disconnectPlayer` in `waiting`: the player leaves the roster and the
      ready list; an id not on the roster changes nothing. */
  function LeaveLobby(r: Room, id: PlayerId): (r': Room)
    requires r.stage == Waiting && NoDup(r.readyPlayers)
    ensures r' == r.(players := r'.players, readyPlayers := r'.readyPlayers, leaderId := r'.leaderId)
    ensures id !in Ids(r.players) ==> r' == r
    ensures id in Ids(r.players) ==>
              && Ids(r'.players) == RemoveAt(Ids(r.players), IndexOf(Ids(r.players), id))
              && NoDup(r'.readyPlayers)
              && (forall x :: x in r'.readyPlayers <==> x in r.readyPlayers && x != id)
              && (forall k :: 0 <= k < |r'.players| ==>
                    var q := r.players[if k < IndexOf(Ids(r.players), id) then k else k + 1];
                    r'.players[k] == q.(connected := q.connected && q.id != id))
              && (NoDup(Ids(r.players)) ==> r'.players == RemoveAt(r.players, IndexOf(Ids(r.players), id)))
              && (r.leaderId != id ==> r'.leaderId == r.leaderId)
              && (r.leaderId == id ==> r'.leaderId == FirstConnected(r'.players))
              && (r.leaderId == id ==> r'.leaderId == NoPlayer || exists k :: 0 <= k < |r'.players| && r'.players[k].connected && r'.players[k].id == r'.leaderId)
              && (id != NoPlayer ==> r'.leaderId != id)
  {
    var i := IndexOf(Ids(r.players), id);
    if i == -1 then r
    else
      var marked := MarkDisconnected(r.players, id);
      IdsRemoveAt(marked, i);
      LeaveRoster(r.players, id, i);
      var left := r.(players := RemoveAt(marked, i), readyPlayers := Unready(r.readyPlayers, id));
      Relead(left, id)
  }

  /** Removing player `i` from the roster after their connection closed:
      the others keep their order, with the leaver's
      connection cleared, and with unique ids nobody else is touched. */
  lemma LeaveRoster(ps: seq<Player>, id: PlayerId, i: int)
    requires 0 <= i < |ps| && ps[i].id == id
    ensures forall k :: 0 <= k < |ps| - 1 ==>
              var q := ps[if k < i then k else k + 1];
              RemoveAt(MarkDisconnected(ps, id), i)[k] == q.(connected := q.connected && q.id != id)
    ensures forall k :: 0 <= k < |ps| - 1 && RemoveAt(MarkDisconnected(ps, id), i)[k].connected ==>
              RemoveAt(MarkDisconnected(ps, id), i)[k].id != id
    ensures NoDup(Ids(ps)) ==> RemoveAt(MarkDisconnected(ps, id), i) == RemoveAt(ps, i)
  {
    var left := RemoveAt(MarkDisconnected(ps, id), i);
    if NoDup(Ids(ps)) {
      forall k | 0 <= k < |left| ensures left[k] == RemoveAt(ps, i)[k] {
        var j := if k < i then k else k + 1;
        assert Ids(ps)[j] != Ids(ps)[i];
      }
    }
  }

  /** `disconnectPlayer` after `waiting`: the player stays on the roster,
      marked disconnected. */
  function DropConnection(r: Room, id: PlayerId): (r': Room)
    ensures r' == r.(players := r'.players, leaderId := r'.leaderId)
    ensures Ids(r'.players) == Ids(r.players)
    ensures forall i :: 0 <= i < |r.players| ==>
              r'.players[i].connected == (r.players[i].connected && r.players[i].id != id)
    ensures forall i :: 0 <= i < |r.players| ==> r'.players[i] == r.players[i].(connected := r'.players[i].connected)
    ensures r.leaderId != id ==> r'.leaderId == r.leaderId
    ensures r.leaderId == id ==> r'.leaderId == FirstConnected(r'.players)
    ensures r.leaderId == id ==> r'.leaderId == NoPlayer || exists k :: 0 <= k < |r'.players| && r'.players[k].connected && r'.players[k].id == r'.leaderId
    ensures id != NoPlayer ==> r'.leaderId != id
  {
    Relead(r.(players := MarkDisconnected(r.players, id)), id)
  }

  /** The connection-close setter of RoomPlayer followed by
      `disconnectPlayer`; a departing leader is replaced by the first
      connected player. */
  function DisconnectPlayer(r: Room, id: PlayerId): (r': Room)
    requires NoDup(r.readyPlayers)
    ensures r' == r.(players := r'.players, readyPlayers := r'.readyPlayers, leaderId := r'.leaderId)
    ensures r.stage == Waiting ==> r' == LeaveLobby(r, id)
    ensures r.stage != Waiting ==> r' == DropConnection(r, id)
  {
    if r.stage == Waiting then LeaveLobby(r, id) else DropConnection(r, id)
  }

  /** The tail of `disconnectPlayer`: if the departed player led the room,
      leadership passes to the first connected player, or to nobody. */
  function Relead(left: Room, id: PlayerId): (l: Room)
    requires forall i :: 0 <= i < |left.players| && left.players[i].connected ==> left.players[i].id != id
    ensures l == left.(leaderId := l.leaderId)
    ensures left.leaderId != id ==> l == left
    ensures id != NoPlayer ==> l.leaderId != id
    ensures left.leaderId == id ==> l.leaderId == FirstConnected(left.players)
    ensures left.leaderId == id ==>
              l.leaderId == NoPlayer
              || exists i :: 0 <= i < |l.players| && l.players[i].connected && l.players[i].id == l.leaderId
  {
    if left.leaderId == id then SetLeader(left, NoPlayer) else left
  }

  /** `setPlayerReadyState`: only in `waiting`; `true` adds the caller to the
      ready list unless already there, `false` removes them. */
  function SetPlayerReadyState(r: Room, pid: PlayerId, state: bool): (o: Outcome<Room>)
    ensures o.Err? <==> r.stage != Waiting
    ensures o.Err? ==> o.error == WrongStage
    ensures o.Ok? ==> o.value == r.(readyPlayers := o.value.readyPlayers)
    ensures o.Ok? && state ==> pid in o.value.readyPlayers
    ensures o.Ok? && NoDup(r.readyPlayers) ==> (pid in o.value.readyPlayers <==> state)
    ensures o.Ok? ==> forall x :: x != pid ==> (x in o.value.readyPlayers <==> x in r.readyPlayers)
    ensures o.Ok? && NoDup(r.readyPlayers) ==> NoDup(o.value.readyPlayers)
  {
    if r.stage != Waiting then Err(WrongStage)
    else if state then
      if pid in r.readyPlayers then Ok(r)
      else
        Ok(r.(readyPlayers := r.readyPlayers + [pid]))
    else
      var i := IndexOf(r.readyPlayers, pid);
      if i == -1 then Ok(r)
      else
        Ok(r.(readyPlayers := RemoveAt(r.readyPlayers, i)))
  }

  /** Every player but the leader is on the ready list. */
  predicate AllReady(r: Room) {
    forall p <- r.players :: r.leaderId == p.id || p.id in r.readyPlayers
  }

  /** `startFacts`: the leader opens the `facts` stage once everyone else is
      ready and at least `MinPlayers` have joined; the checks run in this
      order and a refusal changes nothing. */
  function StartFacts(r: Room, pid: PlayerId): (o: Outcome<Room>)
    ensures o.Ok? <==> r.leaderId == pid && r.stage == Waiting && AllReady(r) && |r.players| >= MinPlayers
    ensures o == Err(NotLeader) <==> r.leaderId != pid
    ensures o == Err(WrongStage) <==> r.leaderId == pid && r.stage != Waiting
    ensures o == Err(PlayersNotReady) <==> r.leaderId == pid && r.stage == Waiting && !AllReady(r)
    ensures o == Err(TooFewPlayers) <==>
              r.leaderId == pid && r.stage == Waiting && AllReady(r) && |r.players| < MinPlayers
    ensures o.Ok? ==> o.value == r.(stage := Facts)
  {
    if r.leaderId != pid then Err(NotLeader)
    else if r.stage != Waiting then Err(WrongStage)
    else if !AllReady(r) then Err(PlayersNotReady)
    else if |r.players| < MinPlayers then Err(TooFewPlayers)
    else Ok(r.(stage := Facts))
  }

  // ---------------------------------------------------------------------
  // The lobby actions keep the room invariant.
  // ---------------------------------------------------------------------

  lemma IdsAppend(ps: seq<Player>, p: Player)
    ensures Ids(ps + [p]) == Ids(ps) + [p.id]
  {
  }

  /** A join or reconnect keeps the invariant (for an id other than the
      sentinel `-1`, which the room reserves for "nobody"). */
  lemma ConnectPreservesValid(r: Room, id: PlayerId, name: string)
    requires Valid(r) && id != NoPlayer && ConnectPlayer(r, id, name).Ok?
    ensures Valid(ConnectPlayer(r, id, name).value)
  {
    if id !in Ids(r.players) {
      JoinKeepsValid(r, id, name);
    } else {
      var r' := ConnectPlayer(r, id, name).value;
      ValidWithSameIds(r, r'.players, r'.leaderId);
    }
  }

  /** A new player joining a `waiting` room keeps the invariant. */
  lemma JoinKeepsValid(r: Room, id: PlayerId, name: string)
    requires r.stage == Waiting && RosterOk(r) && 1 <= r.factIdSeq
    requires r.facts == [] && r.currentTurn == NoPlayer && r.cycleNum == 0
    requires r.candidates == map[] && r.answers == map[]
    requires id != NoPlayer && id !in Ids(r.players)
    ensures ConnectPlayer(r, id, name).Ok?
    ensures Valid(ConnectPlayer(r, id, name).value)
  {
    var r' := ConnectPlayer(r, id, name).value;
    IdsAppend(r.players, Player(id, name, true));
    assert Ids(r'.players) == Ids(r.players) + [id];
    assert RosterOk(r');
    WaitingValid(r');
  }

  /** In `waiting` the invariant is the roster part alone, given that
      nothing of the later stages exists yet. */
  lemma WaitingValid(r: Room)
    requires r.stage == Waiting && RosterOk(r) && 1 <= r.factIdSeq
    requires r.facts == [] && r.currentTurn == NoPlayer && r.cycleNum == 0
    requires r.candidates == map[] && r.answers == map[]
    ensures Valid(r)
  {
  }

  lemma DisconnectPreservesValid(r: Room, id: PlayerId)
    requires Valid(r)
    ensures Valid(DisconnectPlayer(r, id))
  {
    var r' := DisconnectPlayer(r, id);
    if r.stage != Waiting {
      ValidWithSameIds(r, r'.players, r'.leaderId);
    } else if id in Ids(r.players) {
      var i := IndexOf(Ids(r.players), id);
      RemoveAtDistinct(Ids(r.players), i);
      assert RosterOk(r');
      WaitingValid(r');
    }
  }

  lemma SetReadyPreservesValid(r: Room, pid: PlayerId, state: bool)
    requires Valid(r) && SetPlayerReadyState(r, pid, state).Ok?
    ensures Valid(SetPlayerReadyState(r, pid, state).value)
  {
  }

  /** Setting the same ready state twice is the same as setting it once. */
  lemma SetReadyIdempotent(r: Room, pid: PlayerId, state: bool)
    requires r.stage == Waiting && NoDup(r.readyPlayers)
    ensures SetPlayerReadyState(SetPlayerReadyState(r, pid, state).value, pid, state) == SetPlayerReadyState(r, pid, state)
  {
  }

  lemma StartFactsPreservesValid(r: Room, pid: PlayerId)
    requires Valid(r) && StartFacts(r, pid).Ok?
    ensures Valid(StartFacts(r, pid).value)
  {
  }
}
