/** Recipient selection of src/Room.ts (`filterPlayers`): the roster
    narrowed by an optional include list and then an optional exclude list.
    An absent list filters nothing; a present but empty include list keeps
    no one, as a JavaScript empty array is truthy. */
module Recipients {
  import opened Lists
  import opened PlayerFacts
  import opened Rooms

  datatype Filters = Filters(included: Option<seq<PlayerId>>, excluded: Option<seq<PlayerId>>)

  /** The players whose id is (`inside`) or is not (`!inside`) in `ids`,
      in roster order. */
  function Keep(ps: seq<Player>, ids: seq<PlayerId>, inside: bool): (qs: seq<Player>)
    ensures IsSublist(qs, ps)
    ensures forall p :: p in qs <==> p in ps && (p.id in ids <==> inside)
  {
    if |ps| == 0 then []
    else
      var rest := Keep(ps[1..], ids, inside);
      assert forall p :: p in ps <==> p == ps[0] || p in ps[1..];
      if (ps[0].id in ids) == inside then [ps[0]] + rest
      else
        assert IsSublist(rest, ps) by { assert IsSublist(rest, ps[1..]); }
        rest
  }

  /** `filterPlayers`: the include pass, then the exclude pass. */
  function FilterPlayers(ps: seq<Player>, f: Filters): (qs: seq<Player>)
    ensures IsSublist(qs, ps)
    ensures forall p :: p in qs <==>
              && p in ps
              && (f.included.Some? ==> p.id in f.included.value)
              && (f.excluded.Some? ==> p.id !in f.excluded.value)
  {
    var kept := if f.included.Some? then Keep(ps, f.included.value, true) else ps;
    SublistRefl(ps);
    var qs := if f.excluded.Some? then Keep(kept, f.excluded.value, false) else kept;
    SublistRefl(kept);
    SublistTrans(qs, kept, ps);
    qs
  }

  /** An id that is excluded never receives, even when it is included. */
  lemma ExcludeWins(ps: seq<Player>, inc: seq<PlayerId>, exc: seq<PlayerId>, id: PlayerId)
    requires id in exc
    ensures id !in Ids(FilterPlayers(ps, Filters(Some(inc), Some(exc))))
  {
  }

  /** Filtering twice with the same filters is filtering once. */
  lemma {:induction false} KeepIdempotent(ps: seq<Player>, ids: seq<PlayerId>, inside: bool)
    ensures Keep(Keep(ps, ids, inside), ids, inside) == Keep(ps, ids, inside)
    decreases |ps|
  {
    if |ps| > 0 {
      KeepIdempotent(ps[1..], ids, inside);
      var rest := Keep(ps[1..], ids, inside);
      if (ps[0].id in ids) == inside {
        assert ([ps[0]] + rest)[1..] == rest;
      }
    }
  }

  lemma FilterIdempotent(ps: seq<Player>, f: Filters)
    ensures FilterPlayers(FilterPlayers(ps, f), f) == FilterPlayers(ps, f)
  {
    var kept := if f.included.Some? then Keep(ps, f.included.value, true) else ps;
    var qs := FilterPlayers(ps, f);
    if f.included.Some? {
      KeepIdempotent(ps, f.included.value, true);
    }
    if f.included.Some? && f.excluded.Some? {
      // Dropping excluded players keeps only included ones, so the second
      // include pass removes nothing.
      KeepAll(qs, f.included.value);
      KeepIdempotent(kept, f.excluded.value, false);
    } else if f.excluded.Some? {
      KeepIdempotent(ps, f.excluded.value, false);
    }
  }

  /** When every player is in `ids`, keeping those in `ids` keeps all. */
  lemma {:induction false} KeepAll(ps: seq<Player>, ids: seq<PlayerId>)
    requires forall p <- ps :: p.id in ids
    ensures Keep(ps, ids, true) == ps
    decreases |ps|
  {
    if |ps| > 0 {
      KeepAll(ps[1..], ids);
    }
  }
}
