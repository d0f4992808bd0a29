/** A player's fact (src/PlayerFact.ts) and the public projection of it
    that the room sends to clients: id and text, never the owner. */
module PlayerFacts {

  type PlayerId = int
  type FactId = int

  datatype PlayerFact = PlayerFact(id: FactId, text: string, ownerId: PlayerId)

  /** What `toJSON` emits: the owner has no field here at all. */
  datatype PublicFact = PublicFact(id: FactId, text: string)

  /** `new PlayerFact(id, text, ownerId)`. */
  function NewFact(id: FactId, text: string, ownerId: PlayerId): (f: PlayerFact)
    ensures f.id == id && f.text == text && f.ownerId == ownerId
  {
    PlayerFact(id, text, ownerId)
  }

  /** `toJSON`. */
  function ToPublic(f: PlayerFact): (p: PublicFact)
    ensures p.id == f.id && p.text == f.text
  {
    PublicFact(f.id, f.text)
  }

  /** The public projection is blind to ownership: two facts that differ
      only in their owner project to the same value, and the projection of
      a freshly built fact gives back its id and text. */
  lemma PublicHidesOwner(f: PlayerFact, other: PlayerId)
    ensures ToPublic(f.(ownerId := other)) == ToPublic(f)
    ensures ToPublic(NewFact(f.id, f.text, other)) == PublicFact(f.id, f.text)
  {
  }

  /** The projection of every fact of a list, in list order. */
  function PublicFacts(fs: seq<PlayerFact>): (ps: seq<PublicFact>)
    ensures |ps| == |fs|
    ensures forall i :: 0 <= i < |fs| ==> ps[i] == ToPublic(fs[i])
  {
    seq(|fs|, i requires 0 <= i < |fs| => ToPublic(fs[i]))
  }

  function FactIds(fs: seq<PlayerFact>): (ids: seq<FactId>)
    ensures |ids| == |fs|
    ensures forall i :: 0 <= i < |fs| ==> ids[i] == fs[i].id
  {
    seq(|fs|, i requires 0 <= i < |fs| => fs[i].id)
  }

  function Owners(fs: seq<PlayerFact>): (os: seq<PlayerId>)
    ensures |os| == |fs|
    ensures forall i :: 0 <= i < |fs| ==> os[i] == fs[i].ownerId
  {
    seq(|fs|, i requires 0 <= i < |fs| => fs[i].ownerId)
  }

  /** Ownership cannot be read back from the public list: changing who owns
      which fact leaves the projected list unchanged. */
  lemma {:induction false} PublicFactsIgnoreOwners(a: seq<PlayerFact>, b: seq<PlayerFact>)
    requires |a| == |b|
    requires forall i :: 0 <= i < |a| ==> a[i].id == b[i].id && a[i].text == b[i].text
    ensures PublicFacts(a) == PublicFacts(b)
  {
  }
}
