/**
 * The "hoteles" collection as the repository operations the controllers call
 * see it: a map from document id to hotel.
 */
module HotelStore {
  import opened Wrappers
  import opened Hotels

  type Store = map<string, Hotel>

  /** Every document is stored under its own id. */
  predicate WellKeyed(store: Store)
  {
    forall k :: k in store ==> store[k].id == Some(k)
  }

  /** The id save stores a hotel under: its own, or the one the database generates for a null id. */
  function IdFor(h: Hotel, generated: string): (id: string)
  {
    h.id.GetOr(generated)
  }

  /** The hotel as save writes it: a null id is filled in with the generated one. */
  function Saved(h: Hotel, generated: string): (s: Hotel)
    ensures s.id == Some(IdFor(h, generated))
    ensures s.categories == h.categories && s.modalities == h.modalities && s.provinces == h.provinces
    ensures h.id.Some? ==> s == h
  {
    h.(id := Some(IdFor(h, generated)))
  }

  /** CrudRepository.findById. */
  function FindById(store: Store, id: string): (r: Option<Hotel>)
    ensures r.Some? <==> id in store
    ensures r.Some? ==> r.value == store[id]
  {
    if id in store then Some(store[id]) else None
  }

  /**
   * CrudRepository.save: an upsert. The document with the hotel's id is
   * replaced, or added when there is none; every other document is kept.
   */
  function Save(store: Store, h: Hotel, generated: string): (r: Store)
    ensures IdFor(h, generated) in r && r[IdFor(h, generated)] == Saved(h, generated)
    ensures forall k :: k != IdFor(h, generated) ==> (k in r <==> k in store)
    ensures forall k :: k in store && k != IdFor(h, generated) ==> r[k] == store[k]
    ensures WellKeyed(store) ==> WellKeyed(r)
  {
    store[IdFor(h, generated) := Saved(h, generated)]
  }

  /** CrudRepository.deleteById: the document with that id is gone, whether or not it was there. */
  function DeleteById(store: Store, id: string): (r: Store)
    ensures id !in r
    ensures forall k :: k != id ==> (k in r <==> k in store)
    ensures forall k :: k in r ==> r[k] == store[k]
    ensures id !in store ==> r == store
    ensures WellKeyed(store) ==> WellKeyed(r)
  {
    store - {id}
  }

  /** Saving a hotel that carries an id twice in a row is the same as saving it once. */
  lemma SaveIsIdempotent(store: Store, h: Hotel, generated: string)
    requires h.id.Some?
    ensures Save(Save(store, h, generated), h, generated) == Save(store, h, generated)
  {
  }

  /** A hotel with a null id and a fresh generated id adds one document and replaces none. */
  lemma SaveWithGeneratedIdAdds(store: Store, h: Hotel, generated: string)
    requires h.id.None? && generated !in store
    ensures |Save(store, h, generated)| == |store| + 1
    ensures forall k :: k in store ==> k in Save(store, h, generated) && Save(store, h, generated)[k] == store[k]
  {
    assert Save(store, h, generated).Keys == store.Keys + {generated};
  }

  /** Saving under an id already in use replaces that document in place: no duplicate appears. */
  lemma SaveOverExistingReplaces(store: Store, h: Hotel, generated: string)
    requires IdFor(h, generated) in store
    ensures |Save(store, h, generated)| == |store|
    ensures Save(store, h, generated).Keys == store.Keys
  {
    assert Save(store, h, generated).Keys == store.Keys;
  }

  /** Deleting twice is deleting once. */
  lemma DeleteIsIdempotent(store: Store, id: string)
    ensures DeleteById(DeleteById(store, id), id) == DeleteById(store, id)
  {
  }

  /** Deleting a hotel that was just saved under a new id restores the store. */
  lemma DeleteUndoesSaveOfNew(store: Store, h: Hotel, generated: string)
    requires IdFor(h, generated) !in store
    ensures DeleteById(Save(store, h, generated), IdFor(h, generated)) == store
  {
    assert DeleteById(Save(store, h, generated), IdFor(h, generated)).Keys == store.Keys;
  }
}
