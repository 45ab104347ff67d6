/**
 * The REST controller under /api: lookup, creation and token-guarded
 * deletion of hotels, and the list endpoints that filter and rank the list
 * a repository query returns.
 *
 * Endpoints that differ only in the repository query feeding them (findAll,
 * findHotelesByProvinces, findHotelesByModalities) share one function here:
 * the query's result is the parameter `hoteles`.
 */
module ApiController {
  import opened Wrappers
  import opened JavaInteger
  import opened Hotels
  import opened Ranking
  import opened Filters
  import HotelStore
  import SecurityService

  datatype HttpStatus = OK | CREATED | NOT_FOUND | UNAUTHORIZED

  /** A ResponseEntity: a status and an optional hotel body. */
  datatype Response = Response(status: HttpStatus, body: Option<Hotel>)

  /** The store after a request, and the response to it. */
  datatype Outcome = Outcome(store: HotelStore.Store, response: Response)

  /** GET /hoteles/id/{id}: the stored hotel, or NOT_FOUND. */
  function FindById(store: HotelStore.Store, id: string): (r: Response)
    ensures r.status == OK <==> id in store
    ensures r.status == OK ==> r.body == Some(store[id])
    ensures r.status != OK ==> r == Response(NOT_FOUND, None)
  {
    if id in store then
      var hotel := HotelStore.FindById(store, id).value;
      Response(OK, Some(hotel))
    else Response(NOT_FOUND, None)
  }

  /**
   * DELETE /hoteles/{id}?token=: with a token some user carries, the hotel
   * is removed (or was never there) and the answer is OK; with any other
   * token nothing changes and the answer is UNAUTHORIZED.
   */
  function Delete(store: HotelStore.Store, users: seq<User>, id: string, token: string): (o: Outcome)
    ensures o.response.body.None?
    ensures o.response.status == OK <==> exists u :: u in users && u.token == Some(token)
    ensures o.response.status != OK ==> o.response.status == UNAUTHORIZED && o.store == store
    ensures o.response.status == OK ==> id !in o.store
    ensures forall k :: k != id ==> (k in o.store <==> k in store)
    ensures forall k :: k in o.store ==> o.store[k] == store[k]
    ensures HotelStore.WellKeyed(store) ==> HotelStore.WellKeyed(o.store)
  {
    if SecurityService.RequestValidation(users, token) then
      Outcome(HotelStore.DeleteById(store, id), Response(OK, None))
    else
      Outcome(store, Response(UNAUTHORIZED, None))
  }

  /**
   * POST /: the hotel is saved (replacing any hotel with its id) and
   * returned with CREATED. A hotel without id gets the generated one, which
   * the returned hotel then carries.
   */
  function Create(store: HotelStore.Store, hotel: Hotel, generated: string): (o: Outcome)
    ensures o.response.status == CREATED && o.response.body.Some?
    ensures o.response.body.value.id == Some(HotelStore.IdFor(hotel, generated))
    ensures hotel.id.Some? ==> o.response.body == Some(hotel)
    ensures HotelStore.IdFor(hotel, generated) in o.store
    ensures o.store[HotelStore.IdFor(hotel, generated)] == o.response.body.value
    ensures forall k :: k != HotelStore.IdFor(hotel, generated) ==>
              (k in o.store <==> k in store) && (k in store ==> o.store[k] == store[k])
    ensures HotelStore.WellKeyed(store) ==> HotelStore.WellKeyed(o.store)
  {
    Outcome(HotelStore.Save(store, hotel, generated), Response(CREATED, Some(HotelStore.Saved(hotel, generated))))
  }

  /** A created hotel is found under its id. */
  lemma CreateThenFindById(store: HotelStore.Store, hotel: Hotel, generated: string)
    ensures var o := Create(store, hotel, generated);
            FindById(o.store, HotelStore.IdFor(hotel, generated)) == o.response.(status := OK)
  {
  }

  /** After an authorised delete the hotel is not found; after a refused one the lookup is unchanged. */
  lemma DeleteThenFindById(store: HotelStore.Store, users: seq<User>, id: string, token: string)
    ensures var o := Delete(store, users, id, token);
            FindById(o.store, id) == if o.response.status == OK then Response(NOT_FOUND, None) else FindById(store, id)
  {
  }

  /** Repeating a delete changes nothing more and gets the same answer. */
  lemma DeleteIsIdempotent(store: HotelStore.Store, users: seq<User>, id: string, token: string)
    ensures var o := Delete(store, users, id, token);
            Delete(o.store, users, id, token) == o
  {
    HotelStore.DeleteIsIdempotent(store, id);
  }

  /**
   * The hotels ranked: luxury first, more stars first, ties in repository
   * order (GET /hoteles/estrellas and its per-province and per-modality
   * variants).
   */
  function OrdenadosPorEstrellas(hoteles: seq<Hotel>): (r: seq<Hotel>)
    requires AllRankable(hoteles)
    ensures AllRankable(r) && IsRankingOf(r, hoteles)
  {
    Ranked(hoteles)
  }

  /** The hotels whose category reads as exactly `estrellas` stars, in repository order. */
  function PorEstrellas(hoteles: seq<Hotel>, estrellas: Int32): (r: seq<Hotel>)
    requires AllRankable(hoteles)
    ensures EvaluableAllOn([StarsEqual(estrellas)], hoteles)
    ensures IsSelectionOf(r, hoteles, [StarsEqual(estrellas)])
  {
    OneCriterion(hoteles, StarsEqual(estrellas));
    ChainIsSelection(hoteles, [StarsEqual(estrellas)]);
    Chain(hoteles, [StarsEqual(estrellas)])
  }

  /** The luxury hotels, in repository order. */
  function DeLujo(hoteles: seq<Hotel>): (r: seq<Hotel>)
    ensures EvaluableAllOn([Luxury], hoteles)
    ensures IsSelectionOf(r, hoteles, [Luxury])
  {
    OneCriterion(hoteles, Luxury);
    ChainIsSelection(hoteles, [Luxury]);
    Chain(hoteles, [Luxury])
  }

  /**
   * The hotels whose modalities contain `modalities`. This filter calls
   * contains on the field without a null check, so a hotel without
   * modalities makes it throw.
   */
  function PorModalidad(hoteles: seq<Hotel>, modalities: string): (r: seq<Hotel>)
    requires forall h :: h in hoteles ==> h.modalities.Some?
    ensures EvaluableAllOn([ModalityContains(modalities)], hoteles)
    ensures IsSelectionOf(r, hoteles, [ModalityContains(modalities)])
  {
    OneCriterion(hoteles, ModalityContains(modalities));
    ChainIsSelection(hoteles, [ModalityContains(modalities)]);
    Chain(hoteles, [ModalityContains(modalities)])
  }

  /**
   * The hotels whose modalities are present and contain `modalities` and
   * whose category reads as `estrellas` stars. The star count is read only
   * for hotels that passed the modality filter.
   */
  function PorModalidadYEstrellas(hoteles: seq<Hotel>, modalities: string, estrellas: Int32): (r: seq<Hotel>)
    requires forall h :: h in hoteles && Satisfies(h, ModalityContains(modalities)) ==> Rankable(h)
    ensures EvaluableAllOn([ModalityContains(modalities), StarsEqual(estrellas)], hoteles)
    ensures IsSelectionOf(r, hoteles, [ModalityContains(modalities), StarsEqual(estrellas)])
  {
    var cs := [ModalityContains(modalities), StarsEqual(estrellas)];
    TwoCriteriaOn(hoteles, ModalityContains(modalities), StarsEqual(estrellas));
    ChainIsSelection(hoteles, cs);
    Chain(hoteles, cs)
  }

  /**
   * The hotels whose modalities are present and contain `modalities`,
   * ranked (the second getHotelesPorProvinciaModalidadYEstrellas overload).
   * Only the hotels that passed the filter are ranked.
   */
  function PorModalidadOrdenados(hoteles: seq<Hotel>, modalities: string): (r: seq<Hotel>)
    requires forall h :: h in hoteles && Satisfies(h, ModalityContains(modalities)) ==> Rankable(h)
    ensures EvaluableAllOn([ModalityContains(modalities)], hoteles) && AllRankable(r)
    ensures exists s :: IsSelectionOf(s, hoteles, [ModalityContains(modalities)]) && AllRankable(s) && IsRankingOf(r, s)
  {
    var c := ModalityContains(modalities);
    OneCriterion(hoteles, c);
    ChainIsSelection(hoteles, [c]);
    var s := Chain(hoteles, [c]);
    assert AllRankable(s);
    Ranked(s)
  }

  /** The luxury hotels whose modalities are present and contain `modalities`, in repository order. */
  function PorModalidadYLujo(hoteles: seq<Hotel>, modalities: string): (r: seq<Hotel>)
    ensures EvaluableAllOn([ModalityContains(modalities), Luxury], hoteles)
    ensures IsSelectionOf(r, hoteles, [ModalityContains(modalities), Luxury])
  {
    var cs := [ModalityContains(modalities), Luxury];
    TwoCriteriaOn(hoteles, ModalityContains(modalities), Luxury);
    ChainIsSelection(hoteles, cs);
    Chain(hoteles, cs)
  }

  /** When every star count can be read, the modality and star filters may run in either order. */
  lemma PorModalidadYEstrellasInEitherOrder(hoteles: seq<Hotel>, modalities: string, estrellas: Int32)
    requires AllRankable(hoteles)
    ensures EvaluableAllOn([StarsEqual(estrellas), ModalityContains(modalities)], hoteles)
    ensures PorModalidadYEstrellas(hoteles, modalities, estrellas)
              == Chain(hoteles, [StarsEqual(estrellas), ModalityContains(modalities)])
  {
    ChainedSelectCommutes(hoteles, ModalityContains(modalities), StarsEqual(estrellas));
  }

  /** Ranking before filtering gives the same list as filtering before ranking. */
  lemma PorModalidadOrdenadosRanksFirst(hoteles: seq<Hotel>, modalities: string)
    requires AllRankable(hoteles)
    ensures EvaluableAllOn([ModalityContains(modalities)], Ranked(hoteles))
    ensures PorModalidadOrdenados(hoteles, modalities) == Chain(Ranked(hoteles), [ModalityContains(modalities)])
  {
    OneCriterion(hoteles, ModalityContains(modalities));
    ChainCommutesWithRanking(hoteles, [ModalityContains(modalities)]);
  }
}
