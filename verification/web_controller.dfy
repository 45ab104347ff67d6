/**
 * The HTML controller under /web: the detail page, the session-gated
 * creation form, the filtered and ranked page, and the province and
 * modality pickers. A view is its name plus the hotel it shows, if any.
 */
module WebController {
  import opened Wrappers
  import opened JavaString
  import opened Hotels
  import opened Sequences
  import opened Ranking
  import opened Filters
  import HotelStore
  import ApiController

  /** The "user" attribute of the HTTP session: present once someone logged in. */
  type Session = Option<User>

  const NOT_FOUND_VIEW := "404"
  const SINGLE_VIEW := "single"
  const NEW_VIEW := "new"
  const LOGIN_REDIRECT := "redirect:/login"
  const INDEX_REDIRECT := "redirect:/web/"
  const LOGIN_REDIRECT_AFTER_POST := "redirect:/login/"

  datatype View = View(name: string, hotel: Option<Hotel>)

  /** The store after a form post, and the view it answers with. */
  datatype Posted = Posted(store: HotelStore.Store, view: string)

  /** GET /web/{id}: the detail page of the stored hotel, or the 404 page. */
  function Single(store: HotelStore.Store, id: string): (v: View)
    ensures v.name == NOT_FOUND_VIEW <==> id !in store
    ensures v.name == NOT_FOUND_VIEW ==> v.hotel.None?
    ensures v.name != NOT_FOUND_VIEW ==> v == View(SINGLE_VIEW, Some(store[id]))
  {
    var hotel := HotelStore.FindById(store, id);
    if hotel.None? then View(NOT_FOUND_VIEW, None)
    else View(SINGLE_VIEW, Some(hotel.value))
  }

  /** The detail page shows what the API lookup returns, and is 404 exactly when the API says NOT_FOUND. */
  lemma SingleAgreesWithApi(store: HotelStore.Store, id: string)
    ensures Single(store, id).hotel == ApiController.FindById(store, id).body
    ensures Single(store, id).name == NOT_FOUND_VIEW <==> ApiController.FindById(store, id).status == ApiController.NOT_FOUND
  {
  }

  /** GET /web/new: the form for a logged-in user, the login page for anyone else. */
  function CreateNew(session: Session): (view: string)
    ensures view == NEW_VIEW <==> session.Some?
    ensures session.None? ==> view == LOGIN_REDIRECT
  {
    if session.Some? then NEW_VIEW else LOGIN_REDIRECT
  }

  /**
   * POST /web/new: a logged-in user's hotel is saved like the API's create
   * and the index is shown; without a session nothing is saved.
   */
  function Create(store: HotelStore.Store, session: Session, hotel: Hotel, generated: string): (p: Posted)
    ensures session.None? ==> p == Posted(store, LOGIN_REDIRECT_AFTER_POST)
    ensures session.Some? ==> p.view == INDEX_REDIRECT
    ensures session.Some? ==>
              && HotelStore.IdFor(hotel, generated) in p.store
              && p.store[HotelStore.IdFor(hotel, generated)] == HotelStore.Saved(hotel, generated)
              && forall k :: k != HotelStore.IdFor(hotel, generated) ==>
                   (k in p.store <==> k in store) && (k in store ==> p.store[k] == store[k])
  {
    if session.Some? then Posted(HotelStore.Save(store, hotel, generated), INDEX_REDIRECT)
    else Posted(store, LOGIN_REDIRECT_AFTER_POST)
  }

  /** A logged-in web create leaves the store as the API create does. */
  lemma CreateAgreesWithApi(store: HotelStore.Store, user: User, hotel: Hotel, generated: string)
    ensures Create(store, Some(user), hotel, generated).store == ApiController.Create(store, hotel, generated).store
  {
  }

  /**
   * GET /web/hoteles/provincia/{provinces}/modalidad/{modalities}/estrellas:
   * the province's hotels whose modalities contain `modalities`, ranked. It
   * repeats the API pipeline, and gives the same list.
   */
  function HotelesFiltrados(hoteles: seq<Hotel>, modalities: string): (r: seq<Hotel>)
    requires forall h :: h in hoteles && Satisfies(h, ModalityContains(modalities)) ==> Rankable(h)
    ensures r == ApiController.PorModalidadOrdenados(hoteles, modalities)
  {
    var c := ModalityContains(modalities);
    OneCriterion(hoteles, c);
    ChainIsSelection(hoteles, [c]);
    var hotelesFiltrados := Chain(hoteles, [c]);
    Ranked(hotelesFiltrados)
  }

  /** GET /web/hoteles/lujo: the luxury hotels, the same list as the API's luxury endpoint. */
  function HotelesDeLujo(hoteles: seq<Hotel>): (r: seq<Hotel>)
    ensures EvaluableAllOn([Luxury], hoteles)
    ensures IsSelectionOf(r, hoteles, [Luxury])
    ensures r == ApiController.DeLujo(hoteles)
  {
    OneCriterion(hoteles, Luxury);
    ChainIsSelection(hoteles, [Luxury]);
    Chain(hoteles, [Luxury])
  }

  function ProvinceOf(h: Hotel): (p: Option<string>)
  {
    h.provinces
  }

  /**
   * GET /web/hoteles/provincias: every province some hotel has (a null one
   * included), once each.
   */
  function Provincias(hoteles: seq<Hotel>): (r: seq<Option<string>>)
    ensures NoDuplicates(r)
    ensures forall p :: p in r <==> exists h :: h in hoteles && h.provinces == p
  {
    var provinces := Map(ProvinceOf, hoteles);
    var r := Distinct(provinces);
    assert forall p :: p in r ==> exists h :: h in hoteles && h.provinces == p by {
      forall p | p in r
        ensures exists h :: h in hoteles && h.provinces == p
      {
        var i :| 0 <= i < |r| && r[i] == p;
        var j :| 0 <= j < |provinces| && provinces[j] == p;
        assert hoteles[j] in hoteles;
      }
    }
    assert forall h :: h in hoteles ==> h.provinces in r by {
      forall h | h in hoteles
        ensures h.provinces in r
      {
        var j :| 0 <= j < |hoteles| && hoteles[j] == h;
        assert provinces[j] == h.provinces;
      }
    }
    r
  }

  /** The provinces are listed in the order in which they first occur among the hotels. */
  lemma ProvinciasInFirstOccurrenceOrder(hoteles: seq<Hotel>)
    ensures var ps := Map(ProvinceOf, hoteles);
            forall i, j :: 0 <= i < j < |Provincias(hoteles)| ==>
              Provincias(hoteles)[i] in ps && Provincias(hoteles)[j] in ps &&
              FirstIndex(ps, Provincias(hoteles)[i]) < FirstIndex(ps, Provincias(hoteles)[j])
  {
    assert Provincias(hoteles) == Distinct(Map(ProvinceOf, hoteles));
    DistinctKeepsFirstOccurrenceOrder(Map(ProvinceOf, hoteles));
  }

  /** A modalities value the picker offers: present and not blank once trimmed. */
  predicate Offered(modalities: Option<string>)
  {
    modalities.Some? && Trim(modalities.value) != ""
  }

  /** `.map(Hotel::getModalities).filter(Offered)`: the offered values, in hotel order. */
  function OfferedModalities(hoteles: seq<Hotel>): (ms: seq<string>)
    ensures forall m :: m in ms ==> exists h :: h in hoteles && h.modalities == Some(m) && Offered(h.modalities)
    ensures forall h :: h in hoteles && Offered(h.modalities) ==> h.modalities.value in ms
    decreases |hoteles|
  {
    if |hoteles| == 0 then []
    else
      var rest := OfferedModalities(hoteles[1..]);
      assert forall h :: h in hoteles[1..] ==> h in hoteles;
      assert hoteles[0] in hoteles;
      assert forall h :: h in hoteles ==> h == hoteles[0] || h in hoteles[1..];
      if Offered(hoteles[0].modalities) then [hoteles[0].modalities.value] + rest else rest
  }

  function ModalitiesOf(h: Hotel): (m: Option<string>)
  {
    h.modalities
  }

  function Present(m: string): (o: Option<string>)
  {
    Some(m)
  }

  /** One step of the collection: the first hotel's value, if offered, then the rest. */
  lemma OfferedModalitiesStep(hoteles: seq<Hotel>)
    requires |hoteles| > 0
    ensures Offered(hoteles[0].modalities) ==>
              OfferedModalities(hoteles) == [hoteles[0].modalities.value] + OfferedModalities(hoteles[1..])
    ensures !Offered(hoteles[0].modalities) ==> OfferedModalities(hoteles) == OfferedModalities(hoteles[1..])
    ensures Map(ModalitiesOf, hoteles) == [hoteles[0].modalities] + Map(ModalitiesOf, hoteles[1..])
  {
    assert Map(ModalitiesOf, hoteles)[1..] == Map(ModalitiesOf, hoteles[1..]);
  }

  /** Every collected value is one the picker offers. */
  lemma OfferedModalitiesAreOffered(hoteles: seq<Hotel>, m: string)
    requires m in OfferedModalities(hoteles)
    ensures Offered(Some(m))
  {
    var h :| h in hoteles && h.modalities == Some(m) && Offered(h.modalities);
  }

  /**
   * The offered values keep the hotels' order: read as present values they
   * are a subsequence of the hotels' modalities.
   */
  lemma {:induction false} OfferedModalitiesInHotelOrder(hoteles: seq<Hotel>)
    ensures SubsequenceOf(Map(Present, OfferedModalities(hoteles)), Map(ModalitiesOf, hoteles))
    decreases |hoteles|
  {
    if |hoteles| > 0 {
      var h := hoteles[0];
      var rest := OfferedModalities(hoteles[1..]);
      var mods := Map(ModalitiesOf, hoteles);
      OfferedModalitiesStep(hoteles);
      OfferedModalitiesInHotelOrder(hoteles[1..]);
      assert mods[1..] == Map(ModalitiesOf, hoteles[1..]);
      if Offered(h.modalities) {
        assert Map(Present, OfferedModalities(hoteles)) == [h.modalities] + Map(Present, rest);
      } else if |rest| > 0 {
        OfferedModalitiesAreOffered(hoteles[1..], rest[0]);
        assert Map(Present, rest)[0] != mods[0];
      }
    } else {
      assert OfferedModalities(hoteles) == [];
    }
  }

  /** Each offered value is collected exactly as often as hotels carry it. */
  lemma {:induction false} OfferedModalitiesCounts(hoteles: seq<Hotel>, m: string)
    ensures multiset(OfferedModalities(hoteles))[m] ==
            if Offered(Some(m)) then multiset(Map(ModalitiesOf, hoteles))[Some(m)] else 0
    decreases |hoteles|
  {
    if |hoteles| > 0 {
      var h := hoteles[0];
      var rest := OfferedModalities(hoteles[1..]);
      OfferedModalitiesStep(hoteles);
      OfferedModalitiesCounts(hoteles[1..], m);
      assert multiset(Map(ModalitiesOf, hoteles)) == multiset{h.modalities} + multiset(Map(ModalitiesOf, hoteles[1..]));
      if Offered(h.modalities) {
        assert multiset(OfferedModalities(hoteles)) == multiset{h.modalities.value} + multiset(rest);
      }
    } else {
      assert OfferedModalities(hoteles) == [];
    }
  }

  /**
   * Between two distinct offered values, the one offered first is the one a
   * hotel carries first.
   */
  lemma {:induction false} OfferedFirstOccurrencesAgree(hoteles: seq<Hotel>, a: string, b: string)
    requires a in OfferedModalities(hoteles) && b in OfferedModalities(hoteles) && a != b
    ensures Some(a) in Map(ModalitiesOf, hoteles) && Some(b) in Map(ModalitiesOf, hoteles)
    ensures FirstIndex(OfferedModalities(hoteles), a) < FirstIndex(OfferedModalities(hoteles), b) <==>
            FirstIndex(Map(ModalitiesOf, hoteles), Some(a)) < FirstIndex(Map(ModalitiesOf, hoteles), Some(b))
    decreases |hoteles|
  {
    var h := hoteles[0];
    if h.modalities == Some(a) || h.modalities == Some(b) {
      OfferedFirstOccurrencesAtHead(hoteles, a, b);
    } else {
      var ms := OfferedModalities(hoteles);
      var mods := Map(ModalitiesOf, hoteles);
      var rest := OfferedModalities(hoteles[1..]);
      OfferedModalitiesStep(hoteles);
      CarriedIsListed(hoteles, a);
      CarriedIsListed(hoteles, b);
      assert a in rest && b in rest;
      if Offered(h.modalities) {
        assert ms[1..] == rest;
        FirstIndexPastHead(ms, a, b);
      } else {
        assert ms == rest;
      }
      assert mods[1..] == Map(ModalitiesOf, hoteles[1..]);
      OfferedFirstOccurrencesAgree(hoteles[1..], a, b);
      FirstIndexPastHead(mods, Some(a), Some(b));
    }
  }

  /** The base case: the first hotel carries one of the two values, which both lists then start with. */
  lemma OfferedFirstOccurrencesAtHead(hoteles: seq<Hotel>, a: string, b: string)
    requires a in OfferedModalities(hoteles) && b in OfferedModalities(hoteles) && a != b
    requires hoteles[0].modalities == Some(a) || hoteles[0].modalities == Some(b)
    ensures Some(a) in Map(ModalitiesOf, hoteles) && Some(b) in Map(ModalitiesOf, hoteles)
    ensures FirstIndex(OfferedModalities(hoteles), a) < FirstIndex(OfferedModalities(hoteles), b) <==>
            hoteles[0].modalities == Some(a)
    ensures FirstIndex(Map(ModalitiesOf, hoteles), Some(a)) < FirstIndex(Map(ModalitiesOf, hoteles), Some(b)) <==>
            hoteles[0].modalities == Some(a)
  {
    var ms := OfferedModalities(hoteles);
    var mods := Map(ModalitiesOf, hoteles);
    OfferedModalitiesStep(hoteles);
    OfferedModalitiesAreOffered(hoteles, a);
    OfferedModalitiesAreOffered(hoteles, b);
    CarriedIsListed(hoteles, a);
    CarriedIsListed(hoteles, b);
    if hoteles[0].modalities == Some(a) {
      assert ms[0] == a && mods[0] == Some(a);
    } else {
      assert ms[0] == b && mods[0] == Some(b);
    }
  }

  /** A collected value is some hotel's modalities. */
  lemma CarriedIsListed(hoteles: seq<Hotel>, m: string)
    requires m in OfferedModalities(hoteles)
    ensures Some(m) in Map(ModalitiesOf, hoteles)
  {
    var g :| g in hoteles && g.modalities == Some(m) && Offered(g.modalities);
    var k :| 0 <= k < |hoteles| && hoteles[k] == g;
    assert Map(ModalitiesOf, hoteles)[k] == Some(m);
  }

  /**
   * GET /web/hoteles/provincia/{provinces}/modalidades: the distinct
   * non-blank modalities of the province's hotels.
   */
  function Modalidades(hoteles: seq<Hotel>): (r: seq<string>)
    ensures NoDuplicates(r)
    ensures forall m :: m in r ==> exists i :: 0 <= i < |m| && m[i] > ' '
    ensures forall m :: m in r ==> exists h :: h in hoteles && h.modalities == Some(m)
    ensures forall h :: h in hoteles && h.modalities.Some? && Trim(h.modalities.value) != "" ==> h.modalities.value in r
  {
    var ms := OfferedModalities(hoteles);
    DistinctHasSameElements(ms);
    forall m | m in ms
      ensures exists i :: 0 <= i < |m| && m[i] > ' '
    {
      OfferedModalitiesAreOffered(hoteles, m);
      TrimIsEmptyIff(m);
    }
    Distinct(ms)
  }

  /** The modalities are listed in the order in which a hotel first carries them. */
  lemma ModalidadesInFirstOccurrenceOrder(hoteles: seq<Hotel>)
    ensures var mods := Map(ModalitiesOf, hoteles);
            forall i, j :: 0 <= i < j < |Modalidades(hoteles)| ==>
              Some(Modalidades(hoteles)[i]) in mods && Some(Modalidades(hoteles)[j]) in mods &&
              FirstIndex(mods, Some(Modalidades(hoteles)[i])) < FirstIndex(mods, Some(Modalidades(hoteles)[j]))
  {
    var ms := OfferedModalities(hoteles);
    var r := Modalidades(hoteles);
    assert r == Distinct(ms);
    DistinctKeepsFirstOccurrenceOrder(ms);
    forall i, j | 0 <= i < j < |r|
      ensures Some(r[i]) in Map(ModalitiesOf, hoteles) && Some(r[j]) in Map(ModalitiesOf, hoteles)
      ensures FirstIndex(Map(ModalitiesOf, hoteles), Some(r[i])) < FirstIndex(Map(ModalitiesOf, hoteles), Some(r[j]))
    {
      assert r[i] != r[j];
      OfferedFirstOccurrencesAgree(hoteles, r[i], r[j]);
    }
  }
}
