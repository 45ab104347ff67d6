# HotelesApi core in Dafny

A model of the logic in the HotelesApi Spring application, covering its REST controller (`/api`) and its HTML controller (`/web`):

- **The category mini-parser.**
  - `extraerNumero` reads a star count from the free-text `categories` field of a hotel. It returns 0 for a null or empty text. Otherwise it returns the first part of `split(" ")`, parsed with `Integer.parseInt`, or -1 when that part is not an `int`.
  - `esGranLujo` is the luxury flag: a case-insensitive search for "lujo".
  - Both controllers carry identical copies of these two methods (ApiController.java:88-109 and WebController.java:133-154). The model defines them once, in module `Category`, and both controller modules use that one definition.
- **The ranking.**
  - The comparator inlined in every "ordenados por estrellas" endpoint puts luxury first, then more stars first.
  - `Stream.sorted` with that comparator is a stable sort. The model uses an insertion sort keyed by the rank `(luxury, stars)` and proves that any stable sorted output equals it.
- **The filters.**
  - `Stream.filter` by star count, by luxury, and by modality substring, alone or chained.
  - `Stream.distinct` for the province and modality pickers.
- **The hotel store as a map from id to hotel.**
  - `findById`, and `create` as an upsert.
  - `delete`, guarded by the token check of `SecurityService.requestValidation`.
  - The session-gated web `create` and `createNew`, and the `single` detail page.

Modules, bottom-up:

| module | file | role |
|---|---|---|
| `Wrappers` | wrappers.dfy | `Option`, for Java's nullable references |
| `JavaString` | java_string.dfy | `toLowerCase` (ASCII), `contains`, `trim`, `split` with a one-character pattern |
| `JavaInteger` | java_integer.dfy | `Integer.parseInt` (32-bit range, optional sign) and `Integer.toString` |
| `Hotels` | hotels.dfy | the `Hotel` and `User` documents (only the fields the controllers read) |
| `Category` | category.dfy | `esGranLujo`, `extraerNumero` |
| `Sequences` | sequences.dfy | generic `filter`, `map`, `distinct` |
| `StableSort` | stable_sort.dfy | generic stable insertion sort by a rank key |
| `Ranking` | ranking.dfy | the comparator and `Stream.sorted` with it |
| `Filters` | filters.dfy | the filter criteria of the endpoints, and chains of them |
| `HotelStore` | store.dfy | the `hoteles` collection as a map |
| `SecurityService` | security.dfy | token validation |
| `ApiController` | api_controller.dfy | the `/api` endpoints |
| `WebController` | web_controller.dfy | the `/web` pages |

Modelling conventions:

- Repository query results (`findAll`, `findHotelesByProvinces`, `findHotelesByModalities`) are inputs of type `seq<Hotel>`. Endpoints that differ only in which query feeds them share one function. For example, `ApiController.OrdenadosPorEstrellas` is the body of the three "ordered by stars" endpoints.
- An uncaught exception is modelled as a precondition. Two cases arise:
  - a category made only of spaces makes `partes[0]` fail (`Category.HasFirstPart`);
  - a null modalities field reaches an unguarded `contains` call.
- The id MongoDB generates when a hotel without `_id` is saved is a parameter, `generated`.

Three details of the code that are easy to misread:

- The code splits the category on a single space character, not on any whitespace. So `"4\testrellas"` has first part `"4\testrellas"`, which reads as -1.
- A category made only of spaces does not read as -1. `split(" ")` returns an empty array, so `partes[0]` throws an index-out-of-bounds exception. That read sits inside the `try` (ApiController.java:104-105), but the `catch` handles only `NumberFormatException`, so the exception escapes. A category of other blank characters, such as a tab alone, has a first part and reads as -1 (`Category.ExtraerNumeroOfTab`).
- The filters at ApiController.java:199 and 252 call `contains` on the modalities field without a null check, unlike the other modality filters.

## Model

| member | source | states |
|---|---|---|
| JavaString.ToLowerCase | src/main/java/org/example/hotelesapi/ApiController.java:90 | the lower-cased text has the same length, and each character is the ASCII lower case of the original one |
| JavaString.ContainsIffOccurs | src/main/java/org/example/hotelesapi/ApiController.java:90 | `contains` holds exactly when the keyword occurs at some position of the text |
| JavaString.ContainsLowerIffOccursIgnoringCase | src/main/java/org/example/hotelesapi/ApiController.java:90 | lower-casing and then calling `contains` with a lower-case keyword is a case-insensitive search for it |
| JavaString.TrimIsEmptyIff | src/main/java/org/example/hotelesapi/WebController.java:187 | `trim().isEmpty()` holds exactly when every character is at most a space |
| JavaString.IndexOfChar | src/main/java/org/example/hotelesapi/ApiController.java:103 | the result is the first position holding the separator, or the length when there is none |
| JavaString.SplitAllJoin | src/main/java/org/example/hotelesapi/ApiController.java:103 | the pieces between separators, joined again with the separator, give the text back, and no piece contains the separator |
| JavaString.SplitHead | src/main/java/org/example/hotelesapi/ApiController.java:103-105 | whenever `split` yields a first part, that part is the text before the first separator |
| JavaString.SplitAllEmptyPieces | src/main/java/org/example/hotelesapi/ApiController.java:103 | every piece is empty exactly when the text consists of separators alone |
| JavaString.SplitEmptyIff | src/main/java/org/example/hotelesapi/ApiController.java:103-105 | `split` yields an empty array exactly when the text is non-empty and made of separators only; the empty text yields one part |
| JavaInteger.ParseIntToString | src/main/java/org/example/hotelesapi/ApiController.java:105-107 | parsing a printed integer gives it back when it is within the 32-bit `int` range, and fails (NumberFormatException) when it is outside |
| JavaInteger.DecimalValueLeadingZero | src/main/java/org/example/hotelesapi/ApiController.java:105 | leading zeros do not change the parsed value ("007" is 7) |
| JavaInteger.DecimalValueOfNatToString | src/main/java/org/example/hotelesapi/ApiController.java:105 | the digits printed for a natural number evaluate back to it |
| JavaInteger.IntToStringHasNoSpace | src/main/java/org/example/hotelesapi/ApiController.java:103 | a printed number has no space, so it is never cut by the split |
| Category.EsGranLujoIgnoresCase | src/main/java/org/example/hotelesapi/ApiController.java:88-91 | the luxury flag is false for a null category; otherwise it holds iff "lujo" occurs at some position, ignoring case |
| Category.LuxuryNeedsLetterU | src/main/java/org/example/hotelesapi/ApiController.java:90 | a text without 'u' or 'U' is never luxury |
| Category.EsGranLujoOfGranLujo | src/main/java/org/example/hotelesapi/ApiController.java:88-91 | "Gran Lujo" is luxury |
| Category.EsGranLujoOfUpperCase | src/main/java/org/example/hotelesapi/ApiController.java:88-91 | "GRAN LUJO" is luxury |
| Category.EsGranLujoOfCuatroEstrellas | src/main/java/org/example/hotelesapi/ApiController.java:88-91 | "4 estrellas" is not luxury |
| Category.ExtraerNumeroReadsFirstWord | src/main/java/org/example/hotelesapi/ApiController.java:99-109 | the star count is 0 for a null or empty category; otherwise it is the text before the first space parsed as an `int`, or -1 when that does not parse |
| Category.ExtraerNumeroOfLeadingNumber | src/main/java/org/example/hotelesapi/ApiController.java:103-108 | a category that is a printed number, or a printed number followed by a space and anything, gives that number if it fits in an `int` and -1 if it does not |
| Category.ExtraerNumeroOfLeadingSpace | src/main/java/org/example/hotelesapi/ApiController.java:103-108 | a category that starts with a space has an empty first part and gives -1 |
| Category.ExtraerNumeroOfWordStart | src/main/java/org/example/hotelesapi/ApiController.java:105-108 | a category whose first character is not a space, a sign or a digit gives -1 |
| Category.UnparseableCollidesWithMinusOne | src/main/java/org/example/hotelesapi/ApiController.java:105-108 | the category "-1" gives the same value as an unparseable one |
| Category.ExtraerNumeroOfCuatroEstrellas | src/main/java/org/example/hotelesapi/ApiController.java:99-109 | "4 estrellas" has 4 stars |
| Category.ExtraerNumeroOfCincoEstrellas | src/main/java/org/example/hotelesapi/ApiController.java:99-109 | "cinco estrellas" gives -1 |
| Category.ExtraerNumeroOfTab | src/main/java/org/example/hotelesapi/ApiController.java:99-109 | a category of one tab splits into a first part, which gives -1 |
| Sequences.Filter | src/main/java/org/example/hotelesapi/ApiController.java:120-122 | the filtered list is no longer than the input, and every element of it is an input element that passes the predicate |
| Sequences.FilterKeepsExactly | src/main/java/org/example/hotelesapi/ApiController.java:120-122 | an element passing the predicate is kept as often as it occurs in the input, and any other element is dropped |
| Sequences.FilterAppend | src/main/java/org/example/hotelesapi/ApiController.java:120-122 | filtering a concatenation concatenates the filtered parts (order is kept) |
| Sequences.FilterFilter | src/main/java/org/example/hotelesapi/ApiController.java:235-237 | two chained filters equal one filter on "first and then second", even when the second is only defined where the first holds |
| Sequences.FilterKeepsAll | src/main/java/org/example/hotelesapi/ApiController.java:120-122 | a filter every element passes returns the input unchanged |
| Sequences.FilterIsSubsequence | src/main/java/org/example/hotelesapi/ApiController.java:120-122 | the filtered list is a subsequence of the input, so relative order is kept |
| Sequences.Distinct | src/main/java/org/example/hotelesapi/WebController.java:167 | the result has no duplicates, every element of it occurs in the input, and every input element occurs in it |
| Sequences.DistinctKeepsFirstOccurrenceOrder | src/main/java/org/example/hotelesapi/WebController.java:164-168 | the distinct elements come in the order of their first occurrence in the input |
| StableSort.AheadIsStrictOrder | src/main/java/org/example/hotelesapi/ApiController.java:70-78 | "ranks ahead" is irreflexive, asymmetric and transitive, and two ranks neither of which is ahead are equal |
| StableSort.InsertionSort | src/main/java/org/example/hotelesapi/ApiController.java:69-79 | the sorted list is a permutation of the input in which no element ranks ahead of an earlier one |
| StableSort.InsertionSortIsStable | src/main/java/org/example/hotelesapi/ApiController.java:69-79 | for every rank, the elements of that rank appear in the same order as in the input |
| StableSort.SortedByRankClasses | src/main/java/org/example/hotelesapi/ApiController.java:69-79 | two sorted lists whose elements of each rank agree, in order, are the same list |
| StableSort.StableSortIsInsertionSort | src/main/java/org/example/hotelesapi/ApiController.java:69-79 | any sorted output that keeps every rank's elements in input order is the insertion sort's output |
| StableSort.FilterKeepsSorted | src/main/java/org/example/hotelesapi/ApiController.java:283-294 | filtering a sorted list leaves it sorted |
| StableSort.FilterWithRank | src/main/java/org/example/hotelesapi/ApiController.java:283-294 | the elements of one rank in a filtered list are the filtered elements of that rank |
| StableSort.FilterCommutesWithSort | src/main/java/org/example/hotelesapi/ApiController.java:283-294 | filtering the sorted list equals sorting the filtered list |
| Ranking.LuxuryIsRankable | src/main/java/org/example/hotelesapi/ApiController.java:71-76 | a luxury category is never made of spaces alone, so its star count can always be read |
| Ranking.IntegerCompare | src/main/java/org/example/hotelesapi/ApiController.java:77 | `Integer.compare` is negative, zero or positive exactly when the first argument is smaller, equal or larger |
| Ranking.Compare | src/main/java/org/example/hotelesapi/ApiController.java:70-78 | across luxury tiers, the luxury hotel comes first; within a tier, the comparator's sign says which rank is ahead, and zero means equal ranks |
| Ranking.CompareIsComparator | src/main/java/org/example/hotelesapi/ApiController.java:70-78 | the comparator meets the `java.util.Comparator` contract: sign antisymmetry, transitivity, and consistency on ties |
| Ranking.Ranked | src/main/java/org/example/hotelesapi/ApiController.java:69-79 | the sorted list is a ranking of the input: the same hotels, luxury before non-luxury, stars non-increasing within a tier, ties in input order, and no pair the comparator would swap |
| Ranking.RankingIsUnique | src/main/java/org/example/hotelesapi/ApiController.java:69-79 | every list that is a ranking of the input equals the sorted list |
| Filters.Select | src/main/java/org/example/hotelesapi/ApiController.java:120-122 | one filter keeps only input hotels that meet its criterion |
| Filters.ChainIsOneFilter | src/main/java/org/example/hotelesapi/ApiController.java:235-237 | chained filters are one filter on the conjunction of the criteria; each criterion is evaluated only on hotels that passed the earlier ones |
| Filters.ChainIsSelection | src/main/java/org/example/hotelesapi/ApiController.java:235-237 | chained filters return exactly the hotels that meet every criterion, each as often as in the input, in input order |
| Filters.ChainedSelectCommutes | src/main/java/org/example/hotelesapi/ApiController.java:268-269 | two filters that can both be evaluated on every hotel give the same result in either order |
| Filters.ChainCommutesWithRanking | src/main/java/org/example/hotelesapi/ApiController.java:283-294 | filtering the ranked list equals ranking the filtered list |
| HotelStore.Saved | src/main/java/org/example/hotelesapi/ApiController.java:338 | the saved document carries the hotel's own id, or the generated one when the hotel's id is null; its other fields are unchanged |
| HotelStore.FindById | src/main/java/org/example/hotelesapi/ApiController.java:44-45 | the lookup finds a hotel exactly when the id is stored, and then it is the stored hotel |
| HotelStore.Save | src/main/java/org/example/hotelesapi/ApiController.java:338 | after the save, the hotel's id maps to the saved hotel, every other entry is unchanged, and every document is still stored under its own id |
| HotelStore.DeleteById | src/main/java/org/example/hotelesapi/ApiController.java:323 | after the delete the id is absent and every other entry is unchanged; deleting an absent id changes nothing |
| HotelStore.SaveIsIdempotent | src/main/java/org/example/hotelesapi/ApiController.java:338 | saving the same hotel with an id twice equals saving it once |
| HotelStore.SaveWithGeneratedIdAdds | src/main/java/org/example/hotelesapi/ApiController.java:338 | saving a hotel without id under a fresh id adds one document and keeps all others |
| HotelStore.SaveOverExistingReplaces | src/main/java/org/example/hotelesapi/ApiController.java:338 | saving under an id already in use replaces that document, so no duplicate appears |
| HotelStore.DeleteIsIdempotent | src/main/java/org/example/hotelesapi/ApiController.java:323 | deleting twice equals deleting once |
| HotelStore.DeleteUndoesSaveOfNew | src/main/java/org/example/hotelesapi/ApiController.java:323 | deleting a hotel just saved under a new id restores the store |
| SecurityService.ExistsByToken | src/main/java/org/example/hotelesapi/UserRepository.java:7 | the scan finds a user exactly when some user record carries the token |
| SecurityService.RequestValidation | src/main/java/org/example/hotelesapi/SecurityService.java:12-14 | a token is valid exactly when some user carries it |
| SecurityService.ValidationIsMonotone | src/main/java/org/example/hotelesapi/SecurityService.java:12-14 | adding a user keeps every valid token valid, and newly validates exactly the token that user carries |
| ApiController.FindById | src/main/java/org/example/hotelesapi/ApiController.java:42-48 | the response is OK with the stored hotel exactly when the id is stored; otherwise it is NOT_FOUND with no body |
| ApiController.Delete | src/main/java/org/example/hotelesapi/ApiController.java:320-328 | with a token some user carries, the response is OK, the id is absent afterwards and all other entries are unchanged, even if the id was never stored; otherwise the response is UNAUTHORIZED and the store is unchanged; a store whose every hotel sits under its own id stays so |
| ApiController.Create | src/main/java/org/example/hotelesapi/ApiController.java:336-340 | the response is CREATED with the hotel (its id filled in when it had none); the store maps that id to it and keeps every other entry; a store whose every hotel sits under its own id stays so |
| ApiController.CreateThenFindById | src/main/java/org/example/hotelesapi/ApiController.java:336-340 | looking up a just-created hotel's id answers OK with the created hotel |
| ApiController.DeleteThenFindById | src/main/java/org/example/hotelesapi/ApiController.java:320-328 | after an authorised delete the id is NOT_FOUND; after a refused one the lookup is as before |
| ApiController.DeleteIsIdempotent | src/main/java/org/example/hotelesapi/ApiController.java:320-328 | repeating a delete gives the same store and the same response |
| ApiController.OrdenadosPorEstrellas | src/main/java/org/example/hotelesapi/ApiController.java:66-80 | the result is a ranking of the repository list (also the body at lines 146-160 and 209-223) |
| ApiController.PorEstrellas | src/main/java/org/example/hotelesapi/ApiController.java:117-123 | the result holds exactly the hotels whose star count equals the argument, with multiplicity and in repository order (also lines 132-138) |
| ApiController.DeLujo | src/main/java/org/example/hotelesapi/ApiController.java:167-173 | the result holds exactly the luxury hotels, with multiplicity and in repository order (also lines 181-187) |
| ApiController.PorModalidad | src/main/java/org/example/hotelesapi/ApiController.java:195-201 | for hotels that all have modalities, the result holds exactly those whose modalities contain the argument, in repository order (also lines 248-254) |
| ApiController.PorModalidadYEstrellas | src/main/java/org/example/hotelesapi/ApiController.java:232-239 | the result holds exactly the hotels with present, matching modalities and the given star count, in repository order; star counts are read only after the modality filter (also lines 264-271) |
| ApiController.PorModalidadOrdenados | src/main/java/org/example/hotelesapi/ApiController.java:280-295 | the result is a ranking of the hotels with present, matching modalities |
| ApiController.PorModalidadYLujo | src/main/java/org/example/hotelesapi/ApiController.java:304-311 | the result holds exactly the luxury hotels with present, matching modalities, in repository order |
| ApiController.PorModalidadYEstrellasInEitherOrder | src/main/java/org/example/hotelesapi/ApiController.java:264-271 | when every star count can be read, the star filter may come before the modality filter without changing the result |
| ApiController.PorModalidadOrdenadosRanksFirst | src/main/java/org/example/hotelesapi/ApiController.java:280-295 | ranking before filtering gives the same list as the endpoint's filtering before ranking |
| WebController.Single | src/main/java/org/example/hotelesapi/WebController.java:45-54 | the view is "404" with no hotel exactly when the id is absent; otherwise it is "single" with the stored hotel |
| WebController.SingleAgreesWithApi | src/main/java/org/example/hotelesapi/WebController.java:45-54 | the detail page shows the hotel the API lookup returns, and is "404" exactly when the API answers NOT_FOUND |
| WebController.CreateNew | src/main/java/org/example/hotelesapi/WebController.java:62-69 | the view is "new" exactly when a user is in the session; otherwise it is the login redirect |
| WebController.Create | src/main/java/org/example/hotelesapi/WebController.java:78-86 | without a session user the store is unchanged and the answer is "redirect:/login/"; with one, the hotel is upserted and the answer is "redirect:/web/" |
| WebController.CreateAgreesWithApi | src/main/java/org/example/hotelesapi/WebController.java:78-86 | a logged-in web create leaves the store exactly as the API create does |
| WebController.HotelesFiltrados | src/main/java/org/example/hotelesapi/WebController.java:102-117 | the filtered, ranked page lists the same hotels in the same order as the API endpoint at ApiController.java:280-295 |
| WebController.HotelesDeLujo | src/main/java/org/example/hotelesapi/WebController.java:205-208 | the page lists exactly the luxury hotels in repository order, the same list as the API's luxury endpoint |
| WebController.Provincias | src/main/java/org/example/hotelesapi/WebController.java:164-168 | the list has no duplicates and holds exactly the provinces that some hotel has |
| WebController.ProvinciasInFirstOccurrenceOrder | src/main/java/org/example/hotelesapi/WebController.java:164-168 | the provinces come in the order of their first occurrence among the hotels |
| WebController.OfferedModalities | src/main/java/org/example/hotelesapi/WebController.java:186-187 | the mapped and filtered list holds exactly the present, non-blank modalities of the hotels |
| WebController.OfferedModalitiesInHotelOrder | src/main/java/org/example/hotelesapi/WebController.java:186-187 | read as present values, the filtered list is a subsequence of the hotels' modalities in hotel order |
| WebController.OfferedModalitiesCounts | src/main/java/org/example/hotelesapi/WebController.java:186-187 | each present, non-blank value occurs in the filtered list exactly as often as hotels carry it, and any other value never occurs |
| WebController.OfferedFirstOccurrencesAgree | src/main/java/org/example/hotelesapi/WebController.java:186-187 | for two distinct values in the filtered list, the one that comes first there is the one a hotel carries first |
| WebController.Modalidades | src/main/java/org/example/hotelesapi/WebController.java:184-189 | the list has no duplicates; each entry has a character above space and is some hotel's modalities; every hotel's present, non-blank modalities are listed |
| WebController.ModalidadesInFirstOccurrenceOrder | src/main/java/org/example/hotelesapi/WebController.java:184-189 | the modalities come in the order in which a hotel first carries them |

## Left out

- LoginController.java and the login flow. `securityService.login` is called there but is not defined in SecurityService.java, so its meaning cannot be taken from the code. The session is therefore an input, `Option<User>`.
- `index` (WebController.java:26-36), `all` (ApiController.java:31-34) and `findByProvinces` (ApiController.java:56-59). Each returns a repository query's result unchanged or only fills model attributes, so there is no behaviour beyond the query.
- The semantics of the repository's derived queries, and the order `findAll` returns. Query results are inputs.
- How MongoDB generates an id. The generated id is a parameter.
- Concurrent requests. Requests are modelled one at a time, each against one state of the store. `findById` asks the repository twice, `existsById` and then `findById(id).get()` (ApiController.java:44-45); the model treats the pair as one lookup, so a deletion between the two calls is not modelled.
- Model attributes, page titles, templates and HTTP plumbing. A web view is modelled as its name and the hotel it shows.
- Hotel fields other than `_id`, `categories`, `modalities` and `provinces`, which the controllers never read. Of a User, only the token is ever read.
- Locale-dependent `toLowerCase` and the non-ASCII digits `Integer.parseInt` accepts. Only ASCII case mapping and ASCII digits with an optional sign are modelled.
- Exceptions as HTTP 500 responses. Each crashing input is excluded by a precondition instead: a category made only of spaces, or a null modalities field at ApiController.java:199 and 252.
- The sequence of comparisons `Stream.sorted` performs. Only its result is modelled; `Ranking.RankingIsUnique` shows that every stable sort gives that result.
- Ranking.Ranked: requires every hotel's star count to be readable. That is stronger than the code needs, which throws only if the sort happens to compare a hotel with a category made only of spaces against another non-luxury hotel.
- ApiController.OrdenadosPorEstrellas: requires every hotel's star count to be readable, for the reason given for `Ranking.Ranked`.
- ApiController.PorModalidadOrdenados: requires readable star counts for every hotel that passes the modality filter, for the reason given for `Ranking.Ranked`.
- WebController.HotelesFiltrados: requires readable star counts for every hotel that passes the modality filter, for the reason given for `Ranking.Ranked`.
