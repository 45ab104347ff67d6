/**
 * The token guard of the write endpoints: a request is valid when the token
 * belongs to some user of the "users" collection.
 */
module SecurityService {
  import opened Wrappers
  import opened Hotels

  /** UserRepository.existsByToken over the users collection, scanned in order. */
  function ExistsByToken(users: seq<User>, token: string): (found: bool)
    ensures found <==> exists i :: 0 <= i < |users| && users[i].token == Some(token)
    decreases |users|
  {
    if |users| == 0 then false
    else users[0].token == Some(token) || ExistsByToken(users[1..], token)
  }

  /** SecurityService.requestValidation. */
  function RequestValidation(users: seq<User>, token: string): (valid: bool)
    ensures valid <==> exists u :: u in users && u.token == Some(token)
  {
    ExistsByToken(users, token)
  }

  /** Adding a user never invalidates a token that was valid before. */
  lemma ValidationIsMonotone(users: seq<User>, u: User, token: string)
    ensures RequestValidation(users, token) ==> RequestValidation(users + [u], token)
    ensures RequestValidation(users + [u], token) <==> RequestValidation(users, token) || u.token == Some(token)
  {
    assert forall v :: v in users + [u] <==> v in users || v == u;
  }
}
