/**
 * The two documents of the application. Only the fields the controllers read
 * are kept; every field is a nullable Java String, so each is an Option.
 */
module Hotels {
  import opened Wrappers

  /** A document of the "hoteles" collection. */
  datatype Hotel = Hotel(
    id: Option<string>,
    categories: Option<string>,
    modalities: Option<string>,
    provinces: Option<string>)

  /** A document of the "users" collection; its token is pre-provisioned. */
  datatype User = User(
    id: Option<string>,
    user: Option<string>,
    email: Option<string>,
    token: Option<string>)
}
