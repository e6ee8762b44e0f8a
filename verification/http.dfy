/** Request vocabulary shared by the document and account endpoints. */
module Http {

  /** Primary key of a user. */
  type UserId = nat

  datatype Method = GET | HEAD | OPTIONS | POST | PUT | PATCH | DELETE

  /** The framework's SAFE_METHODS: GET, HEAD and OPTIONS. */
  predicate IsSafe(m: Method) {
    m == GET || m == HEAD || m == OPTIONS
  }

  /**
   * Who sends a request, as the authenticator resolved it: no credentials at
   * all, credentials the authenticator rejected, or a bearer token naming a
   * user.
   */
  datatype Principal = Anonymous | BadCredentials | Authenticated(user: UserId)

  /**
   * The check every character field of the serializers runs besides its own:
   * a value holding a NUL character is a validation error on that field.
   */
  predicate NoNullChars(s: string) {
    forall i :: 0 <= i < |s| ==> s[i] != '\0'
  }

  const OK := 200
  const CREATED := 201
  const NO_CONTENT := 204
  const RESET_CONTENT := 205
  const BAD_REQUEST := 400
  const UNAUTHORIZED := 401
  const FORBIDDEN := 403
  const NOT_FOUND := 404
  const SERVER_ERROR := 500
}
