/**
 * The rows of the two tables, the session user and the JSON responses the
 * controllers send.
 */
module Schema {
  import opened Text

  /** A row of `users`; `password` holds the bcrypt hash, as the column does. */
  datatype UserRow = UserRow(name: string, userId: string, password: string)

  /** A row of `blogs`; `dateCreated` is the creation time as a number. */
  datatype PostRow = PostRow(
    blogId: int,
    creatorUserId: string,
    creatorName: string,
    title: string,
    body: string,
    dateCreated: int)

  /** `req.session.user`. */
  datatype SessionUser = SessionUser(id: string, name: string)

  /** The data a response carries besides its status and message. */
  datatype Payload =
    | NoPayload
    | OnePost(post: PostRow)
    | PostList(posts: seq<PostRow>)
    | LoggedIn(user: SessionUser)
    | NewUserId(userId: string)
    | SessionInfo(authenticated: bool, current: Option<SessionUser>)

  /**
   * A JSON response. `errors` is non-empty only on a failed validation.
   * `authorized` is false only on the ownership refusal, the one response
   * that sends the field; `true` stands for the field being absent. The
   * session report sends no `success` field; there `true` stands for its
   * absence as well.
   */
  datatype Response = Response(
    status: nat,
    success: bool,
    message: string,
    errors: seq<string>,
    authorized: bool,
    payload: Payload)

  function Success(status: nat, message: string, payload: Payload): Response {
    Response(status, true, message, [], true, payload)
  }

  function Failure(status: nat, message: string): Response {
    Response(status, false, message, [], true, NoPayload)
  }

  /** 401 from the `isAuthenticated` gate. */
  function Unauthorized(): Response {
    Failure(401, "Unauthorized")
  }

  /** 400 carrying the validation errors of a post. */
  function Invalid(errors: seq<string>): Response {
    Response(400, false, "", errors, true, NoPayload)
  }

  /** 403 from the ownership check, flagged so the client can tell it apart. */
  function Forbidden(): Response {
    Response(403, false, "Unauthorized", [], false, NoPayload)
  }

  /** The one 401 `login` sends for an unknown user and for a wrong password. */
  function InvalidCredentials(): Response {
    Failure(401, "Invalid credentials")
  }
}
