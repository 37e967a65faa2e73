/**
 * What a client of the server can conclude across several requests from the
 * handlers' contracts alone.
 */
module Scenarios {
  import opened Text
  import opened Schema
  import opened Password
  import opened Posts
  import opened Accounts
  import opened Server

  /**
   * After a user changes their user_id, the ownership check refuses their
   * own earlier posts, because those still carry the old creator_user_id.
   */
  method RenameLocksOutOwnPosts(s: BlogServer, newId: Field, postId: int, title: Field, body: Field)
    returns (renamed: Response, edited: Response, deleted: Response)
    requires s.Valid() && IsAuthenticated(s.session)
    requires postId in s.posts && s.posts[postId].creatorUserId == s.session.value.id
    requires Truthy(newId) && Trim(newId.value) != s.session.value.id
    requires ValidatePost(title, body) == []
    modifies s
    ensures renamed.status == 200 ==> edited == Forbidden() && deleted == Forbidden()
    ensures renamed.status == 200 ==> s.posts == old(s.posts)
  {
    renamed := s.UpdateAccount(newId, None);
    edited := s.UpdatePost(Some(postId), title, body);
    deleted := s.DeletePost(Some(postId));
  }

  /** After a logout every gated request is refused with 401 and changes nothing. */
  method LogoutClosesGatedRoutes(
    s: BlogServer, title: Field, body: Field, now: int, id: Option<int>, creator: string, newId: Field)
    returns (listed: Response, byUser: Response, read: Response, created: Response,
             edited: Response, deleted: Response, account: Response)
    requires s.Valid()
    modifies s
    ensures listed == Unauthorized() && byUser == Unauthorized() && read == Unauthorized()
    ensures created == Unauthorized() && edited == Unauthorized() && deleted == Unauthorized()
    ensures account == Unauthorized()
    ensures s.posts == old(s.posts) && s.users == old(s.users) && s.session == None
  {
    var out := s.Logout();
    listed := s.GetAllPosts();
    byUser := s.GetPostsByUser(creator);
    read := s.GetPostById(id);
    created := s.CreatePost(title, body, now);
    edited := s.UpdatePost(id, title, body);
    deleted := s.DeletePost(id);
    account := s.UpdateAccount(newId, None);
  }

  /** A second signup with a taken user_id is a conflict, whatever its name and password. */
  method DuplicateSignupConflicts(
    s: BlogServer, name: Field, userId: Field, password: Field, otherName: Field, otherPassword: Field)
    returns (first: Response, second: Response)
    requires s.Valid()
    requires Truthy(name) && Truthy(userId) && Truthy(password)
    requires Truthy(otherName) && Truthy(otherPassword)
    modifies s
    ensures second == Failure(409, USER_ID_TAKEN)
  {
    first := s.Signup(name, userId, password);
    second := s.Signup(otherName, userId, otherPassword);
  }

  /**
   * A post's life as its creator sees it: what was created is what is read
   * back, an edit replaces only title and body, and after the delete the id
   * is not found.
   */
  method PostLifecycle(s: BlogServer, title: Field, body: Field, newTitle: Field, newBody: Field, now: int)
    returns (created: Response, read: Response, edited: Response, reread: Response,
             deleted: Response, gone: Response)
    requires s.Valid() && IsAuthenticated(s.session)
    requires ValidatePost(title, body) == [] && ValidatePost(newTitle, newBody) == []
    modifies s
    ensures created.status == 201 && created.payload.OnePost?
    ensures read.status == 200 && read.payload == created.payload
    ensures edited.status == 200 && reread.payload == edited.payload
    ensures reread.payload.OnePost? && reread.payload.post == created.payload.post.(title := Trim(newTitle.value), body := Trim(newBody.value))
    ensures deleted == Success(200, POST_DELETED, NoPayload)
    ensures gone == Failure(404, POST_NOT_FOUND)
    ensures s.posts == old(s.posts)
  {
    created := s.CreatePost(title, body, now);
    var id := created.payload.post.blogId;
    read := s.GetPostById(Some(id));
    edited := s.UpdatePost(Some(id), newTitle, newBody);
    reread := s.GetPostById(Some(id));
    deleted := s.DeletePost(Some(id));
    gone := s.GetPostById(Some(id));
  }

  /** A form value the trim leaves as it is and that is not empty. */
  predicate Plain(s: string) {
    s != [] && IsTrimmed(s)
  }

  /**
   * On a fresh server the first user signs up, is refused with a wrong
   * password, logs in and writes a post; a second user who signs up and logs
   * in afterwards may not edit that post.
   */
  method TwoUsers(
    aliceName: string, aliceId: string, alicePassword: string, wrongPassword: string,
    bobName: string, bobId: string, bobPassword: string, title: string, body: string, now: int)
    returns (signedUp: Response, wrongLogin: Response, loggedIn: Response, created: Response,
             bobLoggedIn: Response, bobEdit: Response)
    requires Plain(aliceName) && Plain(aliceId) && Plain(alicePassword) && Plain(wrongPassword)
    requires Plain(bobName) && Plain(bobId) && Plain(bobPassword)
    requires Key(wrongPassword) != Key(alicePassword) && bobId != aliceId
    requires Plain(title) && |title| <= TITLE_MAX && Plain(body) && |body| <= BODY_MAX
    ensures signedUp == Success(201, USER_CREATED, NewUserId(aliceId))
    ensures wrongLogin == InvalidCredentials()
    ensures loggedIn == Success(200, LOGIN_OK, LoggedIn(SessionUser(aliceId, aliceName)))
    ensures created.status == 201 && created.payload.OnePost?
    ensures created.payload.post.creatorUserId == aliceId && created.payload.post.title == title
    ensures bobLoggedIn == Success(200, LOGIN_OK, LoggedIn(SessionUser(bobId, bobName)))
    ensures bobEdit == Forbidden() && !bobEdit.authorized
  {
    var s := new BlogServer();
    signedUp, wrongLogin, loggedIn := Joins(s, aliceName, aliceId, alicePassword, wrongPassword);
    created := Writes(s, title, body, now);
    bobLoggedIn, bobEdit := EditsOthersPost(s, bobName, bobId, bobPassword, created.payload.post.blogId, title, body);
  }

  /** A new user signs up, is refused with a wrong password, then logs in. */
  method Joins(s: BlogServer, name: string, id: string, password: string, wrongPassword: string)
    returns (signedUp: Response, wrongLogin: Response, loggedIn: Response)
    requires s.Valid() && id !in s.users
    requires Plain(name) && Plain(id) && Plain(password) && Plain(wrongPassword)
    requires Key(wrongPassword) != Key(password)
    modifies s
    ensures s.Valid() && s.posts == old(s.posts) && s.nextBlogId == old(s.nextBlogId)
    ensures s.users == old(s.users)[id := UserRow(name, id, Hash(password))]
    ensures s.session == Some(SessionUser(id, name))
    ensures signedUp == Success(201, USER_CREATED, NewUserId(id))
    ensures wrongLogin == InvalidCredentials()
    ensures loggedIn == Success(200, LOGIN_OK, LoggedIn(SessionUser(id, name)))
  {
    TrimFixedPoint(id);
    TrimFixedPoint(name);
    TrimFixedPoint(password);
    TrimFixedPoint(wrongPassword);
    signedUp := s.Signup(Some(name), Some(id), Some(password));
    CompareHash(wrongPassword, password);
    wrongLogin := s.Login(Some(id), Some(wrongPassword));
    CompareHash(password, password);
    loggedIn := s.Login(Some(id), Some(password));
  }

  /** The logged-in user writes a post; it is stored under the session's user_id. */
  method Writes(s: BlogServer, title: string, body: string, now: int) returns (created: Response)
    requires s.Valid() && IsAuthenticated(s.session)
    requires Plain(title) && |title| <= TITLE_MAX && Plain(body) && |body| <= BODY_MAX
    modifies s
    ensures s.Valid() && s.users == old(s.users)
    ensures created.status == 201 && created.payload.OnePost?
    ensures created.payload.post.creatorUserId == old(s.session).value.id
    ensures created.payload.post.title == title
    ensures created.payload.post.blogId in s.posts
    ensures s.posts[created.payload.post.blogId] == created.payload.post
  {
    TrimFixedPoint(title);
    TrimFixedPoint(body);
    created := s.CreatePost(Some(title), Some(body), now);
  }

  /** A user who signs up and logs in may not edit a post someone else wrote. */
  method EditsOthersPost(
    s: BlogServer, name: string, id: string, password: string, postId: int, title: string, body: string)
    returns (loggedIn: Response, edited: Response)
    requires s.Valid() && id !in s.users
    requires Plain(name) && Plain(id) && Plain(password)
    requires postId in s.posts && s.posts[postId].creatorUserId != id
    requires Plain(title) && |title| <= TITLE_MAX && Plain(body) && |body| <= BODY_MAX
    modifies s
    ensures loggedIn == Success(200, LOGIN_OK, LoggedIn(SessionUser(id, name)))
    ensures edited == Forbidden()
    ensures s.posts == old(s.posts)
  {
    TrimFixedPoint(id);
    TrimFixedPoint(name);
    TrimFixedPoint(password);
    var signedUp := s.Signup(Some(name), Some(id), Some(password));
    CompareHash(password, password);
    loggedIn := s.Login(Some(id), Some(password));
    TrimFixedPoint(title);
    TrimFixedPoint(body);
    edited := s.UpdatePost(Some(postId), Some(title), Some(body));
  }
}
