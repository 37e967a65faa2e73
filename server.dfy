/**
 * The request handlers of the post controller and the auth controller over
 * the state they share: the users table, the blogs table, the blog_id
 * sequence and the session user.
 *
 * Every handler on a route behind `isAuthenticated` starts with that gate.
 * Database failures other than those the handlers' own logic provokes are
 * not modelled, so the 500 responses that remain are the two an account
 * update can run into.
 */
module Server {
  import opened Text
  import opened Schema
  import opened Password
  import opened Posts
  import opened Accounts

  class BlogServer {
    /** The users table, keyed by user_id. */
    var users: map<string, UserRow>
    /** The blogs table, keyed by blog_id. */
    var posts: map<int, PostRow>
    /** The next value the blog_id sequence hands out. */
    var nextBlogId: int
    /** `req.session.user`; None while no one is logged in. */
    var session: Option<SessionUser>

    /**
     * Every user is stored under its own user_id; every post under
     * its own blog_id, which the sequence has already handed out, with
     * content that passed validation.
     */
    ghost predicate Valid()
      reads this
    {
      UsersTable(users) && PostsTable(posts, nextBlogId)
    }

    constructor ()
      ensures Valid()
      ensures users == map[] && posts == map[] && nextBlogId == 1 && session == None
    {
      users, posts, nextBlogId, session := map[], map[], 1, None;
    }

    // ---------------------------------------------------------------- posts

    /**
     * `SELECT * FROM blogs [WHERE creator_user_id = $1] ORDER BY date_created DESC`:
     * every matching post once, newest first. The table is scanned in
     * blog_id order; posts with equal dates may come out in either order.
     */
    method SelectNewestFirst(creator: Option<string>) returns (rows: seq<PostRow>)
      requires Valid()
      ensures IsListing(rows, posts, creator)
    {
      rows := [];
      var id := 1;
      while id < nextBlogId
        invariant NewestFirst(rows) && Distinct(rows)
        invariant forall p :: p in rows <==>
          p.blogId in posts && p.blogId < id && posts[p.blogId] == p && Matches(p, creator)
      {
        if id in posts && Matches(posts[id], creator) {
          rows := InsertNewestFirst(posts[id], rows);
        }
        id := id + 1;
      }
    }

    /** `getAllPosts`: every post, newest first. */
    method GetAllPosts() returns (r: Response)
      requires Valid()
      ensures !IsAuthenticated(session) ==> r == Unauthorized()
      ensures IsAuthenticated(session) ==>
        r.status == 200 && r.success && r.payload.PostList? && IsListing(r.payload.posts, posts, None)
    {
      if !IsAuthenticated(session) {
        return Unauthorized();
      }
      var rows := SelectNewestFirst(None);
      r := Success(200, "", PostList(rows));
    }

    /** `getPostsByUser`: exactly the posts whose creator_user_id is `userId`, newest first. */
    method GetPostsByUser(userId: string) returns (r: Response)
      requires Valid()
      ensures !IsAuthenticated(session) ==> r == Unauthorized()
      ensures IsAuthenticated(session) ==>
        r.status == 200 && r.success && r.payload.PostList? && IsListing(r.payload.posts, posts, Some(userId))
    {
      if !IsAuthenticated(session) {
        return Unauthorized();
      }
      var rows := SelectNewestFirst(Some(userId));
      r := Success(200, "", PostList(rows));
    }

    /** `getPostById`: the id is checked before the table is read. */
    method GetPostById(id: Option<int>) returns (r: Response)
      requires Valid()
      ensures !IsAuthenticated(session) ==> r == Unauthorized()
      ensures IsAuthenticated(session) && !ValidPostId(id) ==> r == Failure(400, INVALID_POST_ID)
      ensures IsAuthenticated(session) && ValidPostId(id) && id.value !in posts ==> r == Failure(404, POST_NOT_FOUND)
      ensures r.status == 200 <==> IsAuthenticated(session) && ValidPostId(id) && id.value in posts
      ensures r.status == 200 ==> r == Success(200, "", OnePost(posts[id.value])) && r.payload.post.blogId == id.value
    {
      if !IsAuthenticated(session) {
        return Unauthorized();
      }
      if !ValidPostId(id) {
        return Failure(400, INVALID_POST_ID);
      }
      if id.value !in posts {
        return Failure(404, POST_NOT_FOUND);
      }
      r := Success(200, "", OnePost(posts[id.value]));
    }

    /**
     * `createPost`: invalid content is refused with its errors; otherwise one
     * new post under a fresh blog_id, its creator taken from the session and
     * its content trimmed, and no other post touched.
     */
    method CreatePost(title: Field, body: Field, now: int) returns (r: Response)
      requires Valid()
      modifies this`posts, this`nextBlogId
      ensures Valid()
      ensures !IsAuthenticated(session) ==>
        r == Unauthorized() && posts == old(posts) && nextBlogId == old(nextBlogId)
      ensures IsAuthenticated(session) && ValidatePost(title, body) != [] ==>
        r == Invalid(ValidatePost(title, body)) && posts == old(posts) && nextBlogId == old(nextBlogId)
      ensures IsAuthenticated(session) && ValidatePost(title, body) == [] ==>
        var post := PostRow(old(nextBlogId), session.value.id, session.value.name,
                            Trim(title.value), Trim(body.value), now);
        && post.blogId !in old(posts)
        && posts == old(posts)[post.blogId := post]
        && nextBlogId == old(nextBlogId) + 1
        && r == Success(201, "", OnePost(post))
    {
      if !IsAuthenticated(session) {
        return Unauthorized();
      }
      var errors := ValidatePost(title, body);
      if |errors| > 0 {
        return Invalid(errors);
      }
      var post := PostRow(nextBlogId, session.value.id, session.value.name,
                          Trim(title.value), Trim(body.value), now);
      AcceptedContentIsWellFormed(title, body, post);
      InsertKeepsTable(posts, nextBlogId, post);
      assert PostsTable(posts[nextBlogId := post], nextBlogId + 1);
      posts := posts[nextBlogId := post];
      nextBlogId := nextBlogId + 1;
      r := Success(201, "", OnePost(post));
    }

    /**
     * `updatePost`: the checks run in the order bad id (400), invalid content
     * (400, whether or not the post exists), missing post (404), not the
     * creator (403). Only when all pass are the post's title and body
     * replaced by the trimmed input; its id, creator and date, and every
     * other post, stay as they were.
     */
    method UpdatePost(id: Option<int>, title: Field, body: Field) returns (r: Response)
      requires Valid()
      modifies this`posts
      ensures Valid()
      ensures !IsAuthenticated(session) ==> r == Unauthorized() && posts == old(posts)
      ensures IsAuthenticated(session) && !ValidPostId(id) ==>
        r == Failure(400, INVALID_POST_ID) && posts == old(posts)
      ensures IsAuthenticated(session) && ValidPostId(id) && ValidatePost(title, body) != [] ==>
        r == Invalid(ValidatePost(title, body)) && posts == old(posts)
      ensures IsAuthenticated(session) && ValidPostId(id) && ValidatePost(title, body) == []
              && id.value !in old(posts) ==>
        r == Failure(404, POST_NOT_FOUND) && posts == old(posts)
      ensures IsAuthenticated(session) && ValidPostId(id) && ValidatePost(title, body) == []
              && id.value in old(posts) && !CanMutate(session.value, old(posts)[id.value]) ==>
        r == Forbidden() && posts == old(posts)
      ensures IsAuthenticated(session) && ValidPostId(id) && ValidatePost(title, body) == []
              && id.value in old(posts) && CanMutate(session.value, old(posts)[id.value]) ==>
        var post := old(posts)[id.value].(title := Trim(title.value), body := Trim(body.value));
        posts == old(posts)[id.value := post] && r == Success(200, "", OnePost(post))
    {
      if !IsAuthenticated(session) {
        return Unauthorized();
      }
      if !ValidPostId(id) {
        return Failure(400, INVALID_POST_ID);
      }
      var errors := ValidatePost(title, body);
      if |errors| > 0 {
        return Invalid(errors);
      }
      if id.value !in posts {
        return Failure(404, POST_NOT_FOUND);
      }
      if !CanMutate(session.value, posts[id.value]) {
        return Forbidden();
      }
      var post := posts[id.value].(title := Trim(title.value), body := Trim(body.value));
      AcceptedContentIsWellFormed(title, body, post);
      ReplaceKeepsTable(posts, nextBlogId, post);
      posts := posts[id.value := post];
      r := Success(200, "", OnePost(post));
    }

    /**
     * `deletePost`: bad id (400), missing post (404), not the creator (403);
     * the post is removed exactly when it exists and the session user
     * created it, and no other post is touched.
     */
    method DeletePost(id: Option<int>) returns (r: Response)
      requires Valid()
      modifies this`posts
      ensures Valid()
      ensures !IsAuthenticated(session) ==> r == Unauthorized() && posts == old(posts)
      ensures IsAuthenticated(session) && !ValidPostId(id) ==>
        r == Failure(400, INVALID_POST_ID) && posts == old(posts)
      ensures IsAuthenticated(session) && ValidPostId(id) && id.value !in old(posts) ==>
        r == Failure(404, POST_NOT_FOUND) && posts == old(posts)
      ensures IsAuthenticated(session) && ValidPostId(id) && id.value in old(posts)
              && !CanMutate(session.value, old(posts)[id.value]) ==>
        r == Forbidden() && posts == old(posts)
      ensures posts != old(posts) <==>
        IsAuthenticated(session) && ValidPostId(id) && id.value in old(posts)
        && CanMutate(session.value, old(posts)[id.value])
      ensures posts != old(posts) ==>
        posts == old(posts) - {id.value} && r == Success(200, POST_DELETED, NoPayload)
    {
      if !IsAuthenticated(session) {
        return Unauthorized();
      }
      if !ValidPostId(id) {
        return Failure(400, INVALID_POST_ID);
      }
      if id.value !in posts {
        return Failure(404, POST_NOT_FOUND);
      }
      if !CanMutate(session.value, posts[id.value]) {
        return Forbidden();
      }
      RemoveKeepsTable(posts, nextBlogId, id.value);
      posts := posts - {id.value};
      r := Success(200, POST_DELETED, NoPayload);
    }

    // ----------------------------------------------------------------- auth

    /**
     * `signup`: every field must be truthy (the untrimmed value is tested);
     * a trimmed user_id already in the table is refused whatever the name and
     * password; otherwise exactly one user is added, with trimmed name and
     * user_id and the hash of the trimmed password.
     */
    method Signup(name: Field, userId: Field, password: Field) returns (r: Response)
      requires Valid()
      modifies this`users
      ensures Valid()
      ensures !Truthy(name) || !Truthy(userId) || !Truthy(password) ==>
        r == Failure(400, FIELDS_REQUIRED) && users == old(users)
      ensures Truthy(name) && Truthy(userId) && Truthy(password) && Trim(userId.value) in old(users) ==>
        r == Failure(409, USER_ID_TAKEN) && users == old(users)
      ensures Truthy(name) && Truthy(userId) && Truthy(password) && Trim(userId.value) !in old(users) ==>
        var row := UserRow(Trim(name.value), Trim(userId.value), Hash(Trim(password.value)));
        users == old(users)[row.userId := row] && r == Success(201, USER_CREATED, NewUserId(row.userId))
    {
      if !Truthy(name) || !Truthy(userId) || !Truthy(password) {
        return Failure(400, FIELDS_REQUIRED);
      }
      var id := Trim(userId.value);
      if id in users {
        return Failure(409, USER_ID_TAKEN);
      }
      var row := UserRow(Trim(name.value), id, Hash(Trim(password.value)));
      users := users[id := row];
      r := Success(201, USER_CREATED, NewUserId(id));
    }

    /**
     * `login`: both fields must be truthy; an unknown user_id and a wrong
     * password get the very same 401; on success the session user becomes
     * the stored row's user_id and name, and the response carries that pair.
     */
    method Login(userId: Field, password: Field) returns (r: Response)
      requires Valid()
      modifies this`session
      ensures Valid()
      ensures !Truthy(userId) || !Truthy(password) ==> r == Failure(400, CREDENTIALS_REQUIRED)
      ensures Truthy(userId) && Truthy(password) && Trim(userId.value) !in users ==> r == InvalidCredentials()
      ensures Truthy(userId) && Truthy(password) && Trim(userId.value) in users
              && !Compare(Trim(password.value), users[Trim(userId.value)].password) ==>
        r == InvalidCredentials()
      ensures r.status == 200 <==>
        Truthy(userId) && Truthy(password) && Trim(userId.value) in users
        && Compare(Trim(password.value), users[Trim(userId.value)].password)
      ensures r.status == 200 ==>
        var row := users[Trim(userId.value)];
        session == Some(SessionUser(row.userId, row.name)) && r == Success(200, LOGIN_OK, LoggedIn(session.value))
      ensures r.status != 200 ==> session == old(session)
    {
      if !Truthy(userId) || !Truthy(password) {
        return Failure(400, CREDENTIALS_REQUIRED);
      }
      var id := Trim(userId.value);
      if id !in users {
        return InvalidCredentials();
      }
      var row := users[id];
      if !Compare(Trim(password.value), row.password) {
        return InvalidCredentials();
      }
      session := Some(SessionUser(row.userId, row.name));
      r := Success(200, LOGIN_OK, LoggedIn(session.value));
    }

    /** `logout`: the session user is gone afterwards. */
    method Logout() returns (r: Response)
      requires Valid()
      modifies this`session
      ensures Valid()
      ensures session == None && !IsAuthenticated(session)
      ensures r == Success(200, LOGOUT_OK, NoPayload)
    {
      session := None;
      r := Success(200, LOGOUT_OK, NoPayload);
    }

    /** `getSession`: reports whether someone is logged in, and who, without changing anything. */
    method GetSession() returns (r: Response)
      ensures r.status == 200 && r.payload.SessionInfo?
      ensures r.payload.authenticated <==> IsAuthenticated(session)
      ensures r.payload.current == session
    {
      r := Success(200, "", SessionInfo(session.Some?, session));
    }

    /**
     * `updateAccount`: a blank new user_id is refused. Otherwise the stored
     * row of the session's user_id is updated: its user_id when the trimmed
     * new one differs, its password hash when a non-blank password was sent,
     * nothing (and no statement runs) when neither. Its name never changes,
     * no other row changes, the new user_id is never checked for being free
     * (only the table's key can refuse it, as a server error), and the posts
     * table is not touched, so posts keep the old creator_user_id. Afterwards
     * the session user is whatever row now has the new user_id: when the
     * session's own row is gone, that is another user's row if one has it.
     * Every failure leaves the table and the session as they were.
     */
    method UpdateAccount(userId: Field, password: Field) returns (r: Response)
      requires Valid()
      modifies this`users, this`session
      ensures Valid()
      ensures r.status == 200 || r.status == 400 || r.status == 401 || r.status == 500
      ensures r.status != 200 ==> users == old(users) && session == old(session)
      ensures r.status == 200 ==> session.Some? && r == Success(200, ACCOUNT_UPDATED, LoggedIn(session.value))
      ensures !IsAuthenticated(old(session)) ==> r == Unauthorized()
      ensures IsAuthenticated(old(session)) && (!Truthy(userId) || AllWhitespace(userId.value)) ==>
        r == Failure(400, USER_ID_REQUIRED)
      ensures IsAuthenticated(old(session)) && Truthy(userId) && !AllWhitespace(userId.value) ==>
        var oldId := old(session).value.id;
        var newId := Trim(userId.value);
        var hashed := NewPasswordHash(password);
        && (newId == oldId && hashed.None? ==> users == old(users))
        && (oldId in old(users) && newId != oldId && newId in old(users) ==>
              r == Failure(500, ACCOUNT_UPDATE_ERROR))
        && (oldId in old(users) && (newId == oldId || newId !in old(users)) ==>
              && r.status == 200
              && |users| == |old(users)|
              && newId in users && (newId != oldId ==> oldId !in users)
              && users[newId].userId == newId
              && users[newId].name == old(users)[oldId].name
              && users[newId].password ==
                   (if hashed.Some? then hashed.value else old(users)[oldId].password)
              && (forall k :: k in old(users) && k != oldId ==> k in users && users[k] == old(users)[k])
              && session == Some(SessionUser(newId, old(users)[oldId].name)))
        && (oldId !in old(users) ==>
              && users == old(users)
              && (r.status == 200 <==> newId in old(users))
              && (newId in old(users) ==> session == Some(SessionUser(newId, old(users)[newId].name)))
              && (newId !in old(users) ==> r == Failure(500, ACCOUNT_UPDATE_ERROR)))
    {
      if !IsAuthenticated(session) {
        return Unauthorized();
      }
      var oldId := session.value.id;
      if userId.Some? {
        TrimSpec(userId.value);
      }
      if !Truthy(userId) || |Trim(userId.value)| == 0 {
        return Failure(400, USER_ID_REQUIRED);
      }
      var hashed := NewPasswordHash(password);
      var newId := Trim(userId.value);
      var written := Some(users);
      if newId != oldId && hashed.Some? {
        written := UpdateUserRow(users, oldId, newId, hashed);
      } else if newId != oldId {
        written := UpdateUserRow(users, oldId, newId, None);
      } else if hashed.Some? {
        written := UpdateUserRow(users, oldId, oldId, hashed);
      }
      if written.None? {
        return Failure(500, ACCOUNT_UPDATE_ERROR);
      }
      users := written.value;
      if newId !in users {
        return Failure(500, ACCOUNT_UPDATE_ERROR);
      }
      session := Some(SessionUser(users[newId].userId, users[newId].name));
      r := Success(200, ACCOUNT_UPDATED, LoggedIn(session.value));
    }
  }
}
