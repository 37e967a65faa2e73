/**
 * The pure rules of the post controller: content validation, the post-id
 * check, the ownership check, and the newest-first order of the listings.
 */
module Posts {
  import opened Text
  import opened Schema

  const TITLE_MAX: nat := 255
  const BODY_MAX: nat := 5000

  const TITLE_REQUIRED: string := "Title is required"
  const TITLE_TOO_LONG: string := "Title must be 255 characters or less"
  const BODY_REQUIRED: string := "Content is required"
  const BODY_TOO_LONG: string := "Content must be 5000 characters or less"

  const INVALID_POST_ID: string := "Invalid post ID"
  const POST_NOT_FOUND: string := "Post not found"
  const POST_DELETED: string := "Post deleted successfully"

  /** The `isAuthenticated` gate lets a request through exactly when a session user is set. */
  predicate IsAuthenticated(session: Option<SessionUser>) {
    session.Some?
  }

  /**
   * What every stored post satisfies: its title and body are trimmed and
   * their lengths are within the limits `validatePost` enforces.
   */
  predicate WellFormedContent(post: PostRow) {
    && 1 <= |post.title| <= TITLE_MAX && IsTrimmed(post.title)
    && 1 <= |post.body| <= BODY_MAX && IsTrimmed(post.body)
  }

  /**
   * The blogs table: every post is stored under its own blog_id, one the
   * sequence has already handed out, with well-formed content.
   */
  ghost predicate PostsTable(posts: map<int, PostRow>, nextBlogId: int) {
    && nextBlogId >= 1
    && forall id :: id in posts ==>
         posts[id].blogId == id && 1 <= id < nextBlogId && WellFormedContent(posts[id])
  }

  /** Inserting under the next blog_id keeps the table well formed and overwrites nothing. */
  lemma InsertKeepsTable(posts: map<int, PostRow>, nextBlogId: int, post: PostRow)
    requires PostsTable(posts, nextBlogId)
    requires post.blogId == nextBlogId && WellFormedContent(post)
    ensures nextBlogId !in posts
    ensures PostsTable(posts[nextBlogId := post], nextBlogId + 1)
  {
  }

  /** Replacing a post by one with the same blog_id and well-formed content keeps the table well formed. */
  lemma ReplaceKeepsTable(posts: map<int, PostRow>, nextBlogId: int, post: PostRow)
    requires PostsTable(posts, nextBlogId)
    requires post.blogId in posts && WellFormedContent(post)
    ensures PostsTable(posts[post.blogId := post], nextBlogId)
  {
  }

  /** Removing a post keeps the table well formed. */
  lemma RemoveKeepsTable(posts: map<int, PostRow>, nextBlogId: int, id: int)
    requires PostsTable(posts, nextBlogId)
    ensures PostsTable(posts - {id}, nextBlogId)
  {
  }

  predicate IsTitleError(e: string) {
    e == TITLE_REQUIRED || e == TITLE_TOO_LONG
  }

  predicate IsBodyError(e: string) {
    e == BODY_REQUIRED || e == BODY_TOO_LONG
  }

  lemma MessagesDiffer()
    ensures TITLE_REQUIRED != TITLE_TOO_LONG && BODY_REQUIRED != BODY_TOO_LONG
    ensures !IsBodyError(TITLE_REQUIRED) && !IsBodyError(TITLE_TOO_LONG)
    ensures !IsTitleError(BODY_REQUIRED) && !IsTitleError(BODY_TOO_LONG)
  {
    assert TITLE_REQUIRED[0] == 'T' && TITLE_TOO_LONG[0] == 'T';
    assert BODY_REQUIRED[0] == 'C' && BODY_TOO_LONG[0] == 'C';
  }

  /**
   * `validatePost`: both fields are trimmed (a missing field counts as empty)
   * and checked without short-circuiting. The result is empty exactly when
   * both trimmed lengths are in range; otherwise it names each failing field
   * once, the title before the body.
   */
  function ValidatePost(title: Field, body: Field): (errors: seq<string>)
    ensures |errors| <= 2
    ensures errors == [] <==>
      1 <= |TrimmedOrEmpty(title)| <= TITLE_MAX && 1 <= |TrimmedOrEmpty(body)| <= BODY_MAX
    ensures TITLE_REQUIRED in errors <==> TrimmedOrEmpty(title) == []
    ensures TITLE_TOO_LONG in errors <==> |TrimmedOrEmpty(title)| > TITLE_MAX
    ensures BODY_REQUIRED in errors <==> TrimmedOrEmpty(body) == []
    ensures BODY_TOO_LONG in errors <==> |TrimmedOrEmpty(body)| > BODY_MAX
    ensures forall i, j :: 0 <= i < j < |errors| ==> IsTitleError(errors[i]) && IsBodyError(errors[j])
    ensures errors == [] ==> Truthy(title) && Truthy(body)
  {
    MessagesDiffer();
    FieldErrors(TrimmedOrEmpty(title), TITLE_MAX, TITLE_REQUIRED, TITLE_TOO_LONG)
    + FieldErrors(TrimmedOrEmpty(body), BODY_MAX, BODY_REQUIRED, BODY_TOO_LONG)
  }

  /** The checks on one trimmed field: at most one error, and none when its length is in range. */
  function FieldErrors(trimmed: string, max: nat, required: string, tooLong: string): (errors: seq<string>)
    requires required != tooLong
    ensures |errors| <= 1
    ensures errors == [] <==> 1 <= |trimmed| <= max
    ensures required in errors <==> trimmed == []
    ensures tooLong in errors <==> |trimmed| > max
    ensures forall e :: e in errors ==> e == required || e == tooLong
  {
    if |trimmed| == 0 then [required]
    else if |trimmed| > max then [tooLong]
    else []
  }

  /** Two empty fields give both "required" errors together. */
  lemma ValidateEmptyPost()
    ensures ValidatePost(Some(""), Some("")) == [TITLE_REQUIRED, BODY_REQUIRED]
    ensures ValidatePost(None, None) == [TITLE_REQUIRED, BODY_REQUIRED]
  {
  }

  /** Content that passed validation, once trimmed, is what a stored post may hold. */
  lemma AcceptedContentIsWellFormed(title: Field, body: Field, post: PostRow)
    requires ValidatePost(title, body) == []
    requires post.title == Trim(title.value) && post.body == Trim(body.value)
    ensures WellFormedContent(post)
  {
    TrimSpec(title.value);
    TrimSpec(body.value);
  }

  /** A whitespace-only field is treated exactly like a missing one. */
  lemma BlankFieldIsMissing(blank: string, other: Field)
    requires AllWhitespace(blank)
    ensures ValidatePost(Some(blank), other) == ValidatePost(None, other)
    ensures ValidatePost(other, Some(blank)) == ValidatePost(other, None)
  {
    TrimSpec(blank);
  }

  /** The post-id check: `Number(id)` is an integer and `id > 0`. */
  predicate ValidPostId(id: Option<int>) {
    id.Some? && id.value > 0
  }

  /** The ownership check: the post's creator is the session's user. */
  predicate CanMutate(user: SessionUser, post: PostRow) {
    post.creatorUserId == user.id
  }

  /** `ORDER BY date_created DESC`. */
  predicate NewestFirst(rows: seq<PostRow>) {
    forall i, j :: 0 <= i < j < |rows| ==> rows[i].dateCreated >= rows[j].dateCreated
  }

  predicate Distinct(rows: seq<PostRow>) {
    forall i, j :: 0 <= i < j < |rows| ==> rows[i] != rows[j]
  }

  /** The `WHERE creator_user_id = $1` filter; None selects every post. */
  predicate Matches(post: PostRow, creator: Option<string>) {
    creator.None? || post.creatorUserId == creator.value
  }

  /**
   * What a listing query returns: each matching row of the table once,
   * nothing else, newest first.
   */
  ghost predicate IsListing(rows: seq<PostRow>, table: map<int, PostRow>, creator: Option<string>) {
    && NewestFirst(rows)
    && Distinct(rows)
    && forall p :: p in rows <==> p.blogId in table && table[p.blogId] == p && Matches(p, creator)
  }

  /** Places `row` into a newest-first sequence, keeping it newest first. */
  function InsertNewestFirst(row: PostRow, rows: seq<PostRow>): (r: seq<PostRow>)
    requires NewestFirst(rows)
    ensures NewestFirst(r)
    ensures |r| == |rows| + 1
    ensures forall p :: p in r <==> p == row || p in rows
    ensures Distinct(rows) && row !in rows ==> Distinct(r)
  {
    if rows == [] || row.dateCreated >= rows[0].dateCreated then
      ConsNewestFirst(row, rows);
      ConsDistinct(row, rows);
      [row] + rows
    else
      var rest := InsertNewestFirst(row, rows[1..]);
      assert forall p :: p in rows[1..] ==> p.dateCreated <= rows[0].dateCreated;
      ConsNewestFirst(rows[0], rest);
      assert Distinct(rows) ==> Distinct(rows[1..]) && rows[0] !in rows[1..];
      ConsDistinct(rows[0], rest);
      [rows[0]] + rest
  }

  lemma ConsNewestFirst(row: PostRow, rows: seq<PostRow>)
    requires NewestFirst(rows)
    requires forall p :: p in rows ==> p.dateCreated <= row.dateCreated
    ensures NewestFirst([row] + rows)
  {
    var r := [row] + rows;
    forall i, j | 0 <= i < j < |r| ensures r[i].dateCreated >= r[j].dateCreated {
      assert r[j] == rows[j - 1];
      if i > 0 {
        assert r[i] == rows[i - 1];
      }
    }
  }

  lemma ConsDistinct(row: PostRow, rows: seq<PostRow>)
    ensures Distinct(rows) && row !in rows ==> Distinct([row] + rows)
  {
    var r := [row] + rows;
    if Distinct(rows) && row !in rows {
      forall i, j | 0 <= i < j < |r| ensures r[i] != r[j] {
        assert r[j] == rows[j - 1];
        if i > 0 {
          assert r[i] == rows[i - 1];
        }
      }
    }
  }
}
