/**
 * The community routes: posts, the like toggle, comments, and the two listings
 * (posts with the requester's like flag and the like count, comments of one
 * post), each listing joined with the author's name.
 *
 * Path ids arrive already converted to numbers; the requester is the `id` of
 * the decoded token. An UPDATE or DELETE reports the rows its WHERE clause
 * matched, so "no affected rows" means "no row with that id owned by that user".
 */
module Community {
  import opened Wrappers
  import opened Js
  import opened Tables
  import Query

  // ---------------------------------------------------------------------------
  // Likes
  // ---------------------------------------------------------------------------

  /** The likes of one post: the rows `COUNT(*) ... WHERE post_id = ?` counts. */
  function LikesOf(likes: set<Like>, postId: nat): (r: set<Like>)
    ensures r <= likes
    ensures forall l :: l in r <==> l in likes && l.postId == postId
  {
    set l | l in likes && l.postId == postId
  }

  /** The likes table after one toggle of `l`: deleted when present, inserted when absent. */
  function ToggledLikes(likes: set<Like>, l: Like): (r: set<Like>)
    ensures l in r <==> l !in likes
    ensures forall m :: m != l ==> (m in r <==> m in likes)
  {
    if l in likes then likes - {l} else likes + {l}
  }

  /** Toggling the same like twice restores the likes table. */
  lemma ToggleTwice(likes: set<Like>, l: Like)
    ensures ToggledLikes(ToggledLikes(likes, l), l) == likes
  {
    var once := ToggledLikes(likes, l);
    var twice := ToggledLikes(once, l);
    forall m ensures m in twice <==> m in likes {
      if m == l {
        assert l in twice <==> l !in once;
      }
    }
  }

  /** A toggle by one user on one post leaves that post's count changed by exactly one. */
  lemma ToggleCount(likes: set<Like>, l: Like)
    ensures l !in likes ==> |LikesOf(ToggledLikes(likes, l), l.postId)| == |LikesOf(likes, l.postId)| + 1
    ensures l in likes ==> |LikesOf(ToggledLikes(likes, l), l.postId)| + 1 == |LikesOf(likes, l.postId)|
  {
    var before := LikesOf(likes, l.postId);
    var after := LikesOf(ToggledLikes(likes, l), l.postId);
    if l in likes {
      assert after == before - {l};
    } else {
      assert after == before + {l};
    }
  }

  /**
   * POST /:id/like. Answers `liked: true` exactly when the requester had not
   * liked the post, and afterwards the like exists exactly when `liked` is true.
   */
  method ToggleLike(db: Database, userId: nat, postId: nat) returns (liked: bool)
    requires db.Valid()
    modifies db`likes
    ensures db.Valid()
    ensures liked <==> Like(userId, postId) !in old(db.likes)
    ensures Like(userId, postId) in db.likes <==> liked
    ensures db.likes == ToggledLikes(old(db.likes), Like(userId, postId))
  {
    var l := Like(userId, postId);
    if l in db.likes {
      db.likes := db.likes - {l};
      liked := false;
    } else {
      db.likes := db.likes + {l};
      liked := true;
    }
  }

  // ---------------------------------------------------------------------------
  // Posts
  // ---------------------------------------------------------------------------

  /**
   * POST /. Answers 400 without a body; otherwise inserts one post owned by the
   * requester, with an absent title or image stored as NULL and `is_public`
   * stored as 1 whatever the request said.
   */
  method CreatePost(db: Database, userId: nat, title: Option<string>, body: Option<string>,
                    imageUrl: Option<string>, isPublic: bool, now: nat)
    returns (status: int)
    requires db.Valid()
    modifies db`posts, db`nextPostId
    ensures db.Valid()
    ensures status == 201 || status == 400
    ensures status == 400 <==> !Truthy(body)
    ensures status == 400 ==> db.posts == old(db.posts) && db.nextPostId == old(db.nextPostId)
    ensures status == 201 ==>
      && db.nextPostId == old(db.nextPostId) + 1
      && old(db.nextPostId) !in old(db.posts)
      && db.posts == old(db.posts)[old(db.nextPostId) :=
           Post(old(db.nextPostId), userId, OrNull(title), body, OrNull(imageUrl), 1, now)]
  {
    if !Truthy(body) {
      return 400;
    }
    var post := Post(db.nextPostId, userId, OrNull(title), body, OrNull(imageUrl), 1, now);
    db.posts := db.posts[db.nextPostId := post];
    db.nextPostId := db.nextPostId + 1;
    status := 201;
  }

  /** The row `WHERE id = ? AND user_id = ?` matches on the posts table. */
  predicate OwnsPost(posts: map<nat, Post>, id: nat, userId: nat) {
    id in posts && posts[id].userId == userId
  }

  /**
   * PUT /:id. Rewrites title, body, image and `is_public` (again always 1) of a
   * post the requester owns; any other request answers 403 and changes nothing.
   */
  method UpdatePost(db: Database, id: nat, userId: nat, title: Option<string>, body: Option<string>,
                    imageUrl: Option<string>, isPublic: bool)
    returns (status: int)
    requires db.Valid()
    modifies db`posts
    ensures db.Valid()
    ensures status == 200 || status == 403
    ensures status == 200 <==> OwnsPost(old(db.posts), id, userId)
    ensures status == 403 ==> db.posts == old(db.posts)
    ensures status == 200 ==>
      db.posts == old(db.posts)[id := Post(id, userId, OrNull(title), body, OrNull(imageUrl), 1,
                                           old(db.posts)[id].createdAt)]
  {
    if !OwnsPost(db.posts, id, userId) {
      return 403;
    }
    var post := Post(id, userId, OrNull(title), body, OrNull(imageUrl), 1, db.posts[id].createdAt);
    db.posts := db.posts[id := post];
    status := 200;
  }

  /**
   * DELETE /:id. A falsy requester id answers 401; otherwise the post is
   * removed when the requester owns it, and anything else answers 403.
   */
  method DeletePost(db: Database, id: nat, userId: nat) returns (status: int)
    requires db.Valid()
    modifies db`posts
    ensures db.Valid()
    ensures status == 200 || status == 401 || status == 403
    ensures status == 401 <==> userId == 0
    ensures status == 200 <==> userId != 0 && OwnsPost(old(db.posts), id, userId)
    ensures status != 200 ==> db.posts == old(db.posts)
    ensures status == 200 ==> db.posts == old(db.posts) - {id}
  {
    if userId == 0 {
      return 401;
    }
    if !OwnsPost(db.posts, id, userId) {
      return 403;
    }
    db.posts := db.posts - {id};
    status := 200;
  }

  // ---------------------------------------------------------------------------
  // Post listing
  // ---------------------------------------------------------------------------

  /** One row of GET /: the post, its author's name, the requester's like flag, the like count. */
  datatype PostView = PostView(post: Post, authorName: string, isLiked: bool, likeCount: nat)

  /** The listing row of post `p` as seen by `requester`. */
  function PostViewOf(p: Post, users: map<nat, User>, likes: set<Like>, requester: nat): (v: PostView)
    requires p.userId in users
    ensures v.post == p && v.authorName == users[p.userId].name
    ensures v.isLiked <==> Like(requester, p.id) in likes
    ensures v.likeCount == |LikesOf(likes, p.id)|
  {
    PostView(p, users[p.userId].name, Like(requester, p.id) in likes, |LikesOf(likes, p.id)|)
  }

  /** The inner join of posts with their authors, keeping the order of `ps`. */
  function JoinPosts(ps: seq<Post>, users: map<nat, User>, likes: set<Like>, requester: nat): (r: seq<PostView>)
    ensures forall i :: 0 <= i < |r| ==>
      r[i].post in ps && r[i].post.userId in users && r[i] == PostViewOf(r[i].post, users, likes, requester)
    ensures forall i :: 0 <= i < |ps| && ps[i].userId in users ==> PostViewOf(ps[i], users, likes, requester) in r
  {
    if ps == [] then []
    else
      var rest := JoinPosts(ps[1..], users, likes, requester);
      if ps[0].userId in users then [PostViewOf(ps[0], users, likes, requester)] + rest else rest
  }

  /** The `id` column of a post, and of the post a listing row shows. */
  function PostId(p: Post): nat {
    p.id
  }

  function ViewPostId(v: PostView): nat {
    v.post.id
  }

  /** Joining posts with unique ids lists each post once. */
  lemma {:induction false} JoinPostsUnique(ps: seq<Post>, users: map<nat, User>, likes: set<Like>, requester: nat)
    requires Query.UniqueBy(ps, PostId)
    ensures Query.UniqueBy(JoinPosts(ps, users, likes, requester), ViewPostId)
  {
    if ps != [] {
      Query.UniqueTail(ps, PostId);
      JoinPostsUnique(ps[1..], users, likes, requester);
      var rest := JoinPosts(ps[1..], users, likes, requester);
      var r := JoinPosts(ps, users, likes, requester);
      if ps[0].userId in users {
        forall i, j | 0 <= i < j < |r| ensures ViewPostId(r[i]) != ViewPostId(r[j]) {
          assert r[j] == rest[j - 1];
          if i > 0 {
            assert r[i] == rest[i - 1];
          } else {
            assert rest[j - 1].post in ps[1..];
          }
        }
      }
    }
  }

  /** ORDER BY cp.created_at DESC, as an ascending sort on the negated timestamp. */
  function NewestFirst(v: PostView): int {
    -(v.post.createdAt as int)
  }

  /**
   * GET /: every post whose author exists, each once, newest first, each row carrying
   * whether `requester` liked it and how many likes it has.
   */
  function ListPosts(posts: map<nat, Post>, nextPostId: nat, users: map<nat, User>, likes: set<Like>,
                     requester: nat): (r: seq<PostView>)
    ensures forall i :: 0 <= i < |r| ==>
      && r[i].post in posts.Values && r[i].post.userId in users
      && r[i].authorName == users[r[i].post.userId].name
      && (r[i].isLiked <==> Like(requester, r[i].post.id) in likes)
      && r[i].likeCount == |LikesOf(likes, r[i].post.id)|
    ensures forall k: nat :: k in posts && k < nextPostId && posts[k].userId in users ==>
      PostViewOf(posts[k], users, likes, requester) in r
    ensures forall i, j :: 0 <= i < j < |r| ==> r[i].post.createdAt >= r[j].post.createdAt
    ensures PostsOk(posts, nextPostId) ==> forall i, j :: 0 <= i < j < |r| ==> r[i].post.id != r[j].post.id
  {
    var joined := JoinPosts(Query.Rows(posts, nextPostId), users, likes, requester);
    var r := Query.SortByKey(joined, NewestFirst);
    ListedPostsSound(posts, nextPostId, users, likes, requester, joined, r);
    ListedPostsUnique(posts, nextPostId, users, likes, requester, joined, r);
    ListedPostsComplete(posts, nextPostId, users, likes, requester, joined, r);
    Query.SortByKeySorted(joined, NewestFirst);
    r
  }

  lemma ListedPostsSound(posts: map<nat, Post>, nextPostId: nat, users: map<nat, User>, likes: set<Like>,
                         requester: nat, joined: seq<PostView>, r: seq<PostView>)
    requires joined == JoinPosts(Query.Rows(posts, nextPostId), users, likes, requester)
    requires r == Query.SortByKey(joined, NewestFirst)
    ensures forall i :: 0 <= i < |r| ==>
      && r[i].post in posts.Values && r[i].post.userId in users
      && r[i] == PostViewOf(r[i].post, users, likes, requester)
  {
    Query.SortByKeyMembers(joined, NewestFirst);
    forall i | 0 <= i < |r|
      ensures r[i].post in posts.Values && r[i].post.userId in users
      ensures r[i] == PostViewOf(r[i].post, users, likes, requester)
    {
      assert r[i] in joined;
      var j :| 0 <= j < |joined| && joined[j] == r[i];
    }
  }

  lemma ListedPostsUnique(posts: map<nat, Post>, nextPostId: nat, users: map<nat, User>, likes: set<Like>,
                          requester: nat, joined: seq<PostView>, r: seq<PostView>)
    requires joined == JoinPosts(Query.Rows(posts, nextPostId), users, likes, requester)
    requires r == Query.SortByKey(joined, NewestFirst)
    ensures PostsOk(posts, nextPostId) ==> Query.UniqueBy(r, ViewPostId)
  {
    if PostsOk(posts, nextPostId) {
      Query.RowsUnique(posts, nextPostId, PostId);
      JoinPostsUnique(Query.Rows(posts, nextPostId), users, likes, requester);
      Query.UniqueSub(joined, r, ViewPostId);
    }
  }

  lemma ListedPostsComplete(posts: map<nat, Post>, nextPostId: nat, users: map<nat, User>, likes: set<Like>,
                            requester: nat, joined: seq<PostView>, r: seq<PostView>)
    requires joined == JoinPosts(Query.Rows(posts, nextPostId), users, likes, requester)
    requires r == Query.SortByKey(joined, NewestFirst)
    ensures forall k: nat :: k in posts && k < nextPostId && posts[k].userId in users ==>
      PostViewOf(posts[k], users, likes, requester) in r
  {
    Query.SortByKeyMembers(joined, NewestFirst);
    forall k: nat | k in posts && k < nextPostId && posts[k].userId in users
      ensures PostViewOf(posts[k], users, likes, requester) in r
    {
      var rows := Query.Rows(posts, nextPostId);
      Query.RowsContain(posts, nextPostId, k);
      var i :| 0 <= i < |rows| && rows[i] == posts[k];
      assert PostViewOf(posts[k], users, likes, requester) in joined;
    }
  }

  // ---------------------------------------------------------------------------
  // Comments
  // ---------------------------------------------------------------------------

  /**
   * `parent_comment_id || null` on a numeric field: 0 and absent become NULL,
   * so no comment points at parent 0, and a parent that is given is kept.
   */
  function ParentOrNull(parent: Option<nat>): (r: Option<nat>)
    ensures r != Some(0)
    ensures r.Some? ==> r == parent
    ensures parent.Some? && parent.value != 0 ==> r == parent
  {
    if parent.Some? && parent.value != 0 then parent else None
  }

  /**
   * POST /:id/comment. Answers 400 without content; otherwise inserts one
   * comment by the requester on that post, with a falsy parent stored as NULL.
   */
  method AddComment(db: Database, postId: nat, userId: nat, content: Option<string>, parent: Option<nat>,
                    now: nat)
    returns (status: int)
    requires db.Valid()
    modifies db`comments, db`nextCommentId
    ensures db.Valid()
    ensures status == 201 || status == 400
    ensures status == 400 <==> !Truthy(content)
    ensures status == 400 ==> db.comments == old(db.comments) && db.nextCommentId == old(db.nextCommentId)
    ensures status == 201 ==>
      && db.nextCommentId == old(db.nextCommentId) + 1
      && old(db.nextCommentId) !in old(db.comments)
      && db.comments == old(db.comments)[old(db.nextCommentId) :=
           Comment(old(db.nextCommentId), postId, userId, content.value, ParentOrNull(parent), now)]
  {
    if !Truthy(content) {
      return 400;
    }
    var c := Comment(db.nextCommentId, postId, userId, content.value, ParentOrNull(parent), now);
    db.comments := db.comments[db.nextCommentId := c];
    db.nextCommentId := db.nextCommentId + 1;
    status := 201;
  }

  /**
   * DELETE /comment/:commentId. Removes the comment when the requester wrote
   * it; anything else answers 403 and changes nothing.
   */
  method DeleteComment(db: Database, commentId: nat, userId: nat) returns (status: int)
    requires db.Valid()
    modifies db`comments
    ensures db.Valid()
    ensures status == 200 || status == 403
    ensures status == 200 <==> commentId in old(db.comments) && old(db.comments)[commentId].userId == userId
    ensures status == 403 ==> db.comments == old(db.comments)
    ensures status == 200 ==> db.comments == old(db.comments) - {commentId}
  {
    if !(commentId in db.comments && db.comments[commentId].userId == userId) {
      return 403;
    }
    db.comments := db.comments - {commentId};
    status := 200;
  }

  /**
   * PUT /:postId/comments/:commentId. Answers 400 without content; otherwise
   * rewrites the content of the comment only when id, author and post all
   * match, and answers 403 with no change when they do not.
   */
  method UpdateComment(db: Database, postId: nat, commentId: nat, userId: nat, content: Option<string>)
    returns (status: int)
    requires db.Valid()
    modifies db`comments
    ensures db.Valid()
    ensures status == 200 || status == 400 || status == 403
    ensures status == 400 <==> !Truthy(content)
    ensures status == 200 <==>
      && Truthy(content) && commentId in old(db.comments)
      && old(db.comments)[commentId].userId == userId && old(db.comments)[commentId].postId == postId
    ensures status != 200 ==> db.comments == old(db.comments)
    ensures status == 200 ==>
      db.comments == old(db.comments)[commentId := old(db.comments)[commentId].(content := content.value)]
  {
    if !Truthy(content) {
      return 400;
    }
    if !(commentId in db.comments && db.comments[commentId].userId == userId
         && db.comments[commentId].postId == postId) {
      return 403;
    }
    db.comments := db.comments[commentId := db.comments[commentId].(content := content.value)];
    status := 200;
  }

  // ---------------------------------------------------------------------------
  // Comment listing
  // ---------------------------------------------------------------------------

  /** One row of GET /:id/comments: the comment and its author's name. */
  datatype CommentView = CommentView(comment: Comment, authorName: string)

  /** The comments of `postId` in `cs` joined with their authors, keeping the order of `cs`. */
  function JoinComments(cs: seq<Comment>, users: map<nat, User>, postId: nat): (r: seq<CommentView>)
    ensures forall i :: 0 <= i < |r| ==>
      && r[i].comment in cs && r[i].comment.postId == postId && r[i].comment.userId in users
      && r[i].authorName == users[r[i].comment.userId].name
    ensures forall i :: 0 <= i < |cs| && cs[i].postId == postId && cs[i].userId in users ==>
      CommentView(cs[i], users[cs[i].userId].name) in r
  {
    if cs == [] then []
    else
      var rest := JoinComments(cs[1..], users, postId);
      if cs[0].postId == postId && cs[0].userId in users
      then [CommentView(cs[0], users[cs[0].userId].name)] + rest
      else rest
  }

  /** The `id` column of a comment, and of the comment a listing row shows. */
  function CommentId(c: Comment): nat {
    c.id
  }

  function ViewCommentId(v: CommentView): nat {
    v.comment.id
  }

  /** Joining comments with unique ids lists each comment once. */
  lemma {:induction false} JoinCommentsUnique(cs: seq<Comment>, users: map<nat, User>, postId: nat)
    requires Query.UniqueBy(cs, CommentId)
    ensures Query.UniqueBy(JoinComments(cs, users, postId), ViewCommentId)
  {
    if cs != [] {
      Query.UniqueTail(cs, CommentId);
      JoinCommentsUnique(cs[1..], users, postId);
      var rest := JoinComments(cs[1..], users, postId);
      var r := JoinComments(cs, users, postId);
      if cs[0].postId == postId && cs[0].userId in users {
        forall i, j | 0 <= i < j < |r| ensures ViewCommentId(r[i]) != ViewCommentId(r[j]) {
          assert r[j] == rest[j - 1];
          if i > 0 {
            assert r[i] == rest[i - 1];
          } else {
            assert rest[j - 1].comment in cs[1..];
          }
        }
      }
    }
  }

  /** ORDER BY c.created_at DESC. */
  function CommentNewestFirst(v: CommentView): int {
    -(v.comment.createdAt as int)
  }

  /** GET /:id/comments: the comments of one post whose author exists, each once, newest first. */
  function ListComments(comments: map<nat, Comment>, nextCommentId: nat, users: map<nat, User>,
                        postId: nat): (r: seq<CommentView>)
    ensures forall i :: 0 <= i < |r| ==>
      && r[i].comment in comments.Values && r[i].comment.postId == postId
      && r[i].comment.userId in users && r[i].authorName == users[r[i].comment.userId].name
    ensures forall k: nat :: (k in comments && k < nextCommentId && comments[k].postId == postId
                              && comments[k].userId in users) ==>
      CommentView(comments[k], users[comments[k].userId].name) in r
    ensures forall i, j :: 0 <= i < j < |r| ==> r[i].comment.createdAt >= r[j].comment.createdAt
    ensures CommentsOk(comments, nextCommentId) ==>
      forall i, j :: 0 <= i < j < |r| ==> r[i].comment.id != r[j].comment.id
  {
    var joined := JoinComments(Query.Rows(comments, nextCommentId), users, postId);
    var r := Query.SortByKey(joined, CommentNewestFirst);
    ListedCommentsSound(comments, nextCommentId, users, postId, joined, r);
    ListedCommentsUnique(comments, nextCommentId, users, postId, joined, r);
    ListedCommentsComplete(comments, nextCommentId, users, postId, joined, r);
    Query.SortByKeySorted(joined, CommentNewestFirst);
    r
  }

  lemma ListedCommentsSound(comments: map<nat, Comment>, nextCommentId: nat, users: map<nat, User>,
                            postId: nat, joined: seq<CommentView>, r: seq<CommentView>)
    requires joined == JoinComments(Query.Rows(comments, nextCommentId), users, postId)
    requires r == Query.SortByKey(joined, CommentNewestFirst)
    ensures forall i :: 0 <= i < |r| ==>
      && r[i].comment in comments.Values && r[i].comment.postId == postId
      && r[i].comment.userId in users && r[i].authorName == users[r[i].comment.userId].name
  {
    Query.SortByKeyMembers(joined, CommentNewestFirst);
    forall i | 0 <= i < |r|
      ensures r[i].comment in comments.Values && r[i].comment.postId == postId
      ensures r[i].comment.userId in users && r[i].authorName == users[r[i].comment.userId].name
    {
      assert r[i] in joined;
      var j :| 0 <= j < |joined| && joined[j] == r[i];
    }
  }

  lemma ListedCommentsUnique(comments: map<nat, Comment>, nextCommentId: nat, users: map<nat, User>,
                             postId: nat, joined: seq<CommentView>, r: seq<CommentView>)
    requires joined == JoinComments(Query.Rows(comments, nextCommentId), users, postId)
    requires r == Query.SortByKey(joined, CommentNewestFirst)
    ensures CommentsOk(comments, nextCommentId) ==> Query.UniqueBy(r, ViewCommentId)
  {
    if CommentsOk(comments, nextCommentId) {
      Query.RowsUnique(comments, nextCommentId, CommentId);
      JoinCommentsUnique(Query.Rows(comments, nextCommentId), users, postId);
      Query.UniqueSub(joined, r, ViewCommentId);
    }
  }

  lemma ListedCommentsComplete(comments: map<nat, Comment>, nextCommentId: nat, users: map<nat, User>,
                               postId: nat, joined: seq<CommentView>, r: seq<CommentView>)
    requires joined == JoinComments(Query.Rows(comments, nextCommentId), users, postId)
    requires r == Query.SortByKey(joined, CommentNewestFirst)
    ensures forall k: nat :: (k in comments && k < nextCommentId && comments[k].postId == postId
                              && comments[k].userId in users) ==>
      CommentView(comments[k], users[comments[k].userId].name) in r
  {
    Query.SortByKeyMembers(joined, CommentNewestFirst);
    forall k: nat | k in comments && k < nextCommentId && comments[k].postId == postId && comments[k].userId in users
      ensures CommentView(comments[k], users[comments[k].userId].name) in r
    {
      var rows := Query.Rows(comments, nextCommentId);
      Query.RowsContain(comments, nextCommentId, k);
      var i :| 0 <= i < |rows| && rows[i] == comments[k];
      assert CommentView(comments[k], users[comments[k].userId].name) in joined;
    }
  }
}
