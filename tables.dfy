/**
 * The database the routes share: one map per table from the auto-increment
 * primary key to the row, and the next key each table hands out. Columns the
 * handlers never read or write (timestamps other than `created_at`, the
 * entrepreneurs table) are not modelled.
 */
module Tables {
  import opened Wrappers

  /** A row of `users`. `is_woman_entrepreneur` is the 0/1 column as stored. */
  datatype User = User(
    id: nat, name: string, email: string, passwordHash: string,
    bio: Option<string>, profileImageUrl: Option<string>,
    isWomanEntrepreneur: int,
    refreshToken: Option<string>, refreshTokenExpire: Option<nat>)

  /** A row of `password_reset_tokens`; `used` is the 0/1 column. */
  datatype ResetTicket = ResetTicket(id: nat, userId: nat, token: string, expiresAt: nat, used: bool)

  /** A row of `orders`; `total_amount` is the JSON number as sent, fractions included. */
  datatype Order = Order(
    id: nat, userId: nat,
    customerName: Option<string>, customerPhone: Option<string>, description: Option<string>,
    totalAmount: real, status: Option<string>, scheduledAt: Option<string>, createdAt: nat)

  /** A row of `community_posts`. */
  datatype Post = Post(
    id: nat, userId: nat, title: Option<string>, body: Option<string>,
    imageUrl: Option<string>, isPublic: int, createdAt: nat)

  /** A row of `community_likes`: who liked which post. */
  datatype Like = Like(userId: nat, postId: nat)

  /** A row of `post_comments`. */
  datatype Comment = Comment(
    id: nat, postId: nat, userId: nat, content: string,
    parentCommentId: Option<nat>, createdAt: nat)

  /** A row of `challenges`. */
  datatype Challenge = Challenge(
    id: nat, userId: nat, title: Option<string>, description: Option<string>,
    deadline: Option<nat>, progress: Option<int>)

  /** No two users hold the same refresh token: the lookup by token names one session. */
  ghost predicate RefreshTokensDistinct(users: map<nat, User>) {
    forall j, k :: j in users && k in users && j != k && users[j].refreshToken.Some? ==>
      users[j].refreshToken != users[k].refreshToken
  }

  /** No two reset tickets carry the same token. */
  ghost predicate ResetTokensDistinct(tickets: map<nat, ResetTicket>) {
    forall j, k :: j in tickets && k in tickets && j != k ==> tickets[j].token != tickets[k].token
  }

  ghost predicate UsersOk(users: map<nat, User>, next: nat) {
    && 1 <= next
    && (forall k :: k in users ==> 1 <= k < next && users[k].id == k)
    && RefreshTokensDistinct(users)
  }

  ghost predicate TicketsOk(tickets: map<nat, ResetTicket>, next: nat) {
    && 1 <= next
    && (forall k :: k in tickets ==> 1 <= k < next && tickets[k].id == k)
    && ResetTokensDistinct(tickets)
  }

  ghost predicate OrdersOk(orders: map<nat, Order>, next: nat) {
    && 1 <= next
    && (forall k :: k in orders ==> 1 <= k < next && orders[k].id == k)
  }

  ghost predicate PostsOk(posts: map<nat, Post>, next: nat) {
    && 1 <= next
    && (forall k :: k in posts ==> 1 <= k < next && posts[k].id == k)
  }

  ghost predicate CommentsOk(comments: map<nat, Comment>, next: nat) {
    && 1 <= next
    && (forall k :: k in comments ==> 1 <= k < next && comments[k].id == k)
  }

  ghost predicate ChallengesOk(challenges: map<nat, Challenge>, next: nat) {
    && 1 <= next
    && (forall k :: k in challenges ==> 1 <= k < next && challenges[k].id == k)
  }

  class Database {
    var users: map<nat, User>
    var nextUserId: nat
    var tickets: map<nat, ResetTicket>
    var nextTicketId: nat
    var orders: map<nat, Order>
    var nextOrderId: nat
    var posts: map<nat, Post>
    var nextPostId: nat
    var likes: set<Like>
    var comments: map<nat, Comment>
    var nextCommentId: nat
    var challenges: map<nat, Challenge>
    var nextChallengeId: nat

    /** Keys are ids handed out by the counters, every row carries its own key, tokens are unique. */
    ghost predicate Valid()
      reads this
    {
      && UsersOk(users, nextUserId)
      && TicketsOk(tickets, nextTicketId)
      && OrdersOk(orders, nextOrderId)
      && PostsOk(posts, nextPostId)
      && CommentsOk(comments, nextCommentId)
      && ChallengesOk(challenges, nextChallengeId)
    }

    /** An empty database; AUTO_INCREMENT starts at 1. */
    constructor ()
      ensures Valid()
      ensures users == map[] && tickets == map[] && orders == map[] && posts == map[]
      ensures likes == {} && comments == map[] && challenges == map[]
      ensures nextUserId == 1 && nextTicketId == 1 && nextOrderId == 1 && nextPostId == 1
      ensures nextCommentId == 1 && nextChallengeId == 1
    {
      users, tickets, orders, posts := map[], map[], map[], map[];
      likes, comments, challenges := {}, map[], map[];
      nextUserId, nextTicketId, nextOrderId, nextPostId := 1, 1, 1, 1;
      nextCommentId, nextChallengeId := 1, 1;
    }
  }
}
