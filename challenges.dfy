/**
 * The challenge routes: their own copy of the bearer-token guard, the
 * requester's challenges by deadline, and add, update and delete. Update and
 * delete are scoped to the requester's rows but answer success whether or not
 * a row matched.
 *
 * A deadline arrives as a timestamp; `None` stands for an absent or empty field.
 */
module Challenges {
  import opened Wrappers
  import opened Js
  import opened Tables
  import opened AuthMiddleware
  import Query

  // ---------------------------------------------------------------------------
  // The local guard
  // ---------------------------------------------------------------------------

  /** `authHeader && authHeader.split(' ')[1]`: a falsy header is itself the (falsy) token. */
  function LocalToken(header: Option<string>): (t: Option<string>)
    ensures !Truthy(header) ==> !Truthy(t)
    ensures Truthy(header) ==> t == BearerToken(header.value)
  {
    if Truthy(header) then BearerToken(header.value) else header
  }

  /** The guard declared in the challenges router: 401 without a token, 403 when verification fails. */
  function LocalVerifyToken(header: Option<string>, verify: string -> Option<Claims>): (g: Guard)
    ensures g == Reject(401) <==> !Truthy(LocalToken(header))
    ensures g == Reject(403) <==> Truthy(LocalToken(header)) && verify(LocalToken(header).value).None?
    ensures g.Next? ==> Truthy(LocalToken(header)) && verify(LocalToken(header).value) == Some(g.user)
  {
    var token := LocalToken(header);
    if !Truthy(token) then Reject(401)
    else
      match verify(token.value)
      case None => Reject(403)
      case Some(user) => Next(user)
  }

  /** The copy behaves exactly as the shared middleware on every header and every verifier. */
  lemma LocalGuardAgrees(header: Option<string>, verify: string -> Option<Claims>)
    ensures LocalVerifyToken(header, verify) == VerifyToken(header, verify)
  {
  }

  // ---------------------------------------------------------------------------
  // Listing
  // ---------------------------------------------------------------------------

  /** The `id` column of a challenge row. */
  function ChallengeId(c: Challenge): nat {
    c.id
  }

  /** ORDER BY deadline ASC; MySQL puts NULL before every date. */
  function DeadlineKey(c: Challenge): int {
    if c.deadline.None? then -1 else c.deadline.value
  }

  /**
   * GET /challenges: every challenge of the requester, each once, those
   * without a deadline first, the rest by ascending deadline.
   */
  function ListChallenges(challenges: map<nat, Challenge>, nextChallengeId: nat, userId: nat): (r: seq<Challenge>)
    ensures forall i :: 0 <= i < |r| ==> r[i] in challenges.Values && r[i].userId == userId
    ensures forall k: nat :: k in challenges && k < nextChallengeId && challenges[k].userId == userId ==>
      challenges[k] in r
    ensures forall i, j :: 0 <= i < j < |r| && r[j].deadline.None? ==> r[i].deadline.None?
    ensures forall i, j :: 0 <= i < j < |r| && r[i].deadline.Some? && r[j].deadline.Some? ==>
      r[i].deadline.value <= r[j].deadline.value
    ensures ChallengesOk(challenges, nextChallengeId) ==> forall i, j :: 0 <= i < j < |r| ==> r[i].id != r[j].id
  {
    var own := Query.Filter(Query.Rows(challenges, nextChallengeId), (c: Challenge) => c.userId == userId);
    var r := Query.SortByKey(own, DeadlineKey);
    ListedChallengesExact(challenges, nextChallengeId, userId, own, r);
    ListedChallengesUnique(challenges, nextChallengeId, userId, own, r);
    Query.SortByKeySorted(own, DeadlineKey);
    DeadlineOrder(r);
    r
  }

  /** Ascending by DeadlineKey: the undated ones first, then by date. */
  lemma DeadlineOrder(r: seq<Challenge>)
    requires Query.SortedBy(r, DeadlineKey)
    ensures forall i, j :: 0 <= i < j < |r| && r[j].deadline.None? ==> r[i].deadline.None?
    ensures forall i, j :: 0 <= i < j < |r| && r[i].deadline.Some? && r[j].deadline.Some? ==>
      r[i].deadline.value <= r[j].deadline.value
  {
    forall i, j | 0 <= i < j < |r| ensures DeadlineKey(r[i]) <= DeadlineKey(r[j]) {
    }
  }

  lemma ListedChallengesExact(challenges: map<nat, Challenge>, nextChallengeId: nat, userId: nat,
                              own: seq<Challenge>, r: seq<Challenge>)
    requires own == Query.Filter(Query.Rows(challenges, nextChallengeId), (c: Challenge) => c.userId == userId)
    requires r == Query.SortByKey(own, DeadlineKey)
    ensures forall i :: 0 <= i < |r| ==> r[i] in challenges.Values && r[i].userId == userId
    ensures forall k: nat :: k in challenges && k < nextChallengeId && challenges[k].userId == userId ==>
      challenges[k] in r
  {
    var rows := Query.Rows(challenges, nextChallengeId);
    Query.SortByKeyMembers(own, DeadlineKey);
    forall i | 0 <= i < |r| ensures r[i] in challenges.Values && r[i].userId == userId {
      assert r[i] in own;
      var j :| 0 <= j < |own| && own[j] == r[i];
      var m :| 0 <= m < |rows| && rows[m] == r[i];
    }
    forall k: nat | k in challenges && k < nextChallengeId && challenges[k].userId == userId
      ensures challenges[k] in r
    {
      Query.RowsContain(challenges, nextChallengeId, k);
      var m :| 0 <= m < |rows| && rows[m] == challenges[k];
      assert challenges[k] in own;
    }
  }

  /** On a well-formed table no challenge is listed twice. */
  lemma ListedChallengesUnique(challenges: map<nat, Challenge>, nextChallengeId: nat, userId: nat,
                               own: seq<Challenge>, r: seq<Challenge>)
    requires own == Query.Filter(Query.Rows(challenges, nextChallengeId), (c: Challenge) => c.userId == userId)
    requires r == Query.SortByKey(own, DeadlineKey)
    ensures ChallengesOk(challenges, nextChallengeId) ==> Query.UniqueBy(r, ChallengeId)
  {
    if ChallengesOk(challenges, nextChallengeId) {
      var rows := Query.Rows(challenges, nextChallengeId);
      Query.RowsUnique(challenges, nextChallengeId, ChallengeId);
      Query.UniqueSub(rows, own, ChallengeId);
      Query.UniqueSub(own, r, ChallengeId);
    }
  }

  // ---------------------------------------------------------------------------
  // Changes
  // ---------------------------------------------------------------------------

  /**
   * POST /challenges. Answers 400 without a title or a deadline; otherwise
   * inserts one challenge owned by the requester with progress 0 and answers
   * 201 with that row as re-read by its new id.
   */
  method AddChallenge(db: Database, userId: nat, title: Option<string>, description: Option<string>,
                      deadline: Option<nat>)
    returns (status: int, created: Option<Challenge>)
    requires db.Valid()
    modifies db`challenges, db`nextChallengeId
    ensures db.Valid()
    ensures status == 201 || status == 400
    ensures status == 400 <==> !Truthy(title) || deadline.None?
    ensures status == 400 ==>
      db.challenges == old(db.challenges) && db.nextChallengeId == old(db.nextChallengeId) && created.None?
    ensures status == 201 ==>
      && db.nextChallengeId == old(db.nextChallengeId) + 1
      && old(db.nextChallengeId) !in old(db.challenges)
      && created == Some(Challenge(old(db.nextChallengeId), userId, title, description, deadline, Some(0)))
      && db.challenges == old(db.challenges)[old(db.nextChallengeId) := created.value]
  {
    if !Truthy(title) || deadline.None? {
      return 400, None;
    }
    var insertId := db.nextChallengeId;
    db.challenges := db.challenges[insertId := Challenge(insertId, userId, title, description, deadline, Some(0))];
    db.nextChallengeId := db.nextChallengeId + 1;
    created := Some(db.challenges[insertId]);
    status := 201;
  }

  /** The row `WHERE id=? AND user_id=?` matches on the challenges table. */
  predicate OwnsChallenge(challenges: map<nat, Challenge>, id: nat, userId: nat) {
    id in challenges && challenges[id].userId == userId
  }

  /**
   * PUT /challenges/:id. Rewrites title, description, deadline and progress of
   * the requester's challenge; answers 200 whether or not a row matched.
   */
  method UpdateChallenge(db: Database, id: nat, userId: nat, title: Option<string>, description: Option<string>,
                         deadline: Option<nat>, progress: Option<int>)
    returns (status: int)
    requires db.Valid()
    modifies db`challenges
    ensures db.Valid()
    ensures status == 200
    ensures !OwnsChallenge(old(db.challenges), id, userId) ==> db.challenges == old(db.challenges)
    ensures OwnsChallenge(old(db.challenges), id, userId) ==>
      db.challenges == old(db.challenges)[id := Challenge(id, userId, title, description, deadline, progress)]
  {
    if OwnsChallenge(db.challenges, id, userId) {
      db.challenges := db.challenges[id := Challenge(id, userId, title, description, deadline, progress)];
    }
    status := 200;
  }

  /**
   * DELETE /challenges/:id. Removes the requester's challenge with that id;
   * answers 200 whether or not a row matched.
   */
  method DeleteChallenge(db: Database, id: nat, userId: nat) returns (status: int)
    requires db.Valid()
    modifies db`challenges
    ensures db.Valid()
    ensures status == 200
    ensures !OwnsChallenge(old(db.challenges), id, userId) ==> db.challenges == old(db.challenges)
    ensures OwnsChallenge(old(db.challenges), id, userId) ==> db.challenges == old(db.challenges) - {id}
  {
    if OwnsChallenge(db.challenges, id, userId) {
      db.challenges := db.challenges - {id};
    }
    status := 200;
  }

  /**
   * The answer does not tell the requester whether anything happened: a
   * stranger's delete and the owner's delete both answer 200, and only the
   * owner's removes the row.
   */
  method DeleteIsSilent(db: Database, id: nat, owner: nat, stranger: nat)
    returns (strangerStatus: int, ownerStatus: int)
    requires db.Valid() && OwnsChallenge(db.challenges, id, owner) && stranger != owner
    modifies db`challenges
    ensures strangerStatus == ownerStatus == 200
    ensures db.challenges == old(db.challenges) - {id}
  {
    strangerStatus := DeleteChallenge(db, id, stranger);
    assert db.challenges == old(db.challenges);
    ownerStatus := DeleteChallenge(db, id, owner);
  }
}
