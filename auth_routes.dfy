/**
 * The `/api/auth` routes: register, login, refresh, forgot-password and
 * reset-password, each one atomic transition on the `users` and
 * `password_reset_tokens` tables returning the HTTP status it answers with.
 *
 * Foreign collaborators become parameters: the clock (`now`, milliseconds),
 * the salt bcrypt draws, the tokens `jwt.sign` and `crypto.randomBytes`
 * produce, `jwt.verify` under the refresh secret, and whether the mail
 * transport delivered the reset link.
 */
module AuthRoutes {
  import opened Wrappers
  import opened Js
  import opened Crypto
  import opened Tables
  import Query
  import opened AuthMiddleware

  /** `30 * 24 * 60 * 60 * 1000`: a refresh token is kept for 30 days. */
  const RefreshLifetime: nat := 30 * 24 * 60 * 60 * 1000

  /** `1000 * 60 * 30`: a reset ticket expires after 30 minutes. */
  const TicketLifetime: nat := 1000 * 60 * 30

  /** The body login answers with. */
  datatype LoginResponse = LoginResponse(
    accessToken: string, refreshToken: string, name: string, userId: nat, isWomanEntrepreneur: bool)

  /** The body refresh answers with. */
  datatype TokenPair = TokenPair(accessToken: string, refreshToken: string)

  // ---------------------------------------------------------------------------
  // What the handlers look up
  // ---------------------------------------------------------------------------

  /**
   * `column = ?` on the `name` and `email` columns compares under the column's
   * collation, which the schema chooses: MySQL's defaults ignore case, and
   * some ignore trailing spaces too. The handlers take that comparison as the
   * parameter `sameText(stored, given)`; a collation is an equivalence.
   */
  ghost predicate IsCollation(sameText: (string, string) -> bool) {
    && (forall a :: sameText(a, a))
    && (forall a, b :: sameText(a, b) ==> sameText(b, a))
    && (forall a, b, c :: sameText(a, b) && sameText(b, c) ==> sameText(a, c))
  }

  /** `SELECT * FROM users WHERE email = ? OR name = ?` finds a row. */
  ghost predicate NameOrEmailTaken(sameText: (string, string) -> bool, users: map<nat, User>,
                                   name: string, email: string) {
    exists k :: k in users && (sameText(users[k].email, email) || sameText(users[k].name, name))
  }

  /** `k` is the first row of `SELECT * FROM users WHERE name = ?`. */
  ghost predicate FirstNamed(sameText: (string, string) -> bool, users: map<nat, User>, name: string, k: nat) {
    && k in users && sameText(users[k].name, name)
    && forall j :: j in users && j < k ==> !sameText(users[j].name, name)
  }

  /** `k` is the first row of `SELECT id, email FROM users WHERE email = ?`. */
  ghost predicate FirstWithEmail(sameText: (string, string) -> bool, users: map<nat, User>, email: string, k: nat) {
    && k in users && sameText(users[k].email, email)
    && forall j :: j in users && j < k ==> !sameText(users[j].email, email)
  }

  /** Some row of `users` holds this refresh token. */
  ghost predicate TokenHeld(users: map<nat, User>, token: string) {
    exists k :: k in users && users[k].refreshToken == Some(token)
  }

  /** A newly signed refresh token differs from every stored one. */
  ghost predicate FreshRefreshToken(users: map<nat, User>, token: string) {
    forall k :: k in users ==> users[k].refreshToken != Some(token)
  }

  /** A newly drawn reset token differs from every stored ticket's. */
  ghost predicate FreshTicketToken(tickets: map<nat, ResetTicket>, token: string) {
    forall k :: k in tickets ==> tickets[k].token != token
  }

  /** Ticket `j` carries the token, is unused and has not expired at `now`. */
  ghost predicate Redeemable(tickets: map<nat, ResetTicket>, j: nat, token: string, now: nat) {
    j in tickets && tickets[j].token == token && !tickets[j].used && now <= tickets[j].expiresAt
  }

  // ---------------------------------------------------------------------------
  // The writes
  // ---------------------------------------------------------------------------

  /**
   * `UPDATE users SET refresh_token = ?, refresh_token_expire = ? WHERE id = ?`:
   * no row changes when the id is unknown.
   */
  function StoreRefreshToken(users: map<nat, User>, id: nat, token: string, now: nat): (r: map<nat, User>)
    ensures r.Keys == users.Keys
    ensures forall k :: k in users && k != id ==> r[k] == users[k]
    ensures id in users ==> r[id] == users[id].(refreshToken := Some(token),
                                                  refreshTokenExpire := Some(now + RefreshLifetime))
  {
    if id in users then
      users[id := users[id].(refreshToken := Some(token), refreshTokenExpire := Some(now + RefreshLifetime))]
    else users
  }

  /** `UPDATE users SET password_hash = ? WHERE id = ?`. */
  function StorePasswordHash(users: map<nat, User>, id: nat, hash: string): (r: map<nat, User>)
    ensures r.Keys == users.Keys
    ensures forall k :: k in users && k != id ==> r[k] == users[k]
    ensures id in users ==> r[id] == users[id].(passwordHash := hash)
  {
    if id in users then users[id := users[id].(passwordHash := hash)] else users
  }

  /**
   * `DELETE FROM password_reset_tokens WHERE user_id = ?` followed by the
   * `INSERT` of the new ticket.
   */
  function ReplaceTicket(tickets: map<nat, ResetTicket>, t: ResetTicket): (r: map<nat, ResetTicket>)
    ensures t.id in r && r[t.id] == t
    ensures forall k :: k in r && k != t.id ==> k in tickets && r[k] == tickets[k] && r[k].userId != t.userId
    ensures forall k :: k in tickets && tickets[k].userId != t.userId && k != t.id ==> k in r
  {
    (map k | k in tickets && tickets[k].userId != t.userId :: tickets[k])[t.id := t]
  }

  /** Storing a fresh refresh token retires the one the row held, everywhere. */
  lemma StoreRetiresOldToken(users: map<nat, User>, id: nat, token: string, now: nat)
    requires RefreshTokensDistinct(users) && FreshRefreshToken(users, token)
    requires id in users && users[id].refreshToken.Some?
    ensures forall k :: k in StoreRefreshToken(users, id, token, now) ==>
              StoreRefreshToken(users, id, token, now)[k].refreshToken != users[id].refreshToken
    ensures RefreshTokensDistinct(StoreRefreshToken(users, id, token, now))
  {
  }

  /** After forgot-password the user holds exactly one ticket, the new one. */
  lemma ReplaceLeavesOneTicket(tickets: map<nat, ResetTicket>, t: ResetTicket)
    ensures forall k :: k in ReplaceTicket(tickets, t) && ReplaceTicket(tickets, t)[k].userId == t.userId ==> k == t.id
  {
  }

  // ---------------------------------------------------------------------------
  // The routes
  // ---------------------------------------------------------------------------

  /**
   * POST /register. `isWomanEntrepreneur` is the truthiness of that body field.
   * Answers 400 for a missing field or a taken name or email, else inserts the
   * user with the bcrypt hash of the password and answers 201.
   */
  method Register(db: Database, sameText: (string, string) -> bool,
                  name: Option<string>, email: Option<string>, password: Option<string>,
                  isWomanEntrepreneur: bool, salt: Salt) returns (status: int)
    requires db.Valid()
    modifies db`users, db`nextUserId
    ensures db.Valid()
    ensures status == 201 || status == 400
    ensures !Truthy(name) || !Truthy(email) || !Truthy(password) ==> status == 400
    ensures status == 201 <==>
      Truthy(name) && Truthy(email) && Truthy(password)
      && !NameOrEmailTaken(sameText, old(db.users), name.value, email.value)
    ensures status == 400 ==> db.users == old(db.users) && db.nextUserId == old(db.nextUserId)
    ensures status == 201 ==>
      var id := old(db.nextUserId);
      && id !in old(db.users)
      && db.nextUserId == id + 1
      && db.users == old(db.users)[id := User(id, name.value, email.value, Hash(password.value, salt), None, None,
                                              if isWomanEntrepreneur then 1 else 0, None, None)]
  {
    if !Truthy(name) || !Truthy(email) || !Truthy(password) {
      return 400;
    }
    var n, e := name.value, email.value;
    var existing := Query.FirstKey(db.users, (u: User) => sameText(u.email, e) || sameText(u.name, n), 0, db.nextUserId);
    if existing.Some? {
      return 400;
    }
    var id := db.nextUserId;
    var flag := if isWomanEntrepreneur then 1 else 0;
    db.users := db.users[id := User(id, n, e, Hash(password.value, salt), None, None, flag, None, None)];
    db.nextUserId := id + 1;
    status := 201;
  }

  /**
   * POST /login. Looks the user up by name, checks the password with bcrypt and
   * stores the new refresh token, 30 days out, on that row only.
   */
  method Login(db: Database, sameText: (string, string) -> bool, name: Option<string>, password: Option<string>,
               now: nat,
               accessToken: string, refreshToken: string)
    returns (status: int, response: Option<LoginResponse>)
    requires db.Valid()
    requires FreshRefreshToken(db.users, refreshToken)
    modifies db`users
    ensures db.Valid()
    ensures status == 200 || status == 400 || status == 401
    ensures status == 400 <==> !Truthy(name) || !Truthy(password)
    ensures status == 200 <==>
      Truthy(name) && Truthy(password)
      && exists k :: FirstNamed(sameText, old(db.users), name.value, k)
                     && Compare(password.value, old(db.users)[k].passwordHash)
    ensures status != 200 ==> db.users == old(db.users) && response.None?
    ensures status == 200 ==>
      response.Some? && var k := response.value.userId;
      && FirstNamed(sameText, old(db.users), name.value, k)
      && db.users == StoreRefreshToken(old(db.users), k, refreshToken, now)
      && response.value == LoginResponse(accessToken, refreshToken, old(db.users)[k].name, k,
                                         old(db.users)[k].isWomanEntrepreneur == 1)
  {
    response := None;
    if !Truthy(name) || !Truthy(password) {
      return 400, None;
    }
    var n := name.value;
    var found := Query.FirstKey(db.users, (u: User) => sameText(u.name, n), 0, db.nextUserId);
    if found.None? {
      return 401, None;
    }
    var k := found.value;
    var user := db.users[k];
    assert FirstNamed(sameText, db.users, n, k);
    if !Compare(password.value, user.passwordHash) {
      forall j | FirstNamed(sameText, db.users, n, j) ensures j == k { }
      return 401, None;
    }
    db.users := StoreRefreshToken(db.users, k, refreshToken, now);
    status := 200;
    response := Some(LoginResponse(accessToken, refreshToken, user.name, k, user.isWomanEntrepreneur == 1));
  }

  /**
   * POST /refresh. Looks the user up by the presented token, verifies it, and
   * stores a new refresh token on the row named by the decoded payload's id.
   */
  method Refresh(db: Database, presented: Option<string>, verify: string -> Option<Claims>, now: nat,
                 accessToken: string, refreshToken: string)
    returns (status: int, response: Option<TokenPair>)
    requires db.Valid()
    requires FreshRefreshToken(db.users, refreshToken)
    modifies db`users
    ensures db.Valid()
    ensures status == 200 || status == 400 || status == 403
    ensures status == 400 <==> !Truthy(presented)
    ensures status == 403 <==>
      Truthy(presented) && (!TokenHeld(old(db.users), presented.value) || verify(presented.value).None?)
    ensures status != 200 ==> db.users == old(db.users) && response.None?
    ensures status == 200 ==>
      && verify(presented.value).Some?
      && db.users == StoreRefreshToken(old(db.users), verify(presented.value).value.id, refreshToken, now)
      && response == Some(TokenPair(accessToken, refreshToken))
  {
    if !Truthy(presented) {
      return 400, None;
    }
    var tok := presented.value;
    var found := Query.FirstKey(db.users, (u: User) => u.refreshToken == Some(tok), 0, db.nextUserId);
    if found.None? {
      return 403, None;
    }
    var decoded := verify(tok);
    if decoded.None? {
      return 403, None;
    }
    db.users := StoreRefreshToken(db.users, decoded.value.id, refreshToken, now);
    status := 200;
    response := Some(TokenPair(accessToken, refreshToken));
  }

  /**
   * POST /forgot-password. Replaces the user's ticket by a new unused one
   * expiring 30 minutes from now. The ticket is committed before the mail is
   * sent, so a failed delivery answers 500 with the ticket in place.
   */
  method ForgotPassword(db: Database, sameText: (string, string) -> bool, email: Option<string>, now: nat,
                        token: string, mailDelivered: bool)
    returns (status: int)
    requires db.Valid()
    requires FreshTicketToken(db.tickets, token)
    modifies db`tickets, db`nextTicketId
    ensures db.Valid()
    ensures status == 200 || status == 400 || status == 404 || status == 500
    ensures status == 400 <==> !Truthy(email)
    ensures status == 404 <==> Truthy(email) && forall k :: k in db.users ==> !sameText(db.users[k].email, email.value)
    ensures status == 400 || status == 404 ==>
      db.tickets == old(db.tickets) && db.nextTicketId == old(db.nextTicketId)
    ensures status == 200 || status == 500 ==>
      && (status == 200 <==> mailDelivered)
      && db.nextTicketId == old(db.nextTicketId) + 1
      && exists k :: FirstWithEmail(sameText, db.users, email.value, k)
                     && db.tickets == ReplaceTicket(old(db.tickets),
                                                    ResetTicket(old(db.nextTicketId), k, token, now + TicketLifetime, false))
  {
    if !Truthy(email) {
      return 400;
    }
    var e := email.value;
    var found := Query.FirstKey(db.users, (u: User) => sameText(u.email, e), 0, db.nextUserId);
    if found.None? {
      return 404;
    }
    var k := found.value;
    assert FirstWithEmail(sameText, db.users, e, k);
    var ticket := ResetTicket(db.nextTicketId, k, token, now + TicketLifetime, false);
    db.tickets := ReplaceTicket(db.tickets, ticket);
    db.nextTicketId := db.nextTicketId + 1;
    status := if mailDelivered then 200 else 500;
  }

  /**
   * POST /reset-password/:token. Redeems an unused, unexpired ticket once: the
   * owner's password hash is replaced and the ticket marked used.
   */
  method ResetPassword(db: Database, token: string, password: Option<string>, now: nat, salt: Salt)
    returns (status: int)
    requires db.Valid()
    modifies db`users, db`tickets
    ensures db.Valid()
    ensures status == 200 || status == 400
    ensures status == 200 <==> Truthy(password) && exists j :: Redeemable(old(db.tickets), j, token, now)
    ensures status == 400 ==> db.users == old(db.users) && db.tickets == old(db.tickets)
    ensures status == 200 ==>
      exists j :: Redeemable(old(db.tickets), j, token, now)
                  && db.tickets == old(db.tickets)[j := old(db.tickets)[j].(used := true)]
                  && db.users == StorePasswordHash(old(db.users), old(db.tickets)[j].userId, Hash(password.value, salt))
  {
    if !Truthy(password) {
      return 400;
    }
    var found := Query.FirstKey(db.tickets, (t: ResetTicket) => t.token == token && !t.used, 0, db.nextTicketId);
    if found.None? {
      forall i: nat | Redeemable(db.tickets, i, token, now) ensures false {
        assert i < db.nextTicketId;
      }
      return 400;
    }
    var j := found.value;
    var ticket := db.tickets[j];
    if now > ticket.expiresAt {
      return 400;
    }
    assert Redeemable(db.tickets, j, token, now);
    db.users := StorePasswordHash(db.users, ticket.userId, Hash(password.value, salt));
    db.tickets := db.tickets[j := ticket.(used := true)];
    status := 200;
  }

  // ---------------------------------------------------------------------------
  // What callers can rely on across calls
  // ---------------------------------------------------------------------------

  /** A reset ticket is single use: the same link a second time, at any time, answers 400. */
  method ResetTwice(db: Database, token: string, p1: string, p2: string, now: nat, later: nat, s1: Salt, s2: Salt)
    returns (first: int, second: int)
    requires db.Valid()
    modifies db`users, db`tickets
    ensures first == 200 ==> second == 400
  {
    first := ResetPassword(db, token, Some(p1), now, s1);
    second := ResetPassword(db, token, Some(p2), later, s2);
  }

  /** After a rotation the presented refresh token matches no row: presenting it again, at any time, answers 403. */
  method RefreshTwice(db: Database, token: string, verify: string -> Option<Claims>, holder: nat, now: nat, later: nat,
                      a1: string, r1: string, a2: string, r2: string)
    returns (first: int, second: int)
    requires db.Valid()
    requires token != "" && holder in db.users && db.users[holder].refreshToken == Some(token)
    requires verify(token) == Some(Claims(holder))
    requires FreshRefreshToken(db.users, r1) && FreshRefreshToken(db.users, r2) && r1 != r2
    modifies db`users
    ensures first == 200 && second == 403
  {
    var pair;
    first, pair := Refresh(db, Some(token), verify, now, a1, r1);
    StoreRetiresOldToken(old(db.users), holder, r1, now);
    second, pair := Refresh(db, Some(token), verify, later, a2, r2);
  }

  /**
   * Whoever registers can log in at once with the same name and password, and
   * gets the row just inserted, whatever rows the table held before.
   */
  method RegisterThenLogin(db: Database, sameText: (string, string) -> bool, name: string, email: string,
                           password: string, isWomanEntrepreneur: bool, salt: Salt, now: nat,
                           accessToken: string, refreshToken: string)
    returns (registered: int, loggedIn: int, response: Option<LoginResponse>)
    requires db.Valid() && IsCollation(sameText)
    requires name != "" && email != "" && password != ""
    requires FreshRefreshToken(db.users, refreshToken)
    modifies db`users, db`nextUserId
    ensures registered == 201 <==> !NameOrEmailTaken(sameText, old(db.users), name, email)
    ensures registered == 201 ==>
      loggedIn == 200 && response.Some? && response.value.userId == old(db.nextUserId)
  {
    registered := Register(db, sameText, Some(name), Some(email), Some(password), isWomanEntrepreneur, salt);
    if registered == 201 {
      var id := old(db.nextUserId);
      assert FirstNamed(sameText, db.users, name, id);
      CompareHash(password, password, salt);
      assert Compare(password, db.users[id].passwordHash);
    }
    loggedIn, response := Login(db, sameText, Some(name), Some(password), now, accessToken, refreshToken);
  }

  /**
   * Register alice, log in, fail with a wrong password, request a reset,
   * redeem it, then only the new password logs in.
   */
  method AliceScenario(sameText: (string, string) -> bool, saltA: Salt, saltB: Salt, now: nat)
    returns (registered: int, loggedIn: int, wrongPassword: int, forgot: int, reset: int,
             newPassword: int, oldPassword: int)
    requires IsCollation(sameText)
    ensures registered == 201 && loggedIn == 200 && wrongPassword == 401 && forgot == 200
    ensures reset == 200 && newPassword == 200 && oldPassword == 401
  {
    var db := new Database();
    registered := Register(db, sameText, Some("alice"), Some("alice@x.com"), Some("pw123"), false, saltA);
    var alice := User(1, "alice", "alice@x.com", Hash("pw123", saltA), None, None, 0, None, None);
    assert db.users == map[1 := alice];
    CompareHash("pw123", "pw123", saltA);
    loggedIn := LoginAccepted(db, sameText, alice, "pw123", now, "rt1");
    alice := alice.(refreshToken := Some("rt1"), refreshTokenExpire := Some(now + RefreshLifetime));
    CompareHash("wrong", "pw123", saltA);
    wrongPassword := LoginRefused(db, sameText, alice, "wrong", now);
    forgot := ForgotAccepted(db, sameText, alice, now, "ticket");
    reset := ResetAccepted(db, alice, now, "ticket", "pw456", saltB);
    alice := alice.(passwordHash := Hash("pw456", saltB));
    CompareHash("pw456", "pw456", saltB);
    newPassword := LoginAccepted(db, sameText, alice, "pw456", now, "rt3");
    alice := alice.(refreshToken := Some("rt3"));
    CompareHash("pw123", "pw456", saltB);
    oldPassword := LoginRefused(db, sameText, alice, "pw123", now);
  }

  /** Login as the only user with the matching password answers 200 and stores the token. */
  method LoginAccepted(db: Database, sameText: (string, string) -> bool, user: User, password: string, now: nat,
                       token: string) returns (status: int)
    requires db.Valid() && IsCollation(sameText) && db.users == map[1 := user] && user.name != "" && password != ""
    requires user.refreshToken != Some(token)
    requires Compare(password, user.passwordHash)
    modifies db`users
    ensures status == 200
    ensures db.users == map[1 := user.(refreshToken := Some(token), refreshTokenExpire := Some(now + RefreshLifetime))]
    ensures db.Valid()
  {
    assert FirstNamed(sameText, db.users, user.name, 1);
    var body;
    status, body := Login(db, sameText, Some(user.name), Some(password), now, "access", token);
    assert body.value.userId == 1;
  }

  /** Login as the only user with a password that does not match answers 401. */
  method LoginRefused(db: Database, sameText: (string, string) -> bool, user: User, password: string, now: nat)
    returns (status: int)
    requires db.Valid() && IsCollation(sameText) && db.users == map[1 := user] && user.name != "" && password != ""
    requires user.refreshToken != Some("rt-refused")
    requires !Compare(password, user.passwordHash)
    modifies db`users
    ensures status == 401 && db.users == old(db.users)
  {
    assert FirstNamed(sameText, db.users, user.name, 1);
    var body;
    status, body := Login(db, sameText, Some(user.name), Some(password), now, "access", "rt-refused");
  }

  /** A reset request for the only user's email, with no ticket yet, issues ticket 1. */
  method ForgotAccepted(db: Database, sameText: (string, string) -> bool, user: User, now: nat, token: string)
    returns (status: int)
    requires db.Valid() && IsCollation(sameText) && db.users == map[1 := user] && user.email != ""
    requires db.tickets == map[] && db.nextTicketId == 1
    modifies db`tickets, db`nextTicketId
    ensures status == 200 && db.Valid()
    ensures db.tickets == map[1 := ResetTicket(1, 1, token, now + TicketLifetime, false)]
  {
    assert FirstWithEmail(sameText, db.users, user.email, 1);
    status := ForgotPassword(db, sameText, Some(user.email), now, token, true);
    assert db.tickets == ReplaceTicket(map[], ResetTicket(1, 1, token, now + TicketLifetime, false));
  }
  /** Redeeming that ticket at once answers 200 and stores the new hash. */
  method ResetAccepted(db: Database, user: User, now: nat, token: string, password: string, salt: Salt)
    returns (status: int)
    requires db.Valid() && db.users == map[1 := user] && password != ""
    requires db.tickets == map[1 := ResetTicket(1, 1, token, now + TicketLifetime, false)]
    modifies db`users, db`tickets
    ensures status == 200 && db.Valid()
    ensures db.users == map[1 := user.(passwordHash := Hash(password, salt))]
  {
    assert Redeemable(db.tickets, 1, token, now);
    status := ResetPassword(db, token, Some(password), now, salt);
  }
}
