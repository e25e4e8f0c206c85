/**
 * The user routes: the requester's own profile, the profile update that
 * builds its `SET` list from the non-blank request fields, and the public
 * profile of any user by the id in the URL.
 */
module UserRoutes {
  import opened Wrappers
  import opened Js
  import opened Tables

  // ---------------------------------------------------------------------------
  // Profile columns
  // ---------------------------------------------------------------------------

  /** The columns the profile update may list in its `SET` clause, in the order it tries them. */
  datatype Column = Name | Email | Bio | ProfileImageUrl

  /** Position of a column in the order the handler pushes them. */
  function Rank(c: Column): nat {
    match c
    case Name => 0
    case Email => 1
    case Bio => 2
    case ProfileImageUrl => 3
  }

  /** The value of a profile column of a row; `name` and `email` are NOT NULL. */
  function Get(u: User, c: Column): Option<string> {
    match c
    case Name => Some(u.name)
    case Email => Some(u.email)
    case Bio => u.bio
    case ProfileImageUrl => u.profileImageUrl
  }

  /** Two rows agree on every column the profile update never writes. */
  predicate SameNonProfile(a: User, b: User) {
    && a.id == b.id && a.passwordHash == b.passwordHash && a.isWomanEntrepreneur == b.isWomanEntrepreneur
    && a.refreshToken == b.refreshToken && a.refreshTokenExpire == b.refreshTokenExpire
  }

  /** Rows that agree on the profile columns and on the rest are the same row. */
  lemma UserExtensionality(a: User, b: User)
    requires SameNonProfile(a, b)
    requires forall c :: Get(a, c) == Get(b, c)
    ensures a == b
  {
    assert Get(a, Name) == Get(b, Name);
    assert Get(a, Email) == Get(b, Email);
    assert Get(a, Bio) == Get(b, Bio);
    assert Get(a, ProfileImageUrl) == Get(b, ProfileImageUrl);
  }

  // ---------------------------------------------------------------------------
  // The request and what it asks to change
  // ---------------------------------------------------------------------------

  /** The multipart request: three text fields and the stored name of the uploaded file, if any. */
  datatype ProfileRequest = ProfileRequest(
    name: Option<string>, email: Option<string>, bio: Option<string>, uploadedFile: Option<string>)

  /** `s && s.trim() !== ''`: present, and not white space only. */
  predicate Qualifies(s: Option<string>) {
    Truthy(s) && Trim(s.value) != ""
  }

  /** A text field qualifies exactly when it holds a character that is not white space. */
  lemma QualifiesIff(s: Option<string>)
    ensures Qualifies(s) <==> s.Some? && !AllWhiteSpace(s.value)
  {
    if s.Some? {
      TrimEmptyIff(s.value);
    }
  }

  /** Where an uploaded image is served from. */
  function ImagePath(filename: string): (p: string)
    ensures |p| == 15 + |filename|
    ensures p[..15] == "profile_images/" && p[15..] == filename
  {
    "profile_images/" + filename
  }

  /** Whether the request asks to change column `c`. */
  predicate Listed(c: Column, req: ProfileRequest) {
    match c
    case Name => Qualifies(req.name)
    case Email => Qualifies(req.email)
    case Bio => Qualifies(req.bio)
    case ProfileImageUrl => req.uploadedFile.Some?
  }

  /** The value the request stores in column `c`: the trimmed text, or the image path. */
  function NewValue(c: Column, req: ProfileRequest): string {
    match c
    case Name => if req.name.Some? then Trim(req.name.value) else ""
    case Email => if req.email.Some? then Trim(req.email.value) else ""
    case Bio => if req.bio.Some? then Trim(req.bio.value) else ""
    case ProfileImageUrl => if req.uploadedFile.Some? then ImagePath(req.uploadedFile.value) else ""
  }

  /** A stored text value never starts or ends with white space, and is never empty. */
  lemma NewValueTrimmed(c: Column, req: ProfileRequest)
    requires Listed(c, req) && c != ProfileImageUrl
    ensures NewValue(c, req) != ""
    ensures !IsWhiteSpace(NewValue(c, req)[0]) && !IsWhiteSpace(NewValue(c, req)[|NewValue(c, req)| - 1])
  {
  }

  /**
   * The row the request describes: each listed column takes its new value,
   * every other column keeps its old one.
   */
  function Updated(u: User, req: ProfileRequest): (r: User)
    ensures SameNonProfile(r, u)
    ensures forall c :: Get(r, c) == if Listed(c, req) then Some(NewValue(c, req)) else Get(u, c)
  {
    WriteIfListed(WriteIfListed(WriteIfListed(WriteIfListed(u, Name, req), Email, req), Bio, req),
                  ProfileImageUrl, req)
  }

  /** Column `c` of the row takes the request's value when the request lists it. */
  function WriteIfListed(u: User, c: Column, req: ProfileRequest): (r: User)
    ensures SameNonProfile(r, u)
    ensures Get(r, c) == if Listed(c, req) then Some(NewValue(c, req)) else Get(u, c)
    ensures forall d :: d != c ==> Get(r, d) == Get(u, d)
  {
    if Listed(c, req) then Assign(u, c, NewValue(c, req)) else u
  }

  // ---------------------------------------------------------------------------
  // The dynamic UPDATE statement
  // ---------------------------------------------------------------------------

  /** A bound placeholder value: text for a `col = ?`, the numeric id for `WHERE id = ?`. */
  datatype SqlValue = Text(text: string) | Id(id: nat)

  /**
   * The `fields` / `values` lists, before the id is appended: one `col = ?`
   * per listed column, in the order name, email, bio, image, each value the
   * one the request stores there.
   */
  method BuildUpdate(req: ProfileRequest) returns (fields: seq<Column>, values: seq<SqlValue>)
    ensures |fields| == |values|
    ensures forall c :: c in fields <==> Listed(c, req)
    ensures forall i :: 0 <= i < |fields| ==> values[i] == Text(NewValue(fields[i], req))
    ensures forall i, j :: 0 <= i < j < |fields| ==> Rank(fields[i]) < Rank(fields[j])
  {
    fields, values := [], [];
    assert BuiltBelow(fields, values, req, Rank(Name));
    fields, values := PushIfListed(fields, values, Name, req);
    fields, values := PushIfListed(fields, values, Email, req);
    fields, values := PushIfListed(fields, values, Bio, req);
    fields, values := PushIfListed(fields, values, ProfileImageUrl, req);
    BuiltBelowAll(fields, values, req);
  }

  lemma BuiltBelowAll(fields: seq<Column>, values: seq<SqlValue>, req: ProfileRequest)
    requires BuiltBelow(fields, values, req, Rank(ProfileImageUrl) + 1)
    ensures |fields| == |values|
    ensures forall c :: c in fields <==> Listed(c, req)
    ensures forall i :: 0 <= i < |fields| ==> values[i] == Text(NewValue(fields[i], req))
    ensures forall i, j :: 0 <= i < j < |fields| ==> Rank(fields[i]) < Rank(fields[j])
  {
    forall c ensures c in fields <==> Listed(c, req) {
      assert Rank(c) < 4;
    }
  }

  /**
   * The lists hold, in column order, exactly the listed columns ranked below
   * `k`, each with the value the request stores there.
   */
  ghost predicate BuiltBelow(fields: seq<Column>, values: seq<SqlValue>, req: ProfileRequest, k: nat) {
    && |fields| == |values|
    && ColumnsBelow(fields, req, k)
    && ValuesMatch(fields, values, req)
    && InRankOrder(fields)
  }

  ghost predicate ColumnsBelow(fields: seq<Column>, req: ProfileRequest, k: nat) {
    forall c :: c in fields <==> Listed(c, req) && Rank(c) < k
  }

  ghost predicate ValuesMatch(fields: seq<Column>, values: seq<SqlValue>, req: ProfileRequest) {
    forall i :: 0 <= i < |fields| && i < |values| ==> values[i] == Text(NewValue(fields[i], req))
  }

  ghost predicate InRankOrder(fields: seq<Column>) {
    forall i, j :: 0 <= i < j < |fields| ==> Rank(fields[i]) < Rank(fields[j])
  }

  /** One `if (...) { fields.push(...); values.push(...); }` of the handler. */
  method PushIfListed(fields: seq<Column>, values: seq<SqlValue>, c: Column, req: ProfileRequest)
    returns (fields': seq<Column>, values': seq<SqlValue>)
    requires BuiltBelow(fields, values, req, Rank(c))
    ensures BuiltBelow(fields', values', req, Rank(c) + 1)
    ensures Listed(c, req) ==> fields' == fields + [c] && values' == values + [Text(NewValue(c, req))]
    ensures !Listed(c, req) ==> fields' == fields && values' == values
  {
    if Listed(c, req) {
      fields', values' := fields + [c], values + [Text(NewValue(c, req))];
      PushListed(fields, values, c, req);
    } else {
      fields', values' := fields, values;
      SkipUnlisted(fields, values, c, req);
    }
  }

  lemma PushListed(fields: seq<Column>, values: seq<SqlValue>, c: Column, req: ProfileRequest)
    requires BuiltBelow(fields, values, req, Rank(c)) && Listed(c, req)
    ensures BuiltBelow(fields + [c], values + [Text(NewValue(c, req))], req, Rank(c) + 1)
  {
    PushColumns(fields, c, req);
    PushValues(fields, values, c, req);
    PushOrder(fields, c, req);
  }

  lemma PushColumns(fields: seq<Column>, c: Column, req: ProfileRequest)
    requires ColumnsBelow(fields, req, Rank(c)) && Listed(c, req)
    ensures ColumnsBelow(fields + [c], req, Rank(c) + 1)
  {
    RankInjective();
    forall d ensures d in fields + [c] <==> Listed(d, req) && Rank(d) < Rank(c) + 1 {
      assert d in fields + [c] <==> d in fields || d == c;
    }
  }

  lemma PushValues(fields: seq<Column>, values: seq<SqlValue>, c: Column, req: ProfileRequest)
    requires |fields| == |values| && ValuesMatch(fields, values, req)
    ensures ValuesMatch(fields + [c], values + [Text(NewValue(c, req))], req)
  {
    var fields', values' := fields + [c], values + [Text(NewValue(c, req))];
    forall i | 0 <= i < |fields'| && i < |values'| ensures values'[i] == Text(NewValue(fields'[i], req)) {
      if i < |fields| {
        assert fields'[i] == fields[i] && values'[i] == values[i];
      }
    }
  }

  lemma PushOrder(fields: seq<Column>, c: Column, req: ProfileRequest)
    requires ColumnsBelow(fields, req, Rank(c)) && InRankOrder(fields)
    ensures InRankOrder(fields + [c])
  {
    forall i | 0 <= i < |fields| ensures Rank(fields[i]) < Rank(c) {
      assert fields[i] in fields;
    }
  }

  lemma SkipUnlisted(fields: seq<Column>, values: seq<SqlValue>, c: Column, req: ProfileRequest)
    requires BuiltBelow(fields, values, req, Rank(c)) && !Listed(c, req)
    ensures BuiltBelow(fields, values, req, Rank(c) + 1)
  {
    RankInjective();
    forall d ensures d in fields <==> Listed(d, req) && Rank(d) < Rank(c) + 1 {
      if Rank(d) == Rank(c) {
        assert d == c;
      }
    }
  }

  /** Distinct columns have distinct ranks. */
  lemma RankInjective()
    ensures forall c, d :: Rank(c) == Rank(d) ==> c == d
  {
  }

  /** Writes one `col = ?` with its bound text into a row. */
  function Assign(u: User, c: Column, v: string): (r: User)
    ensures SameNonProfile(r, u)
    ensures Get(r, c) == Some(v)
    ensures forall d :: d != c ==> Get(r, d) == Get(u, d)
  {
    match c
    case Name => u.(name := v)
    case Email => u.(email := v)
    case Bio => u.(bio := Some(v))
    case ProfileImageUrl => u.(profileImageUrl := Some(v))
  }

  /** Every value bound to a `col = ?` is text. */
  predicate AllText(vals: seq<SqlValue>) {
    forall i :: 0 <= i < |vals| ==> vals[i].Text?
  }

  /** `SET f1 = ?, f2 = ?, ...` with the i-th placeholder bound to the i-th value, left to right. */
  function SetColumns(u: User, fields: seq<Column>, vals: seq<SqlValue>): User
    requires |fields| == |vals| && AllText(vals)
    decreases |fields|
  {
    if fields == [] then u
    else SetColumns(Assign(u, fields[0], vals[0].text), fields[1..], vals[1..])
  }

  /**
   * With distinct columns, SET writes each listed column with its value and
   * leaves every other column as it was.
   */
  lemma {:induction false} SetColumnsEffect(u: User, fields: seq<Column>, vals: seq<SqlValue>)
    requires |fields| == |vals| && AllText(vals)
    requires forall i, j :: 0 <= i < j < |fields| ==> fields[i] != fields[j]
    ensures SameNonProfile(SetColumns(u, fields, vals), u)
    ensures forall c :: c !in fields ==> Get(SetColumns(u, fields, vals), c) == Get(u, c)
    ensures forall i :: 0 <= i < |fields| ==> Get(SetColumns(u, fields, vals), fields[i]) == Some(vals[i].text)
    decreases |fields|
  {
    if fields != [] {
      var u1 := Assign(u, fields[0], vals[0].text);
      SetColumnsEffect(u1, fields[1..], vals[1..]);
      var r := SetColumns(u, fields, vals);
      assert r == SetColumns(u1, fields[1..], vals[1..]);
      forall i | 0 <= i < |fields| ensures Get(r, fields[i]) == Some(vals[i].text) {
        if i == 0 {
          assert fields[0] !in fields[1..] by {
            forall j | 0 <= j < |fields[1..]| ensures fields[1..][j] != fields[0] {
              assert fields[1..][j] == fields[j + 1];
            }
          }
        } else {
          assert fields[i] == fields[1..][i - 1];
        }
      }
      forall c | c !in fields ensures Get(r, c) == Get(u, c) {
        assert c != fields[0];
        assert c !in fields[1..];
      }
    }
  }

  /**
   * The statement `UPDATE users SET <fields> WHERE id = ?` run with `values`:
   * the last value binds the id, the ones before it the columns. A missing
   * user matches no row.
   */
  function ExecuteUpdate(users: map<nat, User>, fields: seq<Column>, values: seq<SqlValue>): (r: map<nat, User>)
    requires |values| == |fields| + 1 && AllText(values[..|fields|]) && values[|fields|].Id?
    ensures r.Keys == users.Keys
    ensures forall k :: k in users && k != values[|fields|].id ==> r[k] == users[k]
  {
    var id := values[|fields|].id;
    if id in users then users[id := SetColumns(users[id], fields, values[..|fields|])] else users
  }

  /** What BuildUpdate produces, run through SET, is exactly the row the request describes. */
  lemma BuiltUpdateIsUpdated(u: User, req: ProfileRequest, fields: seq<Column>, values: seq<SqlValue>)
    requires |fields| == |values|
    requires forall c :: c in fields <==> Listed(c, req)
    requires forall i :: 0 <= i < |fields| ==> values[i] == Text(NewValue(fields[i], req))
    requires forall i, j :: 0 <= i < j < |fields| ==> Rank(fields[i]) < Rank(fields[j])
    ensures AllText(values)
    ensures SetColumns(u, fields, values) == Updated(u, req)
  {
    var r := SetColumns(u, fields, values);
    SetColumnsEffect(u, fields, values);
    forall c ensures Get(r, c) == Get(Updated(u, req), c) {
      if c in fields {
        var i :| 0 <= i < |fields| && fields[i] == c;
      }
    }
    UserExtensionality(r, Updated(u, req));
  }

  // ---------------------------------------------------------------------------
  // Projections
  // ---------------------------------------------------------------------------

  /** `SELECT id, name, email, bio, profile_image_url`: the row without its secrets. */
  datatype OwnProfile = OwnProfile(id: nat, name: string, email: string, bio: Option<string>,
                                   profileImageUrl: Option<string>)

  /** `SELECT id, name, bio, profile_image_url`: the public profile omits the email too. */
  datatype PublicProfile = PublicProfile(id: nat, name: string, bio: Option<string>,
                                         profileImageUrl: Option<string>)

  /** GET /profile, or the row re-read after an update; None is the 404. */
  function OwnProfileOf(users: map<nat, User>, userId: nat): (r: Option<OwnProfile>)
    ensures r.Some? <==> userId in users
    ensures r.Some? ==> && r.value.id == userId
                        && Some(r.value.name) == Get(users[userId], Name)
                        && Some(r.value.email) == Get(users[userId], Email)
                        && r.value.bio == Get(users[userId], Bio)
                        && r.value.profileImageUrl == Get(users[userId], ProfileImageUrl)
  {
    if userId in users then
      var u := users[userId];
      Some(OwnProfile(userId, u.name, u.email, u.bio, u.profileImageUrl))
    else None
  }

  /** The public view of an own profile: everything but the email. */
  function Public(p: OwnProfile): (q: PublicProfile)
    ensures q.id == p.id && q.name == p.name && q.bio == p.bio && q.profileImageUrl == p.profileImageUrl
  {
    PublicProfile(p.id, p.name, p.bio, p.profileImageUrl)
  }

  /** The answer to GET /profile/:id: 200 with the profile, 404, or 500. */
  datatype PublicAnswer = Found(profile: PublicProfile) | NotFound | ServerError

  /**
   * GET /profile/:id, with the path read by `parseInt`. A number goes into the
   * query as it is: a negative one matches no row (404). NaN is written into
   * the SQL text as `NaN`, which MySQL rejects as an unknown column, and the
   * handler's catch answers 500.
   */
  function PublicProfileAt(users: map<nat, User>, path: string): (r: PublicAnswer)
    ensures r.ServerError? <==> ParseInt(path).None?
    ensures r.Found? <==> ParseInt(path).Some? && ParseInt(path).value >= 0 && ParseInt(path).value as nat in users
    ensures r.Found? ==> && r.profile.id == ParseInt(path).value
                         && Some(r.profile.name) == Get(users[r.profile.id], Name)
                         && r.profile.bio == Get(users[r.profile.id], Bio)
                         && r.profile.profileImageUrl == Get(users[r.profile.id], ProfileImageUrl)
  {
    match ParseInt(path)
    case None => ServerError
    case Some(n) =>
      if n >= 0 && n as nat in users then
        var u := users[n as nat];
        Found(PublicProfile(n as nat, u.name, u.bio, u.profileImageUrl))
      else NotFound
  }

  /** Anyone asking for `/profile/<id>` sees the owner's own profile without the email, or a 404. */
  lemma PublicProfileOfId(users: map<nat, User>, id: nat)
    ensures !PublicProfileAt(users, DecimalString(id)).ServerError?
    ensures PublicProfileAt(users, DecimalString(id)).Found? <==> OwnProfileOf(users, id).Some?
    ensures OwnProfileOf(users, id).Some? ==>
      PublicProfileAt(users, DecimalString(id)) == Found(Public(OwnProfileOf(users, id).value))
  {
    ParseIntDecimal(id);
  }

  /** A path that does not start with a number (after white space and a sign) answers 500. */
  lemma PublicProfileNaN(users: map<nat, User>, path: string)
    requires path != [] && !IsWhiteSpace(path[0]) && path[0] != '-' && path[0] != '+'
    requires DigitValue(path[0]) >= 10
    ensures PublicProfileAt(users, path).ServerError?
  {
    ParseIntNaN(path);
  }

  // ---------------------------------------------------------------------------
  // PUT /update-profile
  // ---------------------------------------------------------------------------

  /** Whether the request lists no column at all. */
  predicate NothingToUpdate(req: ProfileRequest) {
    forall c :: !Listed(c, req)
  }

  /**
   * PUT /update-profile. No qualifying field answers 400 and changes nothing;
   * otherwise only the listed columns of the requester's row change, and the
   * answer carries the row as re-read (None when the requester has no row).
   */
  method UpdateProfile(db: Database, userId: nat, req: ProfileRequest)
    returns (status: int, profile: Option<OwnProfile>)
    requires db.Valid()
    modifies db`users
    ensures db.Valid()
    ensures status == 200 || status == 400
    ensures status == 400 <==> NothingToUpdate(req)
    ensures status == 400 ==> db.users == old(db.users) && profile.None?
    ensures status == 200 ==>
      && db.users == (if userId in old(db.users)
                      then old(db.users)[userId := Updated(old(db.users)[userId], req)]
                      else old(db.users))
      && profile == OwnProfileOf(db.users, userId)
  {
    var fields, values := BuildUpdate(req);
    if |fields| == 0 {
      assert NothingToUpdate(req);
      return 400, None;
    }
    assert !NothingToUpdate(req) by {
      assert Listed(fields[0], req);
    }
    var bound := values + [Id(userId)];
    assert bound[..|fields|] == values;
    if userId in db.users {
      BuiltUpdateIsUpdated(db.users[userId], req, fields, values);
    }
    db.users := ExecuteUpdate(db.users, fields, bound);
    profile := OwnProfileOf(db.users, userId);
    status := 200;
  }
}
