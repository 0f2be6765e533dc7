/**
 * The Express handlers of the backend: the `auth` middleware, register, login
 * and the owner-scoped task routes. Each request is one atomic step on the
 * database handle; `secret` is `process.env.JWT_SECRET`, and `fault` stands for
 * an I/O error the SQLite statement may report.
 */
module Server {
  import opened Wrappers
  import opened Strings
  import opened Crypto
  import opened Database

  datatype Body =
    | ErrorBody(error: string)
    | TokenBody(token: string)
    | RowsBody(rows: seq<TaskRow>)
    | CreatedBody(id: nat, title: string, completed: bool)
    | SuccessBody

  /** `res.status(status).json(body)`, or a request that is never answered. */
  datatype Response = Reply(status: nat, body: Body) | NoReply

  const AccessDenied: Response := Reply(401, ErrorBody("Access denied"))
  const InvalidToken: Response := Reply(400, ErrorBody("Invalid token"))
  const ServerError: Response := Reply(500, ErrorBody("Server error"))
  const CredentialsRequired: Response := Reply(400, ErrorBody("Email and password required"))
  const UserExists: Response := Reply(400, ErrorBody("User already exists"))
  const InvalidCredentials: Response := Reply(400, ErrorBody("Invalid credentials"))
  const Succeeded: Response := Reply(200, SuccessBody)

  /** JavaScript truthiness of a string field of the request body. */
  predicate Truthy(v: Option<string>) {
    v.Some? && v.value != ""
  }

  /** `res.json({ token })` with a fresh token; `jwt.sign` throwing in a callback leaves the request unanswered. */
  function TokenReply(userId: nat, secret: Option<string>): (r: Response)
    ensures r.Reply? <==> Key(secret).Some?
    ensures r.Reply? ==> r.status == 200 && r.body.TokenBody? && JwtVerify(r.body.token, secret) == Some(userId)
  {
    match JwtSign(userId, secret)
    case None => NoReply
    case Some(t) =>
      JwtRoundTrip(userId, secret);
      Reply(200, TokenBody(t))
  }

  // ---------------------------------------------------------------------------
  // The auth middleware

  const BearerPrefix: string := "Bearer "

  /** `req.header('Authorization')?.replace('Bearer ', '')`. */
  function BearerToken(authorization: Option<string>): (r: Option<string>)
    ensures r.None? <==> authorization.None?
    ensures authorization.Some? && |authorization.value| >= |BearerPrefix| &&
            authorization.value[..|BearerPrefix|] == BearerPrefix ==>
              r == Some(authorization.value[|BearerPrefix|..])
  {
    match authorization
    case None => None
    case Some(h) =>
      if |h| >= |BearerPrefix| && h[..|BearerPrefix|] == BearerPrefix then
        RemoveFirstOfPrefix(BearerPrefix, h[|BearerPrefix|..]);
        assert h == BearerPrefix + h[|BearerPrefix|..];
        Some(RemoveFirst(h, BearerPrefix))
      else Some(RemoveFirst(h, BearerPrefix))
  }

  /** What the middleware decides: 401, 400, or `next()` with `req.userId` set. */
  datatype Gate = Denied | Rejected | Admitted(userId: nat)

  function Authenticate(authorization: Option<string>, secret: Option<string>): (g: Gate)
    ensures authorization.None? ==> g == Denied
    ensures g.Admitted? ==> authorization.Some? && Key(secret).Some? &&
                            BearerToken(authorization) == Some(Sign(g.userId, Key(secret).value))
  {
    match BearerToken(authorization)
    case None => Denied
    case Some(token) =>
      if token == "" then Denied
      else match JwtVerify(token, secret)
        case None => Rejected
        case Some(userId) => Admitted(userId)
  }

  function GateReply(g: Gate): Response
    requires !g.Admitted?
  {
    if g.Denied? then AccessDenied else InvalidToken
  }

  /** Removing the first "Bearer " leaves nothing exactly from "" and "Bearer " itself. */
  lemma {:induction false} BearerTokenEmpty(h: string)
    ensures RemoveFirst(h, BearerPrefix) == "" <==> h == "" || h == BearerPrefix
  {
    if h == BearerPrefix {
      RemoveFirstOfPrefix(BearerPrefix, "");
      assert BearerPrefix + "" == BearerPrefix;
    }
    if h == "" {
      assert !OccursAt(h, BearerPrefix, 0);
      assert forall j: nat :: !OccursAt(h, BearerPrefix, j);
    }
    if RemoveFirst(h, BearerPrefix) == "" {
      match IndexOf(h, BearerPrefix)
      case None =>
      case Some(i) =>
        assert FirstAt(h, BearerPrefix, i);
        assert h == h[..i] + h[i..i + |BearerPrefix|] + h[i + |BearerPrefix|..];
    }
  }

  /** 401 'Access denied' exactly when the header is missing or empty after removing "Bearer ". */
  lemma DeniedIff(authorization: Option<string>, secret: Option<string>)
    ensures Authenticate(authorization, secret) == Denied <==>
            authorization == None || authorization == Some("") || authorization == Some(BearerPrefix)
  {
    if authorization.Some? {
      BearerTokenEmpty(authorization.value);
    }
  }

  /** The middleware admits `userId` exactly for a header whose token is `userId` signed with the key. */
  lemma {:induction false} AdmittedIff(authorization: Option<string>, secret: Option<string>, userId: nat)
    ensures Authenticate(authorization, secret) == Admitted(userId) <==>
            && Key(secret).Some? && authorization.Some?
            && RemoveFirst(authorization.value, BearerPrefix) == Sign(userId, Key(secret).value)
  {
    if authorization.Some? && Key(secret).Some? {
      var token := RemoveFirst(authorization.value, BearerPrefix);
      VerifyOnlySigned(token, Key(secret).value, userId);
      assert Sign(userId, Key(secret).value) != "" by {
        assert |Sign(userId, Key(secret).value)| >= 1;
      }
    }
  }

  /**
   * Without a usable `JWT_SECRET` no request passes the gate: a missing, empty or
   * bare "Bearer " header gets 401 and every other header 400, and register and
   * login never answer because `jwt.sign` throws.
   */
  lemma {:induction false} NoKeyNoAdmission(authorization: Option<string>, secret: Option<string>, userId: nat)
    requires Key(secret).None?
    ensures Authenticate(authorization, secret) ==
            if authorization == None || authorization == Some("") || authorization == Some(BearerPrefix)
            then Denied else Rejected
    ensures TokenReply(userId, secret) == NoReply
  {
    DeniedIff(authorization, secret);
  }

  /** A token issued by register or login, sent as "Bearer <token>", passes the gate as its user. */
  lemma {:induction false} IssuedTokenAdmitted(userId: nat, secret: Option<string>)
    requires Key(secret).Some?
    ensures TokenReply(userId, secret).Reply?
    ensures Authenticate(Some(BearerPrefix + TokenReply(userId, secret).body.token), secret) == Admitted(userId)
  {
    var token := Sign(userId, Key(secret).value);
    RemoveFirstOfPrefix(BearerPrefix, token);
    AdmittedIff(Some(BearerPrefix + token), secret, userId);
  }

  /** A token signed under another key gets 400 'Invalid token'. */
  lemma {:induction false} ForeignTokenRejected(userId: nat, signer: string, secret: Option<string>)
    requires Key(secret).Some? && signer != Key(secret).value
    ensures Authenticate(Some(BearerPrefix + Sign(userId, signer)), secret) == Rejected
  {
    var token := Sign(userId, signer);
    RemoveFirstOfPrefix(BearerPrefix, token);
    VerifyOtherKey(userId, signer, Key(secret).value);
    assert |token| >= 1;
  }

  // ---------------------------------------------------------------------------
  // Auth routes

  /** The user row `u` is the one registered under `email` with `password`. */
  predicate Accepts(u: UserRow, email: string, password: string) {
    u.email == email && Compare(password, u.password)
  }

  /** POST /api/register. */
  method Register(db: Db, secret: Option<string>, email: Option<string>, password: Option<string>, fault: bool)
    returns (resp: Response)
    requires db.Valid()
    modifies db
    ensures db.Valid()
    ensures db.hasTables == old(db.hasTables) && db.tasks == old(db.tasks) && db.lastTaskId == old(db.lastTaskId)
    ensures !Truthy(email) || !Truthy(password) ==>
              resp == CredentialsRequired && db.users == old(db.users) && db.lastUserId == old(db.lastUserId)
    ensures Truthy(email) && Truthy(password) && (old(db.Fails(fault)) || EmailTaken(old(db.users), email.value)) ==>
              resp == UserExists && db.users == old(db.users) && db.lastUserId == old(db.lastUserId)
    ensures Truthy(email) && Truthy(password) && !old(db.Fails(fault)) && !EmailTaken(old(db.users), email.value) ==>
              && db.users == old(db.users) + [UserRow(old(db.lastUserId) + 1, email.value, Hash(password.value))]
              && db.lastUserId == old(db.lastUserId) + 1
              && resp == TokenReply(old(db.lastUserId) + 1, secret)
  {
    if !Truthy(email) || !Truthy(password) {
      return CredentialsRequired;
    }
    var hashed := Hash(password.value);
    var inserted := db.InsertUser(email, hashed, fault);
    match inserted
    case SqlError => resp := UserExists;
    case SqlOk(id) => resp := TokenReply(id, secret);
  }

  /** POST /api/login: unknown email and wrong password get the same reply. */
  method Login(db: Db, secret: Option<string>, email: Option<string>, password: Option<string>, fault: bool)
    returns (resp: Response)
    requires db.Valid()
    ensures !Truthy(email) || !Truthy(password) ==> resp == CredentialsRequired
    ensures Truthy(email) && Truthy(password) && db.Fails(fault) ==> resp == ServerError
    ensures Truthy(email) && Truthy(password) && !db.Fails(fault) &&
            !(exists u :: u in db.users && Accepts(u, email.value, password.value)) ==>
              resp == InvalidCredentials
    ensures Truthy(email) && Truthy(password) && !db.Fails(fault) ==>
              forall u :: u in db.users && Accepts(u, email.value, password.value) ==>
                resp == TokenReply(u.id, secret)
  {
    if !Truthy(email) || !Truthy(password) {
      return CredentialsRequired;
    }
    var found := db.FindUserByEmail(email, fault);
    match found
    case SqlError => resp := ServerError;
    case SqlOk(None) => resp := InvalidCredentials;
    case SqlOk(Some(user)) =>
      if !Compare(password.value, user.password) {
        resp := InvalidCredentials;
      } else {
        resp := TokenReply(user.id, secret);
      }
      forall u | u in db.users && u.email == email.value ensures u == user {
        UserByEmailUnique(db.users, db.lastUserId, u);
        UserByEmailUnique(db.users, db.lastUserId, user);
      }
  }

  // ---------------------------------------------------------------------------
  // Task routes, each behind the auth middleware

  /** GET /api/tasks: exactly the caller's rows, in no promised order. */
  method ListTasks(db: Db, secret: Option<string>, authorization: Option<string>, fault: bool)
    returns (resp: Response)
    ensures var g := Authenticate(authorization, secret);
            !g.Admitted? ==> resp == GateReply(g)
    ensures var g := Authenticate(authorization, secret);
            g.Admitted? && db.Fails(fault) ==> resp == ServerError
    ensures var g := Authenticate(authorization, secret);
            g.Admitted? && !db.Fails(fault) ==>
              && resp.Reply? && resp.status == 200 && resp.body.RowsBody?
              && (forall t :: t in resp.body.rows <==> t in db.tasks && t.userId == g.userId)
              && multiset(resp.body.rows) == multiset(OwnedBy(db.tasks, g.userId))
  {
    var g := Authenticate(authorization, secret);
    if !g.Admitted? {
      return GateReply(g);
    }
    var rows := db.SelectTasksOwnedBy(g.userId, fault);
    match rows
    case SqlError => resp := ServerError;
    case SqlOk(ts) => resp := Reply(200, RowsBody(ts));
  }

  /** POST /api/tasks: one new row owned by the caller, `completed` false. */
  method CreateTask(db: Db, secret: Option<string>, authorization: Option<string>, title: Option<string>, fault: bool)
    returns (resp: Response)
    requires db.Valid()
    modifies db
    ensures db.Valid()
    ensures db.hasTables == old(db.hasTables) && db.users == old(db.users) && db.lastUserId == old(db.lastUserId)
    ensures var g := Authenticate(authorization, secret);
            !g.Admitted? || old(db.Fails(fault)) || title.None? ==>
              && resp == (if g.Admitted? then ServerError else GateReply(g))
              && db.tasks == old(db.tasks) && db.lastTaskId == old(db.lastTaskId)
    ensures var g := Authenticate(authorization, secret);
            g.Admitted? && !old(db.Fails(fault)) && title.Some? ==>
              && db.tasks == old(db.tasks) + [TaskRow(old(db.lastTaskId) + 1, title.value, Some(false), g.userId)]
              && db.lastTaskId == old(db.lastTaskId) + 1
              && resp == Reply(200, CreatedBody(old(db.lastTaskId) + 1, title.value, false))
  {
    var g := Authenticate(authorization, secret);
    if !g.Admitted? {
      return GateReply(g);
    }
    var inserted := db.InsertTask(title, g.userId, fault);
    match inserted
    case SqlError => resp := ServerError;
    case SqlOk(id) => resp := Reply(200, CreatedBody(id, title.value, false));
  }

  /**
   * PUT /api/tasks/:id: rewrites title and completed of the caller's row with
   * that id, and replies success even when no row matched.
   */
  method UpdateTask(db: Db, secret: Option<string>, authorization: Option<string>, id: Option<int>,
                    title: Option<string>, completed: Option<bool>, fault: bool)
    returns (resp: Response)
    requires db.Valid()
    modifies db
    ensures db.Valid()
    ensures db.hasTables == old(db.hasTables) && db.users == old(db.users)
    ensures db.lastUserId == old(db.lastUserId) && db.lastTaskId == old(db.lastTaskId)
    ensures var g := Authenticate(authorization, secret);
            !g.Admitted? ==> resp == GateReply(g) && db.tasks == old(db.tasks)
    ensures var g := Authenticate(authorization, secret);
            g.Admitted? && (old(db.Fails(fault)) || (title.None? && AnyMatch(old(db.tasks), id, g.userId))) ==>
              resp == ServerError && db.tasks == old(db.tasks)
    ensures var g := Authenticate(authorization, secret);
            g.Admitted? && !(old(db.Fails(fault)) || (title.None? && AnyMatch(old(db.tasks), id, g.userId))) ==>
              && resp == Succeeded
              && db.tasks == (if title.Some? then Updated(old(db.tasks), id, g.userId, title.value, completed)
                              else old(db.tasks))
  {
    var g := Authenticate(authorization, secret);
    if !g.Admitted? {
      return GateReply(g);
    }
    var updated := db.UpdateTasks(id, g.userId, title, completed, fault);
    resp := if updated.SqlError? then ServerError else Succeeded;
  }

  /** DELETE /api/tasks/:id: removes the caller's row with that id; success even when none matched. */
  method DeleteTask(db: Db, secret: Option<string>, authorization: Option<string>, id: Option<int>, fault: bool)
    returns (resp: Response)
    requires db.Valid()
    modifies db
    ensures db.Valid()
    ensures db.hasTables == old(db.hasTables) && db.users == old(db.users)
    ensures db.lastUserId == old(db.lastUserId) && db.lastTaskId == old(db.lastTaskId)
    ensures var g := Authenticate(authorization, secret);
            !g.Admitted? ==> resp == GateReply(g) && db.tasks == old(db.tasks)
    ensures var g := Authenticate(authorization, secret);
            g.Admitted? && old(db.Fails(fault)) ==> resp == ServerError && db.tasks == old(db.tasks)
    ensures var g := Authenticate(authorization, secret);
            g.Admitted? && !old(db.Fails(fault)) ==>
              resp == Succeeded && db.tasks == Deleted(old(db.tasks), id, g.userId)
  {
    var g := Authenticate(authorization, secret);
    if !g.Admitted? {
      return GateReply(g);
    }
    var deleted := db.DeleteTasks(id, g.userId, fault);
    resp := if deleted.SqlError? then ServerError else Succeeded;
  }
}
