/**
 * The serverless variant of the backend: an in-memory database created empty
 * at start-up, a fallback signing secret, no presence check on register and a
 * login that reports every failure as 'Invalid credentials'. The task routes
 * are those of the backend, run with the fallback-aware secret.
 */
module Api {
  import opened Wrappers
  import opened Crypto
  import opened Database
  import opened Server

  const FallbackSecret: string := "fallback_secret"

  /** `process.env.JWT_SECRET || 'fallback_secret'`: always a usable key. */
  function SigningSecret(env: Option<string>): (s: Option<string>)
    ensures Key(s).Some?
    ensures Truthy(env) ==> s == env
    ensures !Truthy(env) ==> s == Some(FallbackSecret)
  {
    if Truthy(env) then env else Some(FallbackSecret)
  }

  /** `new sqlite3.Database(':memory:')` followed by both CREATE TABLE statements. */
  method OpenStore() returns (db: Db)
    ensures fresh(db) && db.Valid() && db.hasTables
    ensures db.users == [] && db.tasks == [] && db.lastUserId == 0 && db.lastTaskId == 0
  {
    db := new Db.Open();
    db.CreateTables();
  }

  /**
   * POST /api/register without a presence check: an undefined password makes
   * `bcrypt.hash` reject and the request is never answered; an undefined email
   * reaches the INSERT, which the NOT NULL column refuses.
   */
  method Register(db: Db, env: Option<string>, email: Option<string>, password: Option<string>, fault: bool)
    returns (resp: Response)
    requires db.Valid()
    modifies db
    ensures db.Valid()
    ensures db.hasTables == old(db.hasTables) && db.tasks == old(db.tasks) && db.lastTaskId == old(db.lastTaskId)
    ensures password.None? ==>
              resp == NoReply && db.users == old(db.users) && db.lastUserId == old(db.lastUserId)
    ensures password.Some? && (old(db.Fails(fault)) || email.None? || EmailTaken(old(db.users), email.value)) ==>
              resp == UserExists && db.users == old(db.users) && db.lastUserId == old(db.lastUserId)
    ensures password.Some? && !(old(db.Fails(fault)) || email.None? || EmailTaken(old(db.users), email.value)) ==>
              && db.users == old(db.users) + [UserRow(old(db.lastUserId) + 1, email.value, Hash(password.value))]
              && db.lastUserId == old(db.lastUserId) + 1
              && resp == TokenReply(old(db.lastUserId) + 1, SigningSecret(env))
  {
    if password.None? {
      return NoReply;
    }
    var hashed := Hash(password.value);
    var inserted := db.InsertUser(email, hashed, fault);
    match inserted
    case SqlError => resp := UserExists;
    case SqlOk(id) => resp := TokenReply(id, SigningSecret(env));
  }

  /**
   * POST /api/login: a database error, an unknown email and a wrong password
   * all give 400 'Invalid credentials', never 500; comparing against an
   * undefined password makes bcrypt reject and the request is never answered.
   */
  method Login(db: Db, env: Option<string>, email: Option<string>, password: Option<string>, fault: bool)
    returns (resp: Response)
    requires db.Valid()
    ensures resp != ServerError
    ensures db.Fails(fault) || email.None? || !EmailTaken(db.users, email.value) ==> resp == InvalidCredentials
    ensures !db.Fails(fault) && email.Some? && EmailTaken(db.users, email.value) && password.None? ==> resp == NoReply
    ensures !db.Fails(fault) && email.Some? && password.Some? &&
            !(exists u :: u in db.users && Accepts(u, email.value, password.value)) ==>
              resp == InvalidCredentials
    ensures !db.Fails(fault) && email.Some? && password.Some? ==>
              forall u :: u in db.users && Accepts(u, email.value, password.value) ==>
                resp == TokenReply(u.id, SigningSecret(env))
  {
    var found := db.FindUserByEmail(email, fault);
    match found
    case SqlError => resp := InvalidCredentials;
    case SqlOk(None) => resp := InvalidCredentials;
    case SqlOk(Some(user)) =>
      if password.None? {
        resp := NoReply;
      } else if !Compare(password.value, user.password) {
        resp := InvalidCredentials;
      } else {
        resp := TokenReply(user.id, SigningSecret(env));
      }
      forall u | u in db.users && u.email == email.value ensures u == user {
        UserByEmailUnique(db.users, db.lastUserId, u);
        UserByEmailUnique(db.users, db.lastUserId, user);
      }
  }

  /** Tokens from this variant's register and login pass its own auth middleware. */
  lemma IssuedTokensAdmitted(userId: nat, env: Option<string>)
    ensures TokenReply(userId, SigningSecret(env)).Reply?
    ensures Authenticate(Some(BearerPrefix + TokenReply(userId, SigningSecret(env)).body.token), SigningSecret(env))
            == Admitted(userId)
  {
    IssuedTokenAdmitted(userId, SigningSecret(env));
  }

  /** GET /api/tasks. */
  method ListTasks(db: Db, env: Option<string>, authorization: Option<string>, fault: bool)
    returns (resp: Response)
    ensures var g := Authenticate(authorization, SigningSecret(env));
            !g.Admitted? ==> resp == GateReply(g)
    ensures var g := Authenticate(authorization, SigningSecret(env));
            g.Admitted? && db.Fails(fault) ==> resp == ServerError
    ensures var g := Authenticate(authorization, SigningSecret(env));
            g.Admitted? && !db.Fails(fault) ==>
              && resp.Reply? && resp.status == 200 && resp.body.RowsBody?
              && (forall t :: t in resp.body.rows <==> t in db.tasks && t.userId == g.userId)
              && multiset(resp.body.rows) == multiset(OwnedBy(db.tasks, g.userId))
  {
    resp := Server.ListTasks(db, SigningSecret(env), authorization, fault);
  }

  /** POST /api/tasks. */
  method CreateTask(db: Db, env: Option<string>, authorization: Option<string>, title: Option<string>, fault: bool)
    returns (resp: Response)
    requires db.Valid()
    modifies db
    ensures db.Valid()
    ensures db.hasTables == old(db.hasTables) && db.users == old(db.users) && db.lastUserId == old(db.lastUserId)
    ensures var g := Authenticate(authorization, SigningSecret(env));
            !g.Admitted? || old(db.Fails(fault)) || title.None? ==>
              && resp == (if g.Admitted? then ServerError else GateReply(g))
              && db.tasks == old(db.tasks) && db.lastTaskId == old(db.lastTaskId)
    ensures var g := Authenticate(authorization, SigningSecret(env));
            g.Admitted? && !old(db.Fails(fault)) && title.Some? ==>
              && db.tasks == old(db.tasks) + [TaskRow(old(db.lastTaskId) + 1, title.value, Some(false), g.userId)]
              && db.lastTaskId == old(db.lastTaskId) + 1
              && resp == Reply(200, CreatedBody(old(db.lastTaskId) + 1, title.value, false))
  {
    resp := Server.CreateTask(db, SigningSecret(env), authorization, title, fault);
  }

  /** PUT /api/tasks/:id. */
  method UpdateTask(db: Db, env: Option<string>, authorization: Option<string>, id: Option<int>,
                    title: Option<string>, completed: Option<bool>, fault: bool)
    returns (resp: Response)
    requires db.Valid()
    modifies db
    ensures db.Valid()
    ensures db.hasTables == old(db.hasTables) && db.users == old(db.users)
    ensures db.lastUserId == old(db.lastUserId) && db.lastTaskId == old(db.lastTaskId)
    ensures var g := Authenticate(authorization, SigningSecret(env));
            !g.Admitted? ==> resp == GateReply(g) && db.tasks == old(db.tasks)
    ensures var g := Authenticate(authorization, SigningSecret(env));
            g.Admitted? && (old(db.Fails(fault)) || (title.None? && AnyMatch(old(db.tasks), id, g.userId))) ==>
              resp == ServerError && db.tasks == old(db.tasks)
    ensures var g := Authenticate(authorization, SigningSecret(env));
            g.Admitted? && !(old(db.Fails(fault)) || (title.None? && AnyMatch(old(db.tasks), id, g.userId))) ==>
              && resp == Succeeded
              && db.tasks == (if title.Some? then Updated(old(db.tasks), id, g.userId, title.value, completed)
                              else old(db.tasks))
  {
    resp := Server.UpdateTask(db, SigningSecret(env), authorization, id, title, completed, fault);
  }

  /** DELETE /api/tasks/:id. */
  method DeleteTask(db: Db, env: Option<string>, authorization: Option<string>, id: Option<int>, fault: bool)
    returns (resp: Response)
    requires db.Valid()
    modifies db
    ensures db.Valid()
    ensures db.hasTables == old(db.hasTables) && db.users == old(db.users)
    ensures db.lastUserId == old(db.lastUserId) && db.lastTaskId == old(db.lastTaskId)
    ensures var g := Authenticate(authorization, SigningSecret(env));
            !g.Admitted? ==> resp == GateReply(g) && db.tasks == old(db.tasks)
    ensures var g := Authenticate(authorization, SigningSecret(env));
            g.Admitted? && old(db.Fails(fault)) ==> resp == ServerError && db.tasks == old(db.tasks)
    ensures var g := Authenticate(authorization, SigningSecret(env));
            g.Admitted? && !old(db.Fails(fault)) ==>
              resp == Succeeded && db.tasks == Deleted(old(db.tasks), id, g.userId)
  {
    resp := Server.DeleteTask(db, SigningSecret(env), authorization, id, fault);
  }
}
