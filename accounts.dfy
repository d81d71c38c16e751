/**
 * Accounts and subscriptions: the register and login routes, the
 * `subscription_required` gate with its lazy expiry, and the subscribe route.
 * Each is a function on the rows of `user`; the store applies the row it
 * returns (see module Store).
 */
module Accounts {
  import opened Tables
  import opened Text

  const MinPasswordLength: nat := 6

  /** Length of the two subscription plans, in days. */
  const MonthlyDays: int := 30
  const YearlyDays: int := 365

  datatype RegisterError = NameRequired | EmailRequired | PasswordTooShort | AccountExists

  /**
   * The register route's validation chain on the normalised email and full
   * name. The checks run in order and the first that fails is reported.
   */
  function ValidationError(email: string, password: string, fullName: string): (r: Option<RegisterError>)
    ensures r.None? <==> fullName != [] && email != [] && |password| >= MinPasswordLength
    ensures r == Some(NameRequired) <==> fullName == []
    ensures r == Some(EmailRequired) <==> fullName != [] && email == []
    ensures r == Some(PasswordTooShort) <==> fullName != [] && email != [] && |password| < MinPasswordLength
  {
    if fullName == [] then Some(NameRequired)
    else if email == [] then Some(EmailRequired)
    else if password == [] || |password| < MinPasswordLength then Some(PasswordTooShort)
    else None
  }

  /** The UNIQUE constraint on `user.email`. */
  predicate UniqueEmails(users: seq<UserRow>)
  {
    forall i, j :: 0 <= i < j < |users| ==> users[i].email != users[j].email
  }

  /** The insert's UNIQUE check fails exactly when the login route's `WHERE email = ?` lookup finds a row. */
  predicate EmailTaken(users: seq<UserRow>, email: string)
    ensures EmailTaken(users, email) <==> FirstWhere(users, (u: UserRow) => u.email == email).Some?
  {
    exists u :: u in users && u.email == email
  }

  /**
   * The row the register route inserts, or why it inserts none. The insert
   * fails on the UNIQUE constraint when the normalised email is taken. The
   * new row gets the next AUTOINCREMENT id.
   */
  function Register(users: seq<UserRow>, rawEmail: string, password: string, rawFullName: string, salt: nat)
    : (r: Result<UserRow, RegisterError>)
    ensures var invalid := ValidationError(NormalizeEmail(rawEmail), password, Strip(rawFullName));
      && (invalid.Some? ==> r == Err(invalid.value))
      && (invalid.None? && EmailTaken(users, NormalizeEmail(rawEmail)) ==> r == Err(AccountExists))
      && (r.Ok? <==> invalid.None? && !EmailTaken(users, NormalizeEmail(rawEmail)))
    ensures r.Ok? ==> (
      && r.value.id == |users| + 1 && r.value.email == NormalizeEmail(rawEmail)
      && r.value.fullName == Strip(rawFullName)
      && (forall p :: CheckPasswordHash(r.value.passwordHash, p) <==> p == password)
      && !r.value.isSubscribed && r.value.subscriptionPlan.None?
      && r.value.subscriptionStart.None? && r.value.subscriptionEnd.None?)
  {
    var email := NormalizeEmail(rawEmail);
    var fullName := Strip(rawFullName);
    var invalid := ValidationError(email, password, fullName);
    if invalid.Some? then Err(invalid.value)
    else if EmailTaken(users, email) then Err(AccountExists)
    else Ok(UserRow(|users| + 1, email, GeneratePasswordHash(password, salt), fullName, false, None, None, None))
  }

  /** A successful registration keeps the emails of the user table unique. */
  lemma RegisterKeepsEmailsUnique(users: seq<UserRow>, rawEmail: string, password: string, rawFullName: string, salt: nat)
    requires UniqueEmails(users)
    requires Register(users, rawEmail, password, rawFullName, salt).Ok?
    ensures UniqueEmails(users + [Register(users, rawEmail, password, rawFullName, salt).value])
  {
    var t := users + [Register(users, rawEmail, password, rawFullName, salt).value];
    forall i, j | 0 <= i < j < |t| ensures t[i].email != t[j].email {
      if j == |users| {
        assert t[i] in users;
      }
    }
  }

  /**
   * The login route's check: the user whose email equals the normalised
   * email, if the password matches its hash. Returns that user's id.
   */
  function Authenticate(users: seq<UserRow>, rawEmail: string, password: string): (r: Option<int>)
    ensures r.Some? ==> exists u :: (u in users && u.id == r.value && u.email == NormalizeEmail(rawEmail)
      && CheckPasswordHash(u.passwordHash, password))
  {
    var email := NormalizeEmail(rawEmail);
    match FirstWhere(users, (u: UserRow) => u.email == email)
    case None => None
    case Some(u) => if CheckPasswordHash(u.passwordHash, password) then Some(u.id) else None
  }

  /**
   * The session after a login attempt: on success it is cleared and then
   * holds exactly the user's id; on failure it is left as it was.
   */
  function Login(session: Option<int>, users: seq<UserRow>, rawEmail: string, password: string): (s: Option<int>)
    ensures Authenticate(users, rawEmail, password).None? ==> s == session
    ensures Authenticate(users, rawEmail, password).Some? ==> s == Authenticate(users, rawEmail, password)
  {
    var r := Authenticate(users, rawEmail, password);
    if r.Some? then r else session
  }

  /** With unique emails, login succeeds exactly for a user with that email and password. */
  lemma LoginSucceedsIff(users: seq<UserRow>, rawEmail: string, password: string, u: UserRow)
    requires UniqueEmails(users)
    requires u in users && u.email == NormalizeEmail(rawEmail)
    ensures Authenticate(users, rawEmail, password) == Some(u.id) <==> CheckPasswordHash(u.passwordHash, password)
    ensures !CheckPasswordHash(u.passwordHash, password) ==> Authenticate(users, rawEmail, password).None?
  {
    var email := NormalizeEmail(rawEmail);
    var f := FirstWhere(users, (v: UserRow) => v.email == email);
    var i :| 0 <= i < |users| && users[i] == f.value && forall j :: 0 <= j < i ==> users[j].email != email;
    var k :| 0 <= k < |users| && users[k] == u;
    assert users[k].email == email;
    assert k == i;
  }

  /** Login with no user of that email fails. */
  lemma LoginUnknownEmailFails(users: seq<UserRow>, rawEmail: string, password: string)
    requires !EmailTaken(users, NormalizeEmail(rawEmail))
    ensures Authenticate(users, rawEmail, password).None?
  {
  }

  /**
   * Registering and then logging in: the new account authenticates with its
   * password under any spelling of the email that normalises alike, and with
   * no other password.
   */
  lemma RegisterThenLogin(users: seq<UserRow>, rawEmail: string, password: string, rawFullName: string, salt: nat,
                          loginEmail: string, attempt: string)
    requires UniqueEmails(users)
    requires Register(users, rawEmail, password, rawFullName, salt).Ok?
    requires NormalizeEmail(loginEmail) == NormalizeEmail(rawEmail)
    ensures var u := Register(users, rawEmail, password, rawFullName, salt).value;
      Authenticate(users + [u], loginEmail, attempt) == (if attempt == password then Some(u.id) else None)
  {
    var u := Register(users, rawEmail, password, rawFullName, salt).value;
    RegisterKeepsEmailsUnique(users, rawEmail, password, rawFullName, salt);
    LoginSucceedsIff(users + [u], loginEmail, attempt, u);
  }

  /**
   * A second registration of an email that normalises alike is refused:
   * with the validation error if its fields fail validation, otherwise
   * because the account exists.
   */
  lemma RegisterTwiceFails(users: seq<UserRow>, rawEmail: string, password: string, rawFullName: string, salt: nat,
                           email2: string, password2: string, fullName2: string, salt2: nat)
    requires Register(users, rawEmail, password, rawFullName, salt).Ok?
    requires NormalizeEmail(email2) == NormalizeEmail(rawEmail)
    ensures var users' := users + [Register(users, rawEmail, password, rawFullName, salt).value];
      var invalid := ValidationError(NormalizeEmail(email2), password2, Strip(fullName2));
      Register(users', email2, password2, fullName2, salt2) == if invalid.Some? then Err(invalid.value) else Err(AccountExists)
  {
    var u := Register(users, rawEmail, password, rawFullName, salt).value;
    assert u in users + [u];
  }

  /** The access decision of `subscription_required`. */
  datatype Access =
    | Granted(user: UserRow)
    | LoginRequired
    | Expired(user: UserRow)
    | SubscriptionRequired

  predicate EndPassed(u: UserRow, now: int)
  {
    u.subscriptionEnd.Some? && u.subscriptionEnd.value < now
  }

  /**
   * `subscription_required`: no session or an unknown user must log in; a
   * subscription whose end has passed is expired (checked before the flag);
   * otherwise access follows the flag.
   */
  function SubscriptionAccess(session: Option<int>, users: seq<UserRow>, now: int): (a: Access)
    ensures a == LoginRequired <==> session.None? || UserById(users, session.value).None?
    ensures a.Granted? ==> (session == Some(a.user.id) && UserById(users, a.user.id) == Some(a.user)
      && a.user.isSubscribed && !EndPassed(a.user, now))
    ensures a.Expired? ==> (session == Some(a.user.id) && UserById(users, a.user.id) == Some(a.user)
      && EndPassed(a.user, now))
    ensures session.Some? && UserById(users, session.value).Some? ==>
      var u := UserById(users, session.value).value;
      && (a.Granted? <==> u.isSubscribed && !EndPassed(u, now))
      && (a.Expired? <==> EndPassed(u, now))
      && (a == SubscriptionRequired <==> !u.isSubscribed && !EndPassed(u, now))
  {
    if session.None? then LoginRequired
    else
      match UserById(users, session.value)
      case None => LoginRequired
      case Some(u) =>
        if EndPassed(u, now) then Expired(u)
        else if !u.isSubscribed then SubscriptionRequired
        else Granted(u)
  }

  /** `SET is_subscribed = 0`: the flag is cleared and every other column is kept. */
  function ClearFlag(u: UserRow): (r: UserRow)
    ensures !r.isSubscribed
    ensures r.(isSubscribed := u.isSubscribed) == u
  {
    u.(isSubscribed := false)
  }

  /** The user table after the gate: an expired user's flag is cleared; nothing else changes. */
  function AfterAccess(a: Access, users: seq<UserRow>): (r: seq<UserRow>)
    ensures !a.Expired? ==> r == users
    ensures a.Expired? ==> |r| == |users| && forall i :: 0 <= i < |users| ==>
      r[i] == if users[i].id == a.user.id then users[i].(isSubscribed := false) else users[i]
  {
    if a.Expired? then UpdateUser(users, a.user.id, ClearFlag) else users
  }

  /**
   * Expiry is sticky: once the gate has cleared the flag, the same user is
   * told again that the subscription expired at every later access, until a
   * new subscription replaces the end date.
   */
  lemma ExpiredStaysExpired(session: Option<int>, users: seq<UserRow>, now: int, later: int)
    requires SubscriptionAccess(session, users, now).Expired?
    requires later >= now
    ensures var users' := AfterAccess(SubscriptionAccess(session, users, now), users);
      && SubscriptionAccess(session, users', later).Expired?
      && !SubscriptionAccess(session, users', later).user.isSubscribed
  {
    var u := SubscriptionAccess(session, users, now).user;
    UserByIdAfterUpdate(users, u.id, ClearFlag);
  }

  /** `login_required`: only asks that the session names some user id. */
  predicate LoggedIn(session: Option<int>)
  {
    session.Some?
  }

  /** The gate grants nothing to a visitor the login gate would refuse. */
  lemma GrantedIsLoggedIn(session: Option<int>, users: seq<UserRow>, now: int)
    ensures SubscriptionAccess(session, users, now).Granted? ==> LoggedIn(session)
  {
  }

  datatype SubscribeError = AlreadySubscribed | InvalidPlan

  /** The duration of a plan named in the form: "mensual" 30 days, "anual" 365 days, anything else none. */
  function PlanDays(plan: Option<string>): (d: Option<int>)
    ensures d.Some? <==> plan == Some("mensual") || plan == Some("anual")
    ensures plan == Some("mensual") ==> d == Some(MonthlyDays)
    ensures plan == Some("anual") ==> d == Some(YearlyDays)
  {
    if plan == Some("mensual") then Some(MonthlyDays)
    else if plan == Some("anual") then Some(YearlyDays)
    else None
  }

  /**
   * The subscribe route on the current user's row: refused while the stored
   * flag is set (expiry is not re-checked here), refused for an unknown plan,
   * otherwise the plan runs from now for its number of days.
   */
  function Subscribe(u: UserRow, plan: Option<string>, now: int): (r: Result<UserRow, SubscribeError>)
    ensures u.isSubscribed ==> r == Err(AlreadySubscribed)
    ensures !u.isSubscribed && PlanDays(plan).None? ==> r == Err(InvalidPlan)
    ensures !u.isSubscribed && PlanDays(plan).Some? ==> r.Ok?
    ensures r.Ok? ==> (
      && r.value.id == u.id && r.value.email == u.email
      && r.value.passwordHash == u.passwordHash && r.value.fullName == u.fullName
      && r.value.isSubscribed && r.value.subscriptionPlan == plan
      && r.value.subscriptionStart == Some(now)
      && r.value.subscriptionEnd == Some(now + PlanDays(plan).value * Day))
  {
    if u.isSubscribed then Err(AlreadySubscribed)
    else
      match PlanDays(plan)
      case None => Err(InvalidPlan)
      case Some(days) =>
        Ok(u.(isSubscribed := true, subscriptionPlan := plan, subscriptionStart := Some(now),
              subscriptionEnd := Some(now + days * Day)))
  }

  /** "mensual" ends 30 days after it starts, "anual" 365 days. */
  lemma SubscriptionLength(u: UserRow, plan: Option<string>, now: int)
    requires Subscribe(u, plan, now).Ok?
    ensures var v := Subscribe(u, plan, now).value;
      && v.subscriptionEnd.value - v.subscriptionStart.value
         == (if plan == Some("mensual") then 30 * 86400 else 365 * 86400)
  {
  }

  /** The rewrite of the subscribe route's UPDATE: the row becomes `v`. */
  function SetRow(v: UserRow): UserRow -> UserRow
  {
    (u: UserRow) => v
  }

  /** An active or stale-but-flagged subscription cannot be renewed: renewal is refused, not extended. */
  lemma StaleFlagBlocksRenewal(u: UserRow, plan: Option<string>, now: int)
    requires u.isSubscribed && EndPassed(u, now)
    ensures Subscribe(u, plan, now) == Err(AlreadySubscribed)
  {
  }

  /**
   * The subscription lifecycle as the gate sees it: after subscribing at
   * `now`, access is granted at every time up to the end and the user is
   * told it expired at every time after it.
   */
  lemma SubscribeThenAccess(users: seq<UserRow>, id: int, plan: Option<string>, now: int, t: int)
    requires UserById(users, id).Some?
    requires Subscribe(UserById(users, id).value, plan, now).Ok?
    requires now <= t
    ensures var v := Subscribe(UserById(users, id).value, plan, now).value;
      var users' := UpdateUser(users, id, SetRow(v));
      && (t <= v.subscriptionEnd.value ==> SubscriptionAccess(Some(id), users', t) == Granted(v))
      && (t > v.subscriptionEnd.value ==> SubscriptionAccess(Some(id), users', t) == Expired(v))
  {
    var u := UserById(users, id).value;
    var v := Subscribe(u, plan, now).value;
    assert v.id == id && v.isSubscribed && v.subscriptionEnd.Some?;
    assert SetRow(v)(u) == v;
    UserByIdAfterUpdate(users, id, SetRow(v));
    assert UserById(UpdateUser(users, id, SetRow(v)), id) == Some(v);
  }

  /** After the gate clears an expired flag, subscribing again is possible. */
  lemma ExpiredCanResubscribe(session: Option<int>, users: seq<UserRow>, now: int, plan: Option<string>, later: int)
    requires SubscriptionAccess(session, users, now).Expired?
    requires PlanDays(plan).Some?
    ensures var u := SubscriptionAccess(session, users, now).user;
      && UserById(AfterAccess(Expired(u), users), u.id) == Some(ClearFlag(u))
      && Subscribe(ClearFlag(u), plan, later).Ok?
  {
    var u := SubscriptionAccess(session, users, now).user;
    UserByIdAfterUpdate(users, u.id, ClearFlag);
  }
}
