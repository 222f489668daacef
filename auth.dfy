/** The credentials `authorize` callback of `src/auth.config.ts` and the two
    session callbacks. The admin table is a map from e-mail to row; bcrypt's
    `compare` is the function parameter `compare`, and every hash handed to
    it is reported in the out-parameter `compared`. */
module Auth {
  import opened Strings
  import opened RateLimit

  /** Five attempts per key per ten-minute window. */
  const LoginLimit: int := 5
  const LoginWindowSeconds: int := 600

  /** The fixed hash compared against when no usable stored hash exists. */
  const DummyHash: string := "$2a$10$abcdefghijklmnopqrstuvwxyzABCDE"

  const ThrottlePrefix: string := "Too many login attempts. Please try again in "

  /** The submitted form; a field is `None` when it was not sent. */
  datatype Credentials = Credentials(email: Option<string>, password: Option<string>)

  /** A row of the `admin` table. */
  datatype Admin = Admin(id: string, email: string, password: string)

  /** What `authorize` hands to next-auth on success. */
  datatype Identity = Identity(id: string, email: string, name: string)

  /** `null`, a user object, or the thrown rate-limit error with its message. */
  datatype AuthResult = Null | User(identity: Identity) | Throttled(message: string)

  /** JavaScript truthiness of an optional string: present and non-empty. */
  predicate Truthy(v: Option<string>) {
    v.Some? && v.value != ""
  }

  /** `remainingTime ? Math.ceil(remainingTime / 60) : 10` */
  function ThrottleMinutes(remaining: Option<nat>): (n: nat)
    ensures n >= 1
    ensures remaining == None || remaining == Some(0) ==> n == 10
    ensures remaining.Some? && remaining.value > 0 ==>
      n * 60 >= remaining.value && (n - 1) * 60 < remaining.value
  {
    if remaining.Some? && remaining.value != 0 then CeilDiv(remaining.value, 60) else 10
  }

  /** The text of the thrown rate-limit error. */
  function ThrottleMessage(minutes: nat): (msg: string)
    ensures |msg| >= |ThrottlePrefix| + 9 && msg[..|ThrottlePrefix|] == ThrottlePrefix
  {
    ThrottlePrefix + NatToString(minutes) + " minute" + (if minutes > 1 then "s" else "") + "."
  }

  /** The message says "minutes" exactly when the count is above one, and the
      digits after the fixed prefix spell that count. */
  lemma ThrottleMessageWording(minutes: nat)
    ensures var msg := ThrottleMessage(minutes);
      && (msg[|msg| - 2] == 's' <==> minutes > 1)
      && msg[|msg| - 1] == '.'
      && DigitsValue(msg[|ThrottlePrefix|..|ThrottlePrefix| + |NatToString(minutes)|]) == minutes
  {
    var msg := ThrottleMessage(minutes);
    var digits := NatToString(minutes);
    NatToStringValue(minutes);
    assert msg[|ThrottlePrefix|..|ThrottlePrefix| + |digits|] == digits;
    if minutes > 1 {
      assert msg == ThrottlePrefix + digits + " minutes.";
    } else {
      assert msg == ThrottlePrefix + digits + " minute.";
    }
  }

  /** Queried at the instant of the denial, the login limiter's message
      names ten times the backoff multiplier: 20, 40, 80, 160 or 320 minutes. */
  lemma MinutesAtDenial(store: Store, email: string, now: int, sweep: bool)
    requires !Check(store, email, LoginLimit, LoginWindowSeconds, now, sweep).allowed
    ensures var o := Check(store, email, LoginLimit, LoginWindowSeconds, now, sweep);
            var n := ThrottleMinutes(RemainingSeconds(o.store, email, now));
      && n == 10 * BackoffMultiplier(store[email].count, LoginLimit)
      && (n == 20 || n == 40 || n == 80 || n == 160 || n == 320)
  {
    DeniedIff(store, email, LoginLimit, LoginWindowSeconds, now, sweep);
    RemainingAfterDenial(store, email, LoginLimit, LoginWindowSeconds, now, sweep);
    var m := BackoffMultiplier(store[email].count, LoginLimit);
    var o := Check(store, email, LoginLimit, LoginWindowSeconds, now, sweep);
    assert RemainingSeconds(o.store, email, now) == Some(600 * m);
    var n := ThrottleMinutes(Some(600 * m));
    assert n * 60 >= 600 * m && (n - 1) * 60 < 600 * m;
  }

  /** `user?.password || dummy`: the hash the single comparison uses. */
  function HashToCompare(admins: map<string, Admin>, email: string): (h: string)
    ensures email in admins && admins[email].password != "" ==> h == admins[email].password
    ensures email !in admins ==> h == DummyHash
    ensures email in admins && admins[email].password == "" ==> h == DummyHash
  {
    if email in admins && admins[email].password != "" then admins[email].password else DummyHash
  }

  /** What a non-throttled attempt returns, given bcrypt's verdict. */
  function LoginResult(admins: map<string, Admin>, email: string, password: string,
                       compare: (string, string) -> bool): AuthResult
  {
    if email !in admins || !compare(password, HashToCompare(admins, email)) then Null
    else User(Identity(admins[email].id, admins[email].email, "Admin"))
  }

  /** An unknown e-mail and a known e-mail with a rejected password produce
      the same result, `null`; only an accepted password for a known e-mail
      produces a user, and it is exactly `{id, email, name: 'Admin'}`. */
  lemma LoginResultReveals(admins: map<string, Admin>, email: string, password: string,
                           compare: (string, string) -> bool)
    ensures email !in admins ==> LoginResult(admins, email, password, compare) == Null
    ensures email in admins && !compare(password, HashToCompare(admins, email)) ==>
      LoginResult(admins, email, password, compare) == Null
    ensures LoginResult(admins, email, password, compare).User? <==>
      email in admins && compare(password, HashToCompare(admins, email))
    ensures LoginResult(admins, email, password, compare).User? ==>
      LoginResult(admins, email, password, compare).identity
        == Identity(admins[email].id, admins[email].email, "Admin")
    ensures !LoginResult(admins, email, password, compare).Throttled?
  {
  }

  /** `authorize(credentials)`: the limiter is charged before the user is
      looked up, a denial throws the minutes message, and every attempt that
      gets past the limiter runs exactly one comparison. The limiter's clock
      is read twice in the source (`checkRateLimit`, then `getRateLimitInfo`):
      `now` and `infoNow`. */
  method Authorize(limiter: RateLimiter, admins: map<string, Admin>, credentials: Credentials,
                   compare: (string, string) -> bool, now: int, infoNow: int, sweep: bool)
    returns (result: AuthResult, compared: seq<string>)
    modifies limiter
    ensures !Truthy(credentials.email) || !Truthy(credentials.password) ==>
      result == Null && compared == [] && limiter.store == old(limiter.store)
    ensures Truthy(credentials.email) && Truthy(credentials.password) ==>
      var email := credentials.email.value;
      var o := Check(old(limiter.store), email, LoginLimit, LoginWindowSeconds, now, sweep);
      && limiter.store == o.store
      && (!o.allowed ==>
            && compared == []
            && result == Throttled(ThrottleMessage(ThrottleMinutes(RemainingSeconds(o.store, email, infoNow)))))
      && (o.allowed ==>
            && compared == [HashToCompare(admins, email)]
            && result == LoginResult(admins, email, credentials.password.value, compare))
  {
    compared := [];
    if !Truthy(credentials.email) || !Truthy(credentials.password) {
      return Null, compared;
    }
    var email := credentials.email.value;
    var password := credentials.password.value;

    var allowed := limiter.CheckRateLimit(email, LoginLimit, LoginWindowSeconds, now, sweep);
    if !allowed {
      var remainingTime := limiter.GetRateLimitInfo(email, infoNow);
      var minutes := if remainingTime.Some? && remainingTime.value != 0
                     then (remainingTime.value + 59) / 60 else 10;
      return Throttled(ThrottleMessage(minutes)), compared;
    }

    var user: Option<Admin> := if email in admins then Some(admins[email]) else None;
    var hashedPassword := if user.Some? && user.value.password != "" then user.value.password else DummyHash;
    var isPasswordValid := compare(password, hashedPassword);
    compared := compared + [hashedPassword];

    if user.None? || !isPasswordValid {
      return Null, compared;
    }
    return User(Identity(user.value.id, user.value.email, "Admin")), compared;
  }

  // ---------------------------------------------------------------------
  // Session callbacks
  // ---------------------------------------------------------------------

  /** The JWT next-auth keeps; `sub` is set by next-auth itself. */
  datatype Token = Token(sub: Option<string>, email: Option<string>)

  datatype SessionUser = SessionUser(id: Option<string>, email: Option<string>, name: Option<string>)

  datatype Session = Session(user: Option<SessionUser>)

  /** The `jwt` callback: copy the user's e-mail in when a user is present. */
  function JwtCallback(token: Token, user: Option<Identity>): (t: Token)
    ensures t.sub == token.sub
    ensures user.Some? ==> t.email == Some(user.value.email)
    ensures user.None? ==> t == token
  {
    if user.Some? then token.(email := Some(user.value.email)) else token
  }

  /** The `session` callback: when both a token and a session user exist,
      the user's id and e-mail come from the token; the name is kept. */
  function SessionCallback(session: Session, token: Option<Token>): (s: Session)
    ensures token.Some? && session.user.Some? ==>
      s.user.Some? && s.user.value.id == token.value.sub && s.user.value.email == token.value.email
      && s.user.value.name == session.user.value.name
    ensures token.None? || session.user.None? ==> s == session
  {
    if token.Some? && session.user.Some? then
      Session(Some(session.user.value.(id := token.value.sub, email := token.value.email)))
    else session
  }

  /** After a sign-in, the session built from the token carries the signed-in
      identity's id and e-mail, provided next-auth put the user id in `sub`. */
  lemma SignInReachesSession(session: Session, token: Token, identity: Identity)
    requires session.user.Some? && token.sub == Some(identity.id)
    ensures var s := SessionCallback(session, Some(JwtCallback(token, Some(identity))));
      s.user.Some? && s.user.value.id == Some(identity.id) && s.user.value.email == Some(identity.email)
  {
  }
}
