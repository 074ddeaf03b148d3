/** Sign-in and token refresh. Password checking, token issue and token
    refresh are opaque: `passwordMatches(hash, password)`, `issue(id, role)`
    and `refresh(token)` are their answers. */
module AuthController {
  import opened Results
  import opened Text
  import opened Models
  import opened Store
  import opened Middleware
  import StaffService

  datatype LoginInput = LoginInput(email: string, password: string)

  /** An access token and a refresh token. */
  datatype Tokens = Tokens(accessToken: string, refreshToken: string)

  datatype LoginReply = LoggedIn(tokens: Tokens, staff: Staff) | LoginFailed(response: Response)
  datatype RefreshReply = Refreshed(tokens: Tokens) | RefreshFailed(response: Response)

  const AuthenticationFailed: string := "Authentication failed"
  const InvalidCredentials: string := "Invalid email or password"

  /** The one reply for an unknown address and for a wrong password. */
  const BadCredentials: Response := Response(Unauthorized, AuthenticationFailed, InvalidCredentials)
  const Inactive: Response := Response(Forbidden, "Account inactive", "Please contact administrator")

  /** The checks in order: payload, account, password, active flag, tokens.
      The address is lower-cased before the lookup. */
  function Login(db: Db, body: Result<LoginInput>, readFault: Option<string>,
                 passwordMatches: (string, string) -> bool,
                 issue: (nat, string) -> Result<Tokens>): (r: LoginReply)
    reads db
    requires db.Valid()
    ensures body.Err? ==> r == LoginFailed(Response(BadRequest, "Invalid request payload", body.msg))
    ensures body.Ok? && StaffService.GetStaffByEmail(db, Lower(body.value.email), readFault).Err? ==>
      r == LoginFailed(BadCredentials)
    ensures body.Ok? && StaffService.GetStaffByEmail(db, Lower(body.value.email), readFault).Ok? ==>
      var staff := StaffService.GetStaffByEmail(db, Lower(body.value.email), readFault).value;
      && (!passwordMatches(staff.passwordHash, body.value.password) ==> r == LoginFailed(BadCredentials))
      && (passwordMatches(staff.passwordHash, body.value.password) && !staff.isActive ==> r == LoginFailed(Inactive))
      && (passwordMatches(staff.passwordHash, body.value.password) && staff.isActive && issue(staff.id, staff.role).Err? ==>
            r == LoginFailed(Response(InternalServerError, "Token generation failed", issue(staff.id, staff.role).msg)))
      && (passwordMatches(staff.passwordHash, body.value.password) && staff.isActive && issue(staff.id, staff.role).Ok? ==>
            r == LoggedIn(issue(staff.id, staff.role).value, staff))
    ensures r.LoggedIn? ==>
      && body.Ok? && readFault.None?
      && r.staff.id in db.staff && db.staff[r.staff.id] == r.staff
      && r.staff.email == Lower(body.value.email)
      && passwordMatches(r.staff.passwordHash, body.value.password)
      && r.staff.isActive
      && issue(r.staff.id, r.staff.role) == Ok(r.tokens)
  {
    if body.Err? then LoginFailed(Response(BadRequest, "Invalid request payload", body.msg))
    else
      var email := Lower(body.value.email);
      match StaffService.GetStaffByEmail(db, email, readFault)
      case Err(_) => LoginFailed(BadCredentials)
      case Ok(staff) =>
        if !passwordMatches(staff.passwordHash, body.value.password) then LoginFailed(BadCredentials)
        else if !staff.isActive then LoginFailed(Inactive)
        else
          match issue(staff.id, staff.role)
          case Err(e) => LoginFailed(Response(InternalServerError, "Token generation failed", e))
          case Ok(tokens) => LoggedIn(tokens, staff)
  }

  /** The address's case does not matter: signing in with its lower-case
      form gives the same reply. */
  lemma LoginIgnoresEmailCase(db: Db, password: string, email: string, readFault: Option<string>,
                              passwordMatches: (string, string) -> bool, issue: (nat, string) -> Result<Tokens>)
    requires db.Valid()
    ensures Login(db, Ok(LoginInput(Lower(email), password)), readFault, passwordMatches, issue)
         == Login(db, Ok(LoginInput(email, password)), readFault, passwordMatches, issue)
  {
    LowerIdempotent(email);
  }

  /** A wrong password gets the unknown-address reply even on an inactive
      account, so the reply does not reveal whether the account is active. */
  lemma WrongPasswordHidesInactive(db: Db, body: LoginInput, readFault: Option<string>,
                                   passwordMatches: (string, string) -> bool, issue: (nat, string) -> Result<Tokens>)
    requires db.Valid()
    requires forall k :: k in db.staff ==> !passwordMatches(db.staff[k].passwordHash, body.password)
    ensures Login(db, Ok(body), readFault, passwordMatches, issue) == LoginFailed(BadCredentials)
  {
  }

  // ---------------------------------------------------------------- refresh

  const HeaderRequired: string := "Authorization header required"
  const InvalidFormat: string := "Invalid authorization format"

  /** The refresh header split on single spaces must be exactly "Bearer" and
      one more part. */
  predicate RefreshFormatOk(header: string) {
    var parts := SplitSpace(header);
    |parts| == 2 && parts[0] == Bearer
  }

  function RefreshToken(header: string, refresh: string -> Result<Tokens>): (r: RefreshReply)
    ensures header == [] ==> r == RefreshFailed(Response(Unauthorized, HeaderRequired, ""))
    ensures header != [] && !RefreshFormatOk(header) ==> r == RefreshFailed(Response(Unauthorized, InvalidFormat, ""))
    ensures RefreshFormatOk(header) && refresh(SplitSpace(header)[1]).Err? ==>
      r == RefreshFailed(Response(Unauthorized, "Token refresh failed", refresh(SplitSpace(header)[1]).msg))
    ensures r.RefreshFailed? ==> r.response.status == Unauthorized
    ensures r.Refreshed? <==> RefreshFormatOk(header) && refresh(SplitSpace(header)[1]).Ok?
    ensures r.Refreshed? ==> r.tokens == refresh(SplitSpace(header)[1]).value
  {
    if header == [] then RefreshFailed(Response(Unauthorized, HeaderRequired, ""))
    else
      var parts := SplitSpace(header);
      if |parts| != 2 || parts[0] != Bearer then RefreshFailed(Response(Unauthorized, InvalidFormat, ""))
      else
        match refresh(parts[1])
        case Err(e) => RefreshFailed(Response(Unauthorized, "Token refresh failed", e))
        case Ok(tokens) => Refreshed(tokens)
  }

  /** The format check accepts exactly "Bearer", one space, and a token with
      no space in it (possibly empty); the token is what follows the space. */
  lemma {:induction false} RefreshFormatExactly(header: string)
    ensures RefreshFormatOk(header) <==>
      |header| >= |Bearer| + 1 && header[..|Bearer| + 1] == Bearer + " " && ' ' !in header[|Bearer| + 1..]
    ensures RefreshFormatOk(header) ==> SplitSpace(header)[1] == header[|Bearer| + 1..]
  {
    var n := |Bearer| + 1;
    if RefreshFormatOk(header) {
      var parts := SplitSpace(header);
      assert Join(parts, " ") == parts[0] + " " + Join(parts[1..], " ");
      assert parts[1..] == [parts[1]];
      assert header == Bearer + " " + parts[1];
      assert header[..n] == Bearer + " ";
      assert header[n..] == parts[1];
    } else if |header| >= n && header[..n] == Bearer + " " && ' ' !in header[n..] {
      var t := header[n..];
      assert header == Bearer + " " + t;
      assert ' ' !in Bearer;
      SplitAfterPiece(Bearer, t);
      SplitOfPiece(t);
      assert false;
    }
  }

  /** A doubled space after the scheme: the auth gate still finds the token,
      the refresh handler rejects the header. */
  lemma DoubledSpace(token: string, cookie: Option<string>, refresh: string -> Result<Tokens>)
    requires IsWord(token)
    ensures SelectToken(Bearer + "  " + token, cookie) == Chosen(token)
    ensures RefreshToken(Bearer + "  " + token, refresh) == RefreshFailed(Response(Unauthorized, InvalidFormat, ""))
  {
    assert Bearer + "  " + token == Bearer + "  " + token + [];
    HeaderTokenWins("  ", token, [], cookie);
    RefreshFormatExactly(Bearer + "  " + token);
    assert (Bearer + "  " + token)[|Bearer| + 1..][0] == ' ';
  }
}
