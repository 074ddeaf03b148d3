/** The authentication and authorization gates in front of the handlers:
    which token a request carries, what the context holds once it is
    verified, and whether the holder's role may pass. Token verification is
    an opaque function `verify` from a token to its claims. */
module Middleware {
  import opened Results
  import opened Text

  /** The identity stored in the request context by the auth gate. */
  datatype CurrentStaff = CurrentStaff(id: nat, role: string)

  /** The fields of a verified token that the gate keeps. */
  datatype Claims = Claims(id: nat, role: string)

  /** A value in the request context: a `CurrentStaff`, or anything else. */
  datatype Value = StaffValue(staff: CurrentStaff) | OtherValue

  /** An error reply: HTTP status, title and detail. */
  datatype Response = Response(status: int, title: string, detail: string)

  const CurrentStaffKey: string := "currentStaff"
  const Bearer: string := "Bearer"

  const StaffContextMissing: string := "staff context missing"
  const InvalidContextType: string := "invalid staff context type"
  const InvalidStaffId: string := "invalid staff ID"

  const OK: int := 200
  const Created: int := 201
  const BadRequest: int := 400
  const Unauthorized: int := 401
  const Forbidden: int := 403
  const NotFound: int := 404
  const InternalServerError: int := 500

  /** The identity the gate stores keeps the token's id and role. */
  function FromClaims(c: Claims): (r: CurrentStaff)
    ensures r.id == c.id && r.role == c.role
  {
    CurrentStaff(c.id, c.role)
  }

  /** Nothing the gate reads from the claims is lost: two tokens give the
      same identity exactly when their claims agree. */
  lemma ClaimsDetermineIdentity(a: Claims, b: Claims)
    ensures FromClaims(a) == FromClaims(b) <==> a == b
  {
  }

  // ---------------------------------------------------------------- current staff

  /** The identity stored under the current-staff key, checked: it must be
      there, be a `CurrentStaff`, and carry a nonzero id. */
  function GetCurrentStaff(keys: map<string, Value>): (r: Result<CurrentStaff>)
    ensures CurrentStaffKey !in keys ==> r == Err(StaffContextMissing)
    ensures CurrentStaffKey in keys && keys[CurrentStaffKey].OtherValue? ==> r == Err(InvalidContextType)
    ensures CurrentStaffKey in keys && keys[CurrentStaffKey].StaffValue? && keys[CurrentStaffKey].staff.id == 0
      ==> r == Err(InvalidStaffId)
    ensures r.Ok? <==> CurrentStaffKey in keys && keys[CurrentStaffKey].StaffValue? && keys[CurrentStaffKey].staff.id != 0
    ensures r.Ok? ==> r.value == keys[CurrentStaffKey].staff && r.value.id != 0
  {
    if CurrentStaffKey !in keys then Err(StaffContextMissing)
    else
      match keys[CurrentStaffKey]
      case OtherValue => Err(InvalidContextType)
      case StaffValue(staff) => if staff.id == 0 then Err(InvalidStaffId) else Ok(staff)
  }

  // ---------------------------------------------------------------- token selection

  /** Which token the request carries. A header that is the scheme word alone
      makes the gate index past the end of its fields: a run-time panic. */
  datatype TokenChoice = Chosen(token: string) | IndexOutOfRange

  /** The cookie's value, or the empty token when there is no cookie. */
  function CookieToken(cookie: Option<string>): TokenChoice {
    Chosen(cookie.GetOr(""))
  }

  /** The header wins when its first field is exactly "Bearer"; then the
      token is its second field. Otherwise the `accessToken` cookie is used. */
  function SelectToken(header: string, cookie: Option<string>): (r: TokenChoice)
    ensures r.IndexOutOfRange? <==> Fields(header) == [Bearer]
    ensures (Fields(header) == [] || Fields(header)[0] != Bearer) ==> r == CookieToken(cookie)
    ensures |Fields(header)| >= 2 && Fields(header)[0] == Bearer ==> r == Chosen(Fields(header)[1])
  {
    var fields := Fields(header);
    if |fields| != 0 && fields[0] == Bearer then
      if |fields| >= 2 then Chosen(fields[1]) else IndexOutOfRange
    else CookieToken(cookie)
  }

  /** "Bearer", any run of white space and a word: the word is the token,
      whatever the cookie holds and whatever fields follow it. */
  lemma HeaderTokenWins(sp: string, token: string, rest: string, cookie: Option<string>)
    requires sp != [] && forall i :: 0 <= i < |sp| ==> IsSpace(sp[i])
    requires IsWord(token)
    requires rest == [] || IsSpace(rest[0])
    ensures SelectToken(Bearer + sp + token + rest, cookie) == Chosen(token)
  {
    assert Bearer + sp + token + rest == Bearer + sp + (token + rest);
    FieldsAfterWord(Bearer, sp, token + rest);
    if rest == [] {
      assert token + rest == token;
      FieldsOfWord(token);
    } else {
      assert token + rest == token + [rest[0]] + rest[1..];
      FieldsAfterWord(token, [rest[0]], rest[1..]);
    }
  }

  /** "Bearer" with nothing after it but white space panics. */
  lemma BareSchemePanics(sp: string, cookie: Option<string>)
    requires forall i :: 0 <= i < |sp| ==> IsSpace(sp[i])
    ensures SelectToken(Bearer + sp, cookie) == IndexOutOfRange
  {
    if sp == [] {
      assert Bearer + sp == Bearer;
      FieldsOfWord(Bearer);
    } else {
      assert Bearer + sp == Bearer + sp + [];
      FieldsAfterWord(Bearer, sp, []);
    }
  }

  /** Any other first field, "bearer" or "Basic" included, falls back to the
      cookie: the scheme is compared case-sensitively. */
  lemma OtherSchemeUsesCookie(scheme: string, sp: string, rest: string, cookie: Option<string>)
    requires IsWord(scheme) && scheme != Bearer
    requires sp != [] && forall i :: 0 <= i < |sp| ==> IsSpace(sp[i])
    ensures SelectToken(scheme + sp + rest, cookie) == CookieToken(cookie)
  {
    FieldsAfterWord(scheme, sp, rest);
  }

  /** A missing header (read as empty) or a blank one falls back to the cookie. */
  lemma BlankHeaderUsesCookie(header: string, cookie: Option<string>)
    requires forall i :: 0 <= i < |header| ==> IsSpace(header[i])
    ensures SelectToken(header, cookie) == CookieToken(cookie)
  {
    FieldsSkipSpace(header, []);
    assert header + [] == header;
  }

  // ---------------------------------------------------------------- the auth gate

  const UnauthorizedTitle: string := "Unauthorized"
  const TokenRequired: string := "An access token is required"

  datatype AuthOutcome = Authenticated(staff: CurrentStaff) | Rejected(response: Response) | Panicked

  /** The auth gate's decision: 401 without a token or when `verify` refuses
      it, otherwise the identity from the verified claims. */
  function Authenticate(header: string, cookie: Option<string>, verify: string -> Result<Claims>): (r: AuthOutcome)
    ensures r.Panicked? <==> SelectToken(header, cookie).IndexOutOfRange?
    ensures SelectToken(header, cookie) == Chosen("") ==> r == Rejected(Response(Unauthorized, UnauthorizedTitle, TokenRequired))
    ensures r.Rejected? ==> r.response.status == Unauthorized
    ensures r.Authenticated? <==>
      SelectToken(header, cookie).Chosen? && SelectToken(header, cookie).token != []
      && verify(SelectToken(header, cookie).token).Ok?
    ensures r.Authenticated? ==> r.staff == FromClaims(verify(SelectToken(header, cookie).token).value)
    ensures r.Rejected? && SelectToken(header, cookie) != Chosen("") ==>
      r.response.detail == verify(SelectToken(header, cookie).token).msg
  {
    match SelectToken(header, cookie)
    case IndexOutOfRange => Panicked
    case Chosen(token) =>
      if token == [] then Rejected(Response(Unauthorized, UnauthorizedTitle, TokenRequired))
      else
        match verify(token)
        case Err(e) => Rejected(Response(Unauthorized, UnauthorizedTitle, e))
        case Ok(claims) => Authenticated(FromClaims(claims))
  }

  // ---------------------------------------------------------------- the role gate

  const AuthenticationRequired: string := "Authentication required"
  const AccessDenied: string := "Access denied"

  datatype RoleOutcome = Permitted | Denied(response: Response)

  /** 401 unless the context holds a valid identity, then 403 unless its
      role is one of `allowedRoles`. */
  function Authorize(keys: map<string, Value>, allowedRoles: seq<string>): (r: RoleOutcome)
    ensures r.Permitted? <==> GetCurrentStaff(keys).Ok? && GetCurrentStaff(keys).value.role in allowedRoles
    ensures GetCurrentStaff(keys).Err? ==>
      r == Denied(Response(Unauthorized, AuthenticationRequired, GetCurrentStaff(keys).msg))
    ensures GetCurrentStaff(keys).Ok? && GetCurrentStaff(keys).value.role !in allowedRoles ==>
      r == Denied(Response(Forbidden, AccessDenied, "Required role(s): " + Join(allowedRoles, ", ")))
  {
    match GetCurrentStaff(keys)
    case Err(e) => Denied(Response(Unauthorized, AuthenticationRequired, e))
    case Ok(staff) =>
      if staff.role in allowedRoles then Permitted
      else Denied(Response(Forbidden, AccessDenied, "Required role(s): " + Join(allowedRoles, ", ")))
  }

  /** After the auth gate passes, the role gate sees exactly the verified
      identity: claims with id 0 are let through by the auth gate and only
      stopped, with 401, by the role gate. */
  lemma AuthThenAuthorize(keys: map<string, Value>, header: string, cookie: Option<string>,
                          verify: string -> Result<Claims>, allowedRoles: seq<string>)
    requires Authenticate(header, cookie, verify).Authenticated?
    ensures var staff := Authenticate(header, cookie, verify).staff;
      var after := keys[CurrentStaffKey := StaffValue(staff)];
      && (staff.id != 0 ==> GetCurrentStaff(after) == Ok(staff))
      && (staff.id == 0 ==> Authorize(after, allowedRoles).Denied? && Authorize(after, allowedRoles).response.status == Unauthorized)
      && (Authorize(after, allowedRoles).Permitted? <==> staff.id != 0 && staff.role in allowedRoles)
  {
  }

  // ---------------------------------------------------------------- the request context

  /** A request's context as the gates see it: the values stored on it,
      whether the handler chain was stopped, and the reply written. */
  class Context {
    var keys: map<string, Value>
    var aborted: bool
    var response: Option<Response>

    constructor(keys: map<string, Value>)
      ensures this.keys == keys && !aborted && response == None
    {
      this.keys := keys;
      aborted := false;
      response := None;
    }

    /** The auth gate. A panic is answered 500 by the recovery handler and
        ends the chain. */
    method AuthMiddleware(header: string, cookie: Option<string>, verify: string -> Result<Claims>)
      modifies this
      ensures match Authenticate(header, cookie, verify)
        case Authenticated(staff) =>
          keys == old(keys)[CurrentStaffKey := StaffValue(staff)] && aborted == old(aborted) && response == old(response)
        case Rejected(reply) =>
          keys == old(keys) && aborted && response == Some(reply)
        case Panicked =>
          keys == old(keys) && aborted && response == Some(Response(InternalServerError, "", ""))
    {
      var accessToken := "";
      var fields := Fields(header);
      if |fields| != 0 && fields[0] == Bearer {
        if |fields| < 2 {
          response := Some(Response(InternalServerError, "", ""));
          aborted := true;
          return;
        }
        accessToken := fields[1];
      } else if cookie.Some? {
        accessToken := cookie.value;
      }
      if accessToken == "" {
        response := Some(Response(Unauthorized, UnauthorizedTitle, TokenRequired));
        aborted := true;
        return;
      }
      var user := verify(accessToken);
      if user.Err? {
        response := Some(Response(Unauthorized, UnauthorizedTitle, user.msg));
        aborted := true;
        return;
      }
      keys := keys[CurrentStaffKey := StaffValue(FromClaims(user.value))];
    }

    /** The role gate. */
    method RoleMiddleware(allowedRoles: seq<string>)
      modifies this
      ensures keys == old(keys)
      ensures match Authorize(old(keys), allowedRoles)
        case Permitted => aborted == old(aborted) && response == old(response)
        case Denied(reply) => aborted && response == Some(reply)
    {
      var staff := GetCurrentStaff(keys);
      if staff.Err? {
        response := Some(Response(Unauthorized, AuthenticationRequired, staff.msg));
        aborted := true;
        return;
      }
      if staff.value.role !in allowedRoles {
        response := Some(Response(Forbidden, AccessDenied, "Required role(s): " + Join(allowedRoles, ", ")));
        aborted := true;
        return;
      }
    }

    /** A route group's chain, as the staff routes wire it: the auth gate,
        then the role gate unless the auth gate stopped the request. The
        request reaches its handler exactly when it carries a verified token
        whose claims have a nonzero id and an allowed role. */
    method RunGates(header: string, cookie: Option<string>, verify: string -> Result<Claims>,
                    allowedRoles: seq<string>)
      requires !aborted
      modifies this
      ensures !aborted <==>
        && Authenticate(header, cookie, verify).Authenticated?
        && Authenticate(header, cookie, verify).staff.id != 0
        && Authenticate(header, cookie, verify).staff.role in allowedRoles
      ensures !aborted ==> GetCurrentStaff(keys) == Ok(Authenticate(header, cookie, verify).staff)
    {
      AuthMiddleware(header, cookie, verify);
      if !aborted {
        AuthThenAuthorize(old(keys), header, cookie, verify, allowedRoles);
        RoleMiddleware(allowedRoles);
      }
    }
  }
}
