/** The staff handlers' decisions: who may act, how the path id is read,
    and which status each service outcome becomes. Every handler first
    checks the identity the auth gate stored. Lookups read the store; a
    write handler is given the service's answer for the bound input and
    parsed id, since the service call itself changes the store. */
module StaffController {
  import opened Results
  import opened Text
  import opened Models
  import opened Store
  import opened Middleware
  import StaffService

  const Admin: string := "admin"

  const PermissionDenied: string := "Permission denied"
  const InvalidStaffIdTitle: string := "Invalid staff ID"
  const IdMustBePositive: string := "Staff ID must be a positive integer"
  const StaffNotFoundTitle: string := "Staff not found"

  /** A handler's reply: success with its payload, or an error response. */
  datatype Reply<T> = Success(status: int, title: string, data: T) | Failure(response: Response)

  /** The 401 every handler answers when the stored identity is not valid. */
  function AuthFailure(keys: map<string, Value>): Response
    requires GetCurrentStaff(keys).Err?
  {
    Response(Unauthorized, AuthenticationRequired, GetCurrentStaff(keys).msg)
  }

  predicate IsAdmin(keys: map<string, Value>) {
    GetCurrentStaff(keys).Ok? && GetCurrentStaff(keys).value.role == Admin
  }

  /** The 400 for a path id that is not a base-10 number below 2^32. */
  const BadId: Response := Response(BadRequest, InvalidStaffIdTitle, IdMustBePositive)

  function CreateStaff(keys: map<string, Value>, bound: Result<CreateStaffInput>,
                       create: CreateStaffInput -> Result<Staff>): (r: Reply<Staff>)
    ensures GetCurrentStaff(keys).Err? ==> r == Failure(AuthFailure(keys))
    ensures GetCurrentStaff(keys).Ok? && !IsAdmin(keys) ==>
      r == Failure(Response(Forbidden, PermissionDenied, "Only admin can create staff accounts"))
    ensures IsAdmin(keys) && bound.Err? ==> r == Failure(Response(BadRequest, "Invalid request payload", bound.msg))
    ensures IsAdmin(keys) && bound.Ok? && create(bound.value).Err? ==>
      r == Failure(Response(BadRequest, "Failed to create staff", create(bound.value).msg))
    ensures r.Success? <==> IsAdmin(keys) && bound.Ok? && create(bound.value).Ok?
    ensures r.Success? ==> r.status == Created && r.data == create(bound.value).value
  {
    match GetCurrentStaff(keys)
    case Err(e) => Failure(Response(Unauthorized, AuthenticationRequired, e))
    case Ok(current) =>
      if current.role != Admin then
        Failure(Response(Forbidden, PermissionDenied, "Only admin can create staff accounts"))
      else if bound.Err? then
        Failure(Response(BadRequest, "Invalid request payload", bound.msg))
      else
        match create(bound.value)
        case Err(e) => Failure(Response(BadRequest, "Failed to create staff", e))
        case Ok(staff) => Success(Created, "Staff created successfully", staff)
  }

  function GetAllStaff(db: Db, keys: map<string, Value>, readFault: Option<string>): (r: Reply<seq<Staff>>)
    reads db
    requires db.Valid()
    ensures GetCurrentStaff(keys).Err? ==> r == Failure(AuthFailure(keys))
    ensures GetCurrentStaff(keys).Ok? && !IsAdmin(keys) ==>
      r == Failure(Response(Forbidden, PermissionDenied, "Only admin can view all staff records"))
    ensures IsAdmin(keys) && readFault.Some? ==>
      r == Failure(Response(InternalServerError, "Failed to fetch staff", readFault.value))
    ensures r.Success? <==> IsAdmin(keys) && readFault.None?
    ensures r.Success? ==> r.status == OK && r.data == StaffService.GetAllStaff(db, readFault).value
    ensures r.Success? ==> forall k :: k in db.staff ==> db.staff[k] in r.data
    ensures r.Success? ==> forall i :: 0 <= i < |r.data| ==> r.data[i].id in db.staff && db.staff[r.data[i].id] == r.data[i]
  {
    match GetCurrentStaff(keys)
    case Err(e) => Failure(Response(Unauthorized, AuthenticationRequired, e))
    case Ok(current) =>
      if current.role != Admin then
        Failure(Response(Forbidden, PermissionDenied, "Only admin can view all staff records"))
      else
        match StaffService.GetAllStaff(db, readFault)
        case Err(e) => Failure(Response(InternalServerError, "Failed to fetch staff", e))
        case Ok(list) => Success(OK, "Staff list retrieved successfully", list)
  }

  /** Anyone signed in may read their own record; only an admin may read
      another's. The id is parsed before the permission check. */
  function GetStaffByID(db: Db, keys: map<string, Value>, idParam: string, readFault: Option<string>): (r: Reply<Staff>)
    reads db
    ensures GetCurrentStaff(keys).Err? ==> r == Failure(AuthFailure(keys))
    ensures GetCurrentStaff(keys).Ok? && ParseUint32(idParam).None? ==> r == Failure(BadId)
    ensures GetCurrentStaff(keys).Ok? && ParseUint32(idParam).Some? && !IsAdmin(keys)
            && ParseUint32(idParam).value != GetCurrentStaff(keys).value.id ==>
      r == Failure(Response(Forbidden, PermissionDenied, "You can only view your own staff record"))
    ensures r.Success? <==>
      && GetCurrentStaff(keys).Ok? && ParseUint32(idParam).Some?
      && (IsAdmin(keys) || ParseUint32(idParam).value == GetCurrentStaff(keys).value.id)
      && readFault.None? && ParseUint32(idParam).value in db.staff
    ensures r.Success? ==> r.status == OK && r.data == db.staff[ParseUint32(idParam).value]
    ensures GetCurrentStaff(keys).Ok? && ParseUint32(idParam).Some?
            && (IsAdmin(keys) || ParseUint32(idParam).value == GetCurrentStaff(keys).value.id)
            && (readFault.Some? || ParseUint32(idParam).value !in db.staff) ==>
      r == Failure(Response(NotFound, StaffNotFoundTitle, ""))
  {
    match GetCurrentStaff(keys)
    case Err(e) => Failure(Response(Unauthorized, AuthenticationRequired, e))
    case Ok(current) =>
      match ParseUint32(idParam)
      case None => Failure(BadId)
      case Some(id) =>
        if current.role != Admin && current.id != id then
          Failure(Response(Forbidden, PermissionDenied, "You can only view your own staff record"))
        else
          match StaffService.GetStaffByID(db, id, readFault)
          case Err(_) => Failure(Response(NotFound, StaffNotFoundTitle, ""))
          case Ok(staff) => Success(OK, "Staff retrieved successfully", staff)
  }

  /** Admin only; the role is checked before the id is parsed. */
  function UpdateStaff(keys: map<string, Value>, idParam: string, bound: Result<UpdateStaffInput>,
                       update: (nat, UpdateStaffInput) -> Result<Staff>): (r: Reply<Staff>)
    ensures GetCurrentStaff(keys).Err? ==> r == Failure(AuthFailure(keys))
    ensures GetCurrentStaff(keys).Ok? && !IsAdmin(keys) ==>
      r == Failure(Response(Forbidden, PermissionDenied, "Only admin can update staff records"))
    ensures IsAdmin(keys) && ParseUint32(idParam).None? ==> r == Failure(BadId)
    ensures IsAdmin(keys) && ParseUint32(idParam).Some? && bound.Err? ==>
      r == Failure(Response(BadRequest, "Invalid input", bound.msg))
    ensures IsAdmin(keys) && ParseUint32(idParam).Some? && bound.Ok? && update(ParseUint32(idParam).value, bound.value).Err? ==>
      r == Failure(Response(BadRequest, "Failed to update staff", update(ParseUint32(idParam).value, bound.value).msg))
    ensures r.Success? <==>
      IsAdmin(keys) && ParseUint32(idParam).Some? && bound.Ok? && update(ParseUint32(idParam).value, bound.value).Ok?
    ensures r.Success? ==> r.status == OK && r.data == update(ParseUint32(idParam).value, bound.value).value
  {
    match GetCurrentStaff(keys)
    case Err(e) => Failure(Response(Unauthorized, AuthenticationRequired, e))
    case Ok(current) =>
      if current.role != Admin then
        Failure(Response(Forbidden, PermissionDenied, "Only admin can update staff records"))
      else
        match ParseUint32(idParam)
        case None => Failure(BadId)
        case Some(id) =>
          if bound.Err? then Failure(Response(BadRequest, "Invalid input", bound.msg))
          else
            match update(id, bound.value)
            case Err(e) => Failure(Response(BadRequest, "Failed to update staff", e))
            case Ok(staff) => Success(OK, "Staff updated successfully", staff)
  }

  /** Admin only; the role is checked before the id is parsed, and every
      service error is reported as 404. */
  function DeleteStaff(keys: map<string, Value>, idParam: string, delete: nat -> Option<string>): (r: Reply<()>)
    ensures GetCurrentStaff(keys).Err? ==> r == Failure(AuthFailure(keys))
    ensures GetCurrentStaff(keys).Ok? && !IsAdmin(keys) ==>
      r == Failure(Response(Forbidden, PermissionDenied, "Only admin can delete staff records"))
    ensures IsAdmin(keys) && ParseUint32(idParam).None? ==> r == Failure(BadId)
    ensures IsAdmin(keys) && ParseUint32(idParam).Some? && delete(ParseUint32(idParam).value).Some? ==>
      r == Failure(Response(NotFound, StaffNotFoundTitle, ""))
    ensures r.Success? <==> IsAdmin(keys) && ParseUint32(idParam).Some? && delete(ParseUint32(idParam).value).None?
    ensures r.Success? ==> r.status == OK
  {
    match GetCurrentStaff(keys)
    case Err(e) => Failure(Response(Unauthorized, AuthenticationRequired, e))
    case Ok(current) =>
      if current.role != Admin then
        Failure(Response(Forbidden, PermissionDenied, "Only admin can delete staff records"))
      else
        match ParseUint32(idParam)
        case None => Failure(BadId)
        case Some(id) =>
          if delete(id).Some? then Failure(Response(NotFound, StaffNotFoundTitle, ""))
          else Success(OK, "Staff deleted successfully", ())
  }

  /** The two orders differ for a non-admin with a malformed id: reading
      answers 400, updating and deleting answer 403. */
  lemma CheckOrderDiffers(db: Db, keys: map<string, Value>, idParam: string, readFault: Option<string>,
                          bound: Result<UpdateStaffInput>, update: (nat, UpdateStaffInput) -> Result<Staff>,
                          delete: nat -> Option<string>)
    requires GetCurrentStaff(keys).Ok? && !IsAdmin(keys)
    requires ParseUint32(idParam).None?
    ensures GetStaffByID(db, keys, idParam, readFault) == Failure(BadId)
    ensures UpdateStaff(keys, idParam, bound, update).response.status == Forbidden
    ensures DeleteStaff(keys, idParam, delete).response.status == Forbidden
  {
  }

  /** A signed-in non-admin can read their own record by its decimal id,
      provided it is still stored. */
  lemma OwnRecordReadable(db: Db, keys: map<string, Value>, readFault: Option<string>)
    requires GetCurrentStaff(keys).Ok?
    requires GetCurrentStaff(keys).value.id < Uint32Limit
    requires readFault.None? && GetCurrentStaff(keys).value.id in db.staff
    ensures GetStaffByID(db, keys, Decimal(GetCurrentStaff(keys).value.id), readFault)
            == Success(OK, "Staff retrieved successfully", db.staff[GetCurrentStaff(keys).value.id])
  {
    ParseUint32OfDecimal(GetCurrentStaff(keys).value.id);
  }
}
