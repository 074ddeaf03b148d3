/** Staff accounts: created with a lower-cased e-mail address and a password
    hash, looked up by key, e-mail or employee number, updated field by field.
    Unlike the other repositories, the staff lookups report a missing row as
    "no row, no error"; `readFault` is the database's answer to the lookup
    itself (`None` when the query runs). */
module StaffService {
  import opened Results
  import opened Text
  import opened Models
  import opened Tables
  import opened Store

  const StaffMissing: string := "staff not found"

  /** `hash` is the outcome of hashing `input.password`. */
  method CreateStaff(db: Db, input: CreateStaffInput, hash: Result<string>, fault: Option<string>)
    returns (r: Result<Staff>)
    requires db.Valid()
    modifies db
    ensures db.Valid()
    ensures old(db.NotesFollowAppointments()) ==> db.NotesFollowAppointments()
    ensures db.patients == old(db.patients) && db.appointments == old(db.appointments) && db.notes == old(db.notes)
    ensures hash.Err? ==> r == Err(hash.msg)
    ensures hash.Ok? && fault.Some? ==> r == Err(fault.value)
    ensures r.Err? ==> db.staff == old(db.staff)
    ensures r.Ok? <==> hash.Ok? && fault.None?
    ensures r.Ok? ==>
      && r.value.email == Lower(input.email)
      && r.value.passwordHash == hash.value
      && r.value.employeeId == input.employeeId
      && r.value.firstName == input.firstName && r.value.lastName == input.lastName
      && r.value.phoneNumber == input.phoneNumber
      && r.value.role == input.role
      && r.value.licenseNumber == input.licenseNumber
      && r.value.specialization == input.specialization
      && r.value.department == input.department
      && r.value.isActive
      && r.value.id !in old(db.staff)
      && db.staff == old(db.staff)[r.value.id := r.value]
  {
    if hash.Err? {
      return Err(hash.msg);
    }
    var member := Staff(0, input.employeeId, input.firstName, input.lastName, input.phoneNumber,
                        Lower(input.email), hash.value, input.role, false,
                        input.licenseNumber, input.specialization, input.department);
    r := db.InsertStaff(member, fault);
  }

  /** Every account, each once, in key order, unless the query fails. */
  function GetAllStaff(db: Db, readFault: Option<string>): (r: Result<seq<Staff>>)
    reads db
    requires db.Valid()
    ensures readFault.Some? ==> r == Err(readFault.value)
    ensures readFault.None? ==> r.Ok?
    ensures r.Ok? ==> forall i :: 0 <= i < |r.value| ==> r.value[i].id in db.staff && db.staff[r.value[i].id] == r.value[i]
    ensures r.Ok? ==> forall k :: k in db.staff ==> db.staff[k] in r.value
    ensures r.Ok? ==> forall i, j :: 0 <= i < j < |r.value| ==> r.value[i].id < r.value[j].id
  {
    if readFault.Some? then Err(readFault.value)
    else
      var ids := SelectIds(db.staff, (s: Staff) => true, 0, db.nextId);
      var rows := Rows(db.staff, ids);
      assert forall i :: 0 <= i < |rows| ==> ids[i] in db.staff && rows[i] == db.staff[ids[i]] && rows[i].id == ids[i];
      Ok(rows)
  }

  function GetStaffByID(db: Db, id: nat, readFault: Option<string>): (r: Result<Staff>)
    reads db
    ensures readFault.Some? ==> r == Err(readFault.value)
    ensures readFault.None? ==> (r.Ok? <==> id in db.staff)
    ensures readFault.None? && r.Err? ==> r.msg == StaffMissing
    ensures r.Ok? ==> id in db.staff && r.value == db.staff[id]
  {
    if readFault.Some? then Err(readFault.value)
    else if id in db.staff then Ok(db.staff[id])
    else Err(StaffMissing)
  }

  /** The repository lower-cases the address it is given before comparing. */
  function GetStaffByEmail(db: Db, email: string, readFault: Option<string>): (r: Result<Staff>)
    reads db
    requires db.Valid()
    ensures readFault.Some? ==> r == Err(readFault.value)
    ensures readFault.None? ==>
      (r.Err? <==> forall k :: k in db.staff ==> db.staff[k].email != Lower(email))
    ensures readFault.None? && r.Err? ==> r.msg == StaffMissing
    ensures r.Ok? ==>
      && r.value.id in db.staff && db.staff[r.value.id] == r.value
      && r.value.email == Lower(email)
      && forall k :: k in db.staff && k < r.value.id ==> db.staff[k].email != Lower(email)
  {
    if readFault.Some? then Err(readFault.value)
    else
      var found := FirstId(db.staff, (s: Staff) => s.email == Lower(email), 0, db.nextId);
      if found.Some? then Ok(db.staff[found.value]) else Err(StaffMissing)
  }

  function GetStaffByEmployeeID(db: Db, employeeId: string, readFault: Option<string>): (r: Result<Staff>)
    reads db
    requires db.Valid()
    ensures readFault.Some? ==> r == Err(readFault.value)
    ensures readFault.None? ==>
      (r.Err? <==> forall k :: k in db.staff ==> db.staff[k].employeeId != employeeId)
    ensures readFault.None? && r.Err? ==> r.msg == StaffMissing
    ensures r.Ok? ==>
      && r.value.id in db.staff && db.staff[r.value.id] == r.value
      && r.value.employeeId == employeeId
      && forall k :: k in db.staff && k < r.value.id ==> db.staff[k].employeeId != employeeId
  {
    if readFault.Some? then Err(readFault.value)
    else
      var found := FirstId(db.staff, (s: Staff) => s.employeeId == employeeId, 0, db.nextId);
      if found.Some? then Ok(db.staff[found.value]) else Err(StaffMissing)
  }

  /** Looking up an address and its lower-cased form finds the same account:
      the lookup is case-insensitive only because the repository folds case. */
  lemma EmailLookupIgnoresCase(db: Db, email: string, readFault: Option<string>)
    requires db.Valid()
    ensures GetStaffByEmail(db, Lower(email), readFault) == GetStaffByEmail(db, email, readFault)
  {
    LowerIdempotent(email);
  }

  /** Addresses that differ only in the case of their letters find the same
      account, or fail alike. */
  lemma EmailLookupCaseInsensitive(db: Db, a: string, b: string, readFault: Option<string>)
    requires db.Valid()
    requires EqualIgnoringCase(a, b)
    ensures GetStaffByEmail(db, a, readFault) == GetStaffByEmail(db, b, readFault)
  {
    LowerEqualIff(a, b);
  }

  /** An upper-case local part finds the account stored as "john@example.com". */
  lemma UpperCaseAddressFindsAccount(db: Db, staff: Staff)
    requires db.Valid()
    requires staff.email == "john@example.com"
    requires staff.id in db.staff && db.staff[staff.id] == staff
    requires forall k :: k in db.staff && k != staff.id ==> db.staff[k].email != staff.email
    ensures GetStaffByEmail(db, "JOHN@example.com", None) == Ok(staff)
  {
    var stored := staff.email;
    JohnFoldsToStored(stored);
    EmailLookupCaseInsensitive(db, "JOHN@example.com", stored, None);
    var r := GetStaffByEmail(db, stored, None);
    assert db.staff[staff.id].email == Lower(stored);
    assert r.Ok?;
    assert r.value.id == staff.id;
  }

  lemma JohnFoldsToStored(stored: string)
    requires stored == "john@example.com"
    ensures EqualIgnoringCase("JOHN@example.com", stored) && Lower(stored) == stored
  {
    var a := "JOHN@example.com";
    assert forall i :: 0 <= i < |a| ==> SameIgnoringCase(a[i], stored[i]);
    assert forall i :: 0 <= i < |stored| ==> !IsUpper(stored[i]);
    assert forall i :: 0 <= i < |stored| ==> Lower(stored)[i] == stored[i];
  }

  /** A sparse update over eight fields; a supplied e-mail address is stored
      lower-cased. Employee number, role and password hash are never touched. */
  method UpdateStaff(db: Db, id: nat, input: UpdateStaffInput, readFault: Option<string>, fault: Option<string>)
    returns (r: Result<Staff>)
    requires db.Valid()
    modifies db
    ensures db.Valid()
    ensures old(db.NotesFollowAppointments()) ==> db.NotesFollowAppointments()
    ensures db.patients == old(db.patients) && db.appointments == old(db.appointments) && db.notes == old(db.notes)
    ensures readFault.Some? ==> r == Err(readFault.value)
    ensures readFault.None? && id !in old(db.staff) ==> r == Err(StaffMissing)
    ensures readFault.None? && id in old(db.staff) && fault.Some? ==> r == Err(fault.value)
    ensures r.Err? ==> db.staff == old(db.staff)
    ensures r.Ok? <==> readFault.None? && id in old(db.staff) && fault.None?
    ensures r.Ok? ==>
      var stored := old(db.staff)[id];
      && db.staff == old(db.staff)[id := r.value]
      && r.value.id == id
      && r.value.employeeId == stored.employeeId
      && r.value.role == stored.role
      && r.value.passwordHash == stored.passwordHash
      && r.value.firstName == input.firstName.GetOr(stored.firstName)
      && r.value.lastName == input.lastName.GetOr(stored.lastName)
      && r.value.email == (if input.email.Some? then Lower(input.email.value) else stored.email)
      && r.value.phoneNumber == input.phoneNumber.GetOr(stored.phoneNumber)
      && r.value.isActive == input.isActive.GetOr(stored.isActive)
      && r.value.licenseNumber == input.licenseNumber.Or(stored.licenseNumber)
      && r.value.specialization == input.specialization.Or(stored.specialization)
      && r.value.department == input.department.Or(stored.department)
  {
    if readFault.Some? {
      return Err(readFault.value);
    }
    if id !in db.staff {
      return Err(StaffMissing);
    }
    var member := db.staff[id];
    member := member.(firstName := input.firstName.GetOr(member.firstName));
    member := member.(lastName := input.lastName.GetOr(member.lastName));
    member := member.(email := if input.email.Some? then Lower(input.email.value) else member.email);
    member := member.(phoneNumber := input.phoneNumber.GetOr(member.phoneNumber));
    member := member.(isActive := input.isActive.GetOr(member.isActive));
    member := member.(licenseNumber := input.licenseNumber.Or(member.licenseNumber));
    member := member.(specialization := input.specialization.Or(member.specialization));
    member := member.(department := input.department.Or(member.department));
    var err := db.SaveStaff(member, fault);
    if err.Some? {
      return Err(err.value);
    }
    r := Ok(member);
  }

  method DeleteStaff(db: Db, id: nat, readFault: Option<string>, fault: Option<string>) returns (err: Option<string>)
    requires db.Valid()
    modifies db
    ensures db.Valid()
    ensures old(db.NotesFollowAppointments()) ==> db.NotesFollowAppointments()
    ensures db.patients == old(db.patients) && db.appointments == old(db.appointments) && db.notes == old(db.notes)
    ensures readFault.Some? ==> err == readFault
    ensures readFault.None? && id !in old(db.staff) ==> err == Some(StaffMissing)
    ensures readFault.None? && id in old(db.staff) ==> err == fault
    ensures db.staff == if err.None? then old(db.staff) - {id} else old(db.staff)
  {
    if readFault.Some? {
      return readFault;
    }
    if id !in db.staff {
      return Some(StaffMissing);
    }
    err := db.RemoveStaff(id, fault);
  }
}
