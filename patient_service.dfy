/** Patient records: created with a parsed date of birth and a generated
    registration number, then updated field by field. */
module PatientService {
  import opened Results
  import opened Dates
  import opened Models
  import opened Tables
  import opened Store

  const InvalidDate: string := "invalid date format, use YYYY-MM-DD"
  const PatientMissing: string := "patient not found"

  /** `registrationNumber` is the generator's output for this request. */
  method CreatePatient(db: Db, input: CreatePatientInput, createdBy: nat, registrationNumber: string, fault: Option<string>)
    returns (r: Result<Patient>)
    requires db.Valid()
    modifies db
    ensures db.Valid()
    ensures old(db.NotesFollowAppointments()) ==> db.NotesFollowAppointments()
    ensures db.staff == old(db.staff) && db.appointments == old(db.appointments) && db.notes == old(db.notes)
    ensures ParseDate(input.dateOfBirth).None? ==> r == Err(InvalidDate)
    ensures ParseDate(input.dateOfBirth).Some? && fault.Some? ==> r == Err(fault.value)
    ensures r.Err? ==> db.patients == old(db.patients)
    ensures r.Ok? <==> ParseDate(input.dateOfBirth).Some? && fault.None?
    ensures r.Ok? ==>
      && r.value.registrationNumber == registrationNumber
      && r.value.dateOfBirth == ParseDate(input.dateOfBirth).value
      && r.value.createdBy == createdBy && r.value.updatedBy == createdBy
      && r.value.firstName == input.firstName && r.value.lastName == input.lastName
      && r.value.gender == input.gender && r.value.phoneNumber == input.phoneNumber
      && r.value.email == input.email && r.value.address == input.address
      && r.value.bloodGroup == "unknown" && r.value.genotype == "unknown"
      && r.value.id !in old(db.patients)
      && db.patients == old(db.patients)[r.value.id := r.value]
  {
    var dateOfBirth := ParseDate(input.dateOfBirth);
    if dateOfBirth.None? {
      return Err(InvalidDate);
    }
    var patient := Patient(0, registrationNumber, input.firstName, input.lastName, dateOfBirth.value,
                           input.gender, input.phoneNumber, input.email, input.address, "", "",
                           createdBy, createdBy);
    r := db.InsertPatient(patient, fault);
  }

  /** Every patient that passes the filter, each once; a query that fails
      (`readFault`) is an error instead. */
  function GetAllPatients(db: Db, filter: PatientFilter, readFault: Option<string>): (r: Result<seq<Patient>>)
    reads db
    requires db.Valid()
    ensures r.Err? <==> readFault.Some?
    ensures r.Err? ==> r.msg == readFault.value
    ensures r.Ok? ==> forall i :: 0 <= i < |r.value| ==>
      MatchesPatient(r.value[i], filter) && r.value[i].id in db.patients && db.patients[r.value[i].id] == r.value[i]
    ensures r.Ok? ==> forall k :: k in db.patients && MatchesPatient(db.patients[k], filter) ==> db.patients[k] in r.value
    ensures r.Ok? ==> forall i, j :: 0 <= i < j < |r.value| ==> r.value[i].id < r.value[j].id
  {
    if readFault.Some? then Err(readFault.value)
    else
      var ids := SelectIds(db.patients, (p: Patient) => MatchesPatient(p, filter), 0, db.nextId);
      var rows := Rows(db.patients, ids);
      assert forall i :: 0 <= i < |rows| ==> ids[i] in db.patients && rows[i] == db.patients[ids[i]] && rows[i].id == ids[i];
      Ok(rows)
  }

  function GetPatientByID(db: Db, id: nat): (r: Result<Patient>)
    reads db
    ensures r.Ok? <==> id in db.patients
    ensures r.Ok? ==> r.value == db.patients[id]
    ensures r.Err? ==> r.msg == RecordNotFound
  {
    if id in db.patients then Ok(db.patients[id]) else Err(RecordNotFound)
  }

  /** The first patient, by key, with this registration number. */
  function GetPatientByRegistrationNumber(db: Db, registrationNumber: string): (r: Result<Patient>)
    reads db
    requires db.Valid()
    ensures r.Ok? ==>
      r.value.id in db.patients && db.patients[r.value.id] == r.value && r.value.registrationNumber == registrationNumber
    ensures r.Ok? ==> forall k :: k in db.patients && k < r.value.id ==> db.patients[k].registrationNumber != registrationNumber
    ensures r.Err? <==> forall k :: k in db.patients ==> db.patients[k].registrationNumber != registrationNumber
    ensures r.Err? ==> r.msg == RecordNotFound
  {
    var found := FirstId(db.patients, (p: Patient) => p.registrationNumber == registrationNumber, 0, db.nextId);
    if found.Some? then Ok(db.patients[found.value]) else Err(RecordNotFound)
  }

  /** A sparse update over nine fields. A supplied date of birth that does not
      parse aborts the whole update, whatever else was supplied. Each
      `GetOr` line is one "overwrite when supplied" step of the update. */
  method UpdatePatient(db: Db, id: nat, input: UpdatePatientInput, updatedBy: nat, fault: Option<string>)
    returns (r: Result<Patient>)
    requires db.Valid()
    modifies db
    ensures db.Valid()
    ensures old(db.NotesFollowAppointments()) ==> db.NotesFollowAppointments()
    ensures db.staff == old(db.staff) && db.appointments == old(db.appointments) && db.notes == old(db.notes)
    ensures id !in old(db.patients) ==> r == Err(PatientMissing)
    ensures id in old(db.patients) && input.dateOfBirth.Some? && ParseDate(input.dateOfBirth.value).None? ==>
      r == Err(InvalidDate)
    ensures id in old(db.patients) && (input.dateOfBirth.Some? ==> ParseDate(input.dateOfBirth.value).Some?)
            && fault.Some? ==>
      r == Err(fault.value)
    ensures r.Err? ==> db.patients == old(db.patients)
    ensures r.Ok? <==> id in old(db.patients) && fault.None?
                       && (input.dateOfBirth.Some? ==> ParseDate(input.dateOfBirth.value).Some?)
    ensures r.Ok? ==>
      var stored := old(db.patients)[id];
      && db.patients == old(db.patients)[id := r.value]
      && r.value.id == id
      && r.value.registrationNumber == stored.registrationNumber
      && r.value.createdBy == stored.createdBy
      && r.value.updatedBy == updatedBy
      && r.value.firstName == input.firstName.GetOr(stored.firstName)
      && r.value.lastName == input.lastName.GetOr(stored.lastName)
      && r.value.dateOfBirth == (if input.dateOfBirth.Some? then ParseDate(input.dateOfBirth.value).value
                                 else stored.dateOfBirth)
      && r.value.gender == input.gender.GetOr(stored.gender)
      && r.value.phoneNumber == input.phoneNumber.GetOr(stored.phoneNumber)
      && r.value.email == input.email.GetOr(stored.email)
      && r.value.address == input.address.GetOr(stored.address)
      && r.value.bloodGroup == input.bloodGroup.GetOr(stored.bloodGroup)
      && r.value.genotype == input.genotype.GetOr(stored.genotype)
  {
    if id !in db.patients {
      return Err(PatientMissing);
    }
    var patient := db.patients[id];
    patient := patient.(firstName := input.firstName.GetOr(patient.firstName));
    patient := patient.(lastName := input.lastName.GetOr(patient.lastName));
    if input.dateOfBirth.Some? {
      var dateOfBirth := ParseDate(input.dateOfBirth.value);
      if dateOfBirth.None? {
        return Err(InvalidDate);
      }
      patient := patient.(dateOfBirth := dateOfBirth.value);
    }
    patient := patient.(gender := input.gender.GetOr(patient.gender));
    patient := patient.(phoneNumber := input.phoneNumber.GetOr(patient.phoneNumber));
    patient := patient.(email := input.email.GetOr(patient.email));
    patient := patient.(address := input.address.GetOr(patient.address));
    patient := patient.(bloodGroup := input.bloodGroup.GetOr(patient.bloodGroup));
    patient := patient.(genotype := input.genotype.GetOr(patient.genotype));
    patient := patient.(updatedBy := updatedBy);
    var err := db.SavePatient(patient, fault);
    if err.Some? {
      return Err(err.value);
    }
    r := Ok(patient);
  }

  /** Deletion needs only an existing record; appointments and notes of the
      patient are left in place. */
  method DeletePatient(db: Db, id: nat, fault: Option<string>) returns (err: Option<string>)
    requires db.Valid()
    modifies db
    ensures db.Valid()
    ensures old(db.NotesFollowAppointments()) ==> db.NotesFollowAppointments()
    ensures db.staff == old(db.staff) && db.appointments == old(db.appointments) && db.notes == old(db.notes)
    ensures id !in old(db.patients) ==> err == Some(RecordNotFound)
    ensures id in old(db.patients) ==> err == fault
    ensures db.patients == if err.None? then old(db.patients) - {id} else old(db.patients)
  {
    if id !in db.patients {
      return Some(RecordNotFound);
    }
    err := db.RemovePatient(id, fault);
  }
}
