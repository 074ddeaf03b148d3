/** Appointments: booked for an existing patient by the acting receptionist,
    always starting out "scheduled", then updated field by field. */
module AppointmentService {
  import opened Results
  import opened Models
  import opened Tables
  import opened Store

  const PatientMissing: string := "associated patient record not found"
  const AppointmentMissing: string := "appointment not found"

  /** `now` is the request's clock reading, used as the scheduled time. */
  method CreateAppointment(db: Db, input: CreateAppointmentInput, createdBy: nat, now: int, fault: Option<string>)
    returns (r: Result<Appointment>)
    requires db.Valid()
    modifies db
    ensures db.Valid()
    ensures old(db.NotesFollowAppointments()) ==> db.NotesFollowAppointments()
    ensures db.patients == old(db.patients) && db.staff == old(db.staff) && db.notes == old(db.notes)
    ensures input.patientId !in old(db.patients) ==> r == Err(PatientMissing)
    ensures input.patientId in old(db.patients) && fault.Some? ==> r == Err(fault.value)
    ensures r.Err? ==> db.appointments == old(db.appointments)
    ensures r.Ok? <==> input.patientId in old(db.patients) && fault.None?
    ensures r.Ok? ==>
      && r.value.status == Scheduled
      && r.value.receptionistId == createdBy
      && r.value.doctorId == None
      && r.value.patientId == input.patientId
      && r.value.department == input.department
      && r.value.reason == input.reason
      && r.value.duration == (if input.duration == 0 then 30 else input.duration)
      && r.value.scheduledAt == now
      && r.value.updatedBy == 0
      && r.value.id !in old(db.appointments)
      && db.appointments == old(db.appointments)[r.value.id := r.value]
  {
    if input.patientId !in db.patients {
      return Err(PatientMissing);
    }
    var appointment := Appointment(0, input.patientId, createdBy, None, input.department, now,
                                   input.duration, Scheduled, input.reason, 0);
    r := db.InsertAppointment(appointment, fault);
  }

  /** The database's refusal of a filter value that is not a label of the
      column's enum. The wording stands in for PostgreSQL's own message. */
  function InvalidEnumValue(enumName: string, value: string): (r: string)
    ensures |r| > |value|
  {
    "invalid input value for enum " + enumName + ": " + value
  }

  /** The refusals the filter's enum-typed values draw: empty when every
      given department and status is a label of its enum. */
  function EnumRefusals(filter: AppointmentFilter): (r: set<string>)
    ensures r == {} <==>
      && (filter.department.Some? ==> filter.department.value in Departments)
      && (filter.status.Some? ==> filter.status.value in AppointmentStatuses)
  {
    (if filter.department.Some? && filter.department.value !in Departments
     then {InvalidEnumValue("department_type", filter.department.value)} else {})
    + (if filter.status.Some? && filter.status.value !in AppointmentStatuses
       then {InvalidEnumValue("appointment_status", filter.status.value)} else {})
  }

  /** Every appointment that passes all the given filters, each once. A query
      that fails (`readFault`), or a department or status that is not a label
      of its enum, is an error instead. */
  function GetAllAppointments(db: Db, filter: AppointmentFilter, readFault: Option<string>): (r: Result<seq<Appointment>>)
    reads db
    requires db.Valid()
    ensures readFault.Some? ==> r == Err(readFault.value)
    ensures readFault.None? && EnumRefusals(filter) != {} ==> r.Err? && r.msg in EnumRefusals(filter)
    ensures r.Ok? <==> readFault.None? && EnumRefusals(filter) == {}
    ensures r.Ok? ==> forall i :: 0 <= i < |r.value| ==>
      MatchesAppointment(r.value[i], filter) && r.value[i].id in db.appointments && db.appointments[r.value[i].id] == r.value[i]
    ensures r.Ok? ==> forall k :: k in db.appointments && MatchesAppointment(db.appointments[k], filter) ==> db.appointments[k] in r.value
    ensures r.Ok? ==> forall i, j :: 0 <= i < j < |r.value| ==> r.value[i].id < r.value[j].id
  {
    if readFault.Some? then Err(readFault.value)
    else if filter.department.Some? && filter.department.value !in Departments then
      Err(InvalidEnumValue("department_type", filter.department.value))
    else if filter.status.Some? && filter.status.value !in AppointmentStatuses then
      Err(InvalidEnumValue("appointment_status", filter.status.value))
    else
      var ids := SelectIds(db.appointments, (a: Appointment) => MatchesAppointment(a, filter), 0, db.nextId);
      var rows := Rows(db.appointments, ids);
      assert forall i :: 0 <= i < |rows| ==> ids[i] in db.appointments && rows[i] == db.appointments[ids[i]] && rows[i].id == ids[i];
      Ok(rows)
  }

  function GetAppointmentByID(db: Db, id: nat): (r: Result<Appointment>)
    reads db
    ensures r.Ok? <==> id in db.appointments
    ensures r.Ok? ==> r.value == db.appointments[id]
    ensures r.Err? ==> r.msg == RecordNotFound
  {
    if id in db.appointments then Ok(db.appointments[id]) else Err(RecordNotFound)
  }

  /** A sparse update over doctor, department, status and reason. The status
      is copied as given: no transition is refused. */
  method UpdateAppointment(db: Db, id: nat, input: UpdateAppointmentInput, updatedBy: nat, fault: Option<string>)
    returns (r: Result<Appointment>)
    requires db.Valid()
    modifies db
    ensures db.Valid()
    ensures old(db.NotesFollowAppointments()) ==> db.NotesFollowAppointments()
    ensures db.patients == old(db.patients) && db.staff == old(db.staff) && db.notes == old(db.notes)
    ensures id !in old(db.appointments) ==> r == Err(AppointmentMissing)
    ensures id in old(db.appointments) && fault.Some? ==> r == Err(fault.value)
    ensures r.Err? ==> db.appointments == old(db.appointments)
    ensures r.Ok? <==> id in old(db.appointments) && fault.None?
    ensures r.Ok? ==>
      var stored := old(db.appointments)[id];
      && db.appointments == old(db.appointments)[id := r.value]
      && r.value.id == id
      && r.value.patientId == stored.patientId
      && r.value.receptionistId == stored.receptionistId
      && r.value.scheduledAt == stored.scheduledAt
      && r.value.duration == stored.duration
      && r.value.doctorId == (if input.doctorId.Some? then input.doctorId else stored.doctorId)
      && r.value.department == input.department.GetOr(stored.department)
      && r.value.status == input.status.GetOr(stored.status)
      && r.value.reason == input.reason.GetOr(stored.reason)
      && r.value.updatedBy == updatedBy
  {
    if id !in db.appointments {
      return Err(AppointmentMissing);
    }
    var appointment := db.appointments[id];
    if input.doctorId.Some? {
      appointment := appointment.(doctorId := input.doctorId);
    }
    appointment := appointment.(department := input.department.GetOr(appointment.department));
    appointment := appointment.(status := input.status.GetOr(appointment.status));
    appointment := appointment.(reason := input.reason.GetOr(appointment.reason));
    appointment := appointment.(updatedBy := updatedBy);
    var err := db.SaveAppointment(appointment, fault);
    if err.Some? {
      return Err(err.value);
    }
    r := Ok(appointment);
  }

  /** Deletion checks only that the appointment exists; its status and its
      clinical note, if any, do not matter, and the note stays. */
  method DeleteAppointment(db: Db, id: nat, fault: Option<string>) returns (err: Option<string>)
    requires db.Valid()
    modifies db
    ensures db.Valid()
    ensures old(db.NotesFollowAppointments()) ==> db.NotesFollowAppointments()
    ensures db.patients == old(db.patients) && db.staff == old(db.staff) && db.notes == old(db.notes)
    ensures id !in old(db.appointments) ==> err == Some(RecordNotFound)
    ensures id in old(db.appointments) ==> err == fault
    ensures db.appointments == if err.None? then old(db.appointments) - {id} else old(db.appointments)
  {
    if id !in db.appointments {
      return Some(RecordNotFound);
    }
    err := db.RemoveAppointment(id, fault);
  }
}
