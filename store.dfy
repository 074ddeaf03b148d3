/** The database behind the four repositories, as four tables keyed by primary
    key plus the next key to hand out. Each write takes the database's answer
    as an input: `fault` is `None` when the statement succeeds and `Some(e)`
    when the database returns the error `e`. */
module Store {
  import opened Results
  import opened Models

  /** The error text of a `First` query that matches no row. */
  const RecordNotFound: string := "record not found"

  /** The error the unique index on clinical_notes.appointment_id raises. The
      wording stands in for PostgreSQL's own message, which also names the
      index and the duplicated key. */
  const DuplicateAppointmentNote: string := "duplicate key value violates unique constraint on clinical_notes.appointment_id"

  /** At most one note per appointment: the unique index on appointment_id. */
  ghost predicate OneNotePerAppointment(notes: map<nat, ClinicalNote>) {
    forall i, j :: i in notes && j in notes && notes[i].appointmentId == notes[j].appointmentId ==> i == j
  }

  /** Keys of the notes written for appointment `appointmentId`. */
  ghost function NoteIdsFor(notes: map<nat, ClinicalNote>, appointmentId: nat): set<nat> {
    set k | k in notes && notes[k].appointmentId == appointmentId
  }

  lemma AtMostOneNotePerAppointment(notes: map<nat, ClinicalNote>, appointmentId: nat)
    requires OneNotePerAppointment(notes)
    ensures |NoteIdsFor(notes, appointmentId)| <= 1
  {
    var ids := NoteIdsFor(notes, appointmentId);
    if ids != {} {
      var k :| k in ids;
      assert ids == {k};
    }
  }

  /** Is there already a note for `appointmentId`, other than the one keyed `except`? */
  predicate HasOtherNote(notes: map<nat, ClinicalNote>, appointmentId: nat, except: nat) {
    exists k :: k in notes && k != except && notes[k].appointmentId == appointmentId
  }

  // Column defaults: the database fills a zero value it is given with the
  // column's default.

  /** No zero duration and no empty status reaches the table; a value that
      was supplied is kept, and no other column is touched. */
  function AppointmentDefaults(a: Appointment): (r: Appointment)
    ensures r.duration != 0 && r.status != ""
    ensures a.duration != 0 ==> r.duration == a.duration
    ensures a.status != "" ==> r.status == a.status
    ensures a.duration == 0 ==> r.duration == 30
    ensures a.status == "" ==> r.status == Scheduled
    ensures r.(duration := a.duration, status := a.status) == a
  {
    a.(duration := if a.duration == 0 then 30 else a.duration,
       status := if a.status == "" then Scheduled else a.status)
  }

  /** No empty blood group or genotype reaches the table; a value that was
      supplied is kept, and no other column is touched. */
  function PatientDefaults(p: Patient): (r: Patient)
    ensures r.bloodGroup != "" && r.genotype != ""
    ensures p.bloodGroup != "" ==> r.bloodGroup == p.bloodGroup
    ensures p.genotype != "" ==> r.genotype == p.genotype
    ensures p.bloodGroup == "" ==> r.bloodGroup == "unknown"
    ensures p.genotype == "" ==> r.genotype == "unknown"
    ensures r.(bloodGroup := p.bloodGroup, genotype := p.genotype) == p
  {
    p.(bloodGroup := if p.bloodGroup == "" then "unknown" else p.bloodGroup,
       genotype := if p.genotype == "" then "unknown" else p.genotype)
  }

  /** `is_active` defaults to true, so a new account is always active;
      no other column is touched. */
  function StaffDefaults(s: Staff): (r: Staff)
    ensures r.isActive
    ensures r.(isActive := s.isActive) == s
  {
    s.(isActive := true)
  }

  /** Defaulting a row the database has already defaulted changes nothing. */
  lemma DefaultsIdempotent(a: Appointment, p: Patient, s: Staff)
    ensures AppointmentDefaults(AppointmentDefaults(a)) == AppointmentDefaults(a)
    ensures PatientDefaults(PatientDefaults(p)) == PatientDefaults(p)
    ensures StaffDefaults(StaffDefaults(s)) == StaffDefaults(s)
  {
  }

  class Db {
    var patients: map<nat, Patient>
    var staff: map<nat, Staff>
    var appointments: map<nat, Appointment>
    var notes: map<nat, ClinicalNote>
    var nextId: nat

    /** Keys are positive, below `nextId`, and equal the record's own id; the
        unique index on a note's appointment holds. */
    ghost predicate Valid()
      reads this
    {
      && 1 <= nextId
      && (forall k :: k in patients ==> 1 <= k < nextId && patients[k].id == k)
      && (forall k :: k in staff ==> 1 <= k < nextId && staff[k].id == k)
      && (forall k :: k in appointments ==> 1 <= k < nextId && appointments[k].id == k)
      && (forall k :: k in notes ==> 1 <= k < nextId && notes[k].id == k)
      && OneNotePerAppointment(notes)
    }

    /** Every note points at an appointment key already handed out, and while
        that appointment exists the note names the same patient. */
    ghost predicate NotesFollowAppointments()
      reads this
    {
      forall k :: k in notes ==>
        && notes[k].appointmentId < nextId
        && (notes[k].appointmentId in appointments ==>
              appointments[notes[k].appointmentId].patientId == notes[k].patientId)
    }

    constructor ()
      ensures Valid() && NotesFollowAppointments()
      ensures patients == map[] && staff == map[] && appointments == map[] && notes == map[]
    {
      patients, staff, appointments, notes := map[], map[], map[], map[];
      nextId := 1;
    }

    // ------------------------------------------------------------ appointments

    /** `Create`: stores the row under a fresh key and returns it with that key. */
    method InsertAppointment(a: Appointment, fault: Option<string>) returns (r: Result<Appointment>)
      requires Valid()
      modifies this
      ensures Valid()
      ensures patients == old(patients) && staff == old(staff) && notes == old(notes)
      ensures fault.Some? ==> r == Err(fault.value) && appointments == old(appointments) && nextId == old(nextId)
      ensures fault.None? ==>
        && r == Ok(AppointmentDefaults(a).(id := old(nextId)))
        && r.value.id !in old(appointments)
        && appointments == old(appointments)[r.value.id := r.value]
        && nextId == old(nextId) + 1
    {
      if fault.Some? {
        return Err(fault.value);
      }
      var row := AppointmentDefaults(a).(id := nextId);
      appointments := appointments[nextId := row];
      nextId := nextId + 1;
      r := Ok(row);
    }

    /** `Update` (gorm `Save`): overwrites the whole row. */
    method SaveAppointment(a: Appointment, fault: Option<string>) returns (err: Option<string>)
      requires Valid() && a.id in appointments
      modifies this
      ensures Valid()
      ensures patients == old(patients) && staff == old(staff) && notes == old(notes) && nextId == old(nextId)
      ensures err == fault
      ensures appointments == if fault.None? then old(appointments)[a.id := a] else old(appointments)
    {
      err := fault;
      if fault.None? {
        appointments := appointments[a.id := a];
      }
    }

    /** `Delete`: removes the row if present; a missing row is no error. */
    method RemoveAppointment(id: nat, fault: Option<string>) returns (err: Option<string>)
      requires Valid()
      modifies this
      ensures Valid()
      ensures patients == old(patients) && staff == old(staff) && notes == old(notes) && nextId == old(nextId)
      ensures err == fault
      ensures appointments == if fault.None? then old(appointments) - {id} else old(appointments)
    {
      err := fault;
      if fault.None? {
        appointments := appointments - {id};
      }
    }

    // ------------------------------------------------------------ clinical notes

    /** `Create`: refused by the unique index when the appointment already has a note. */
    method InsertNote(n: ClinicalNote, fault: Option<string>) returns (r: Result<ClinicalNote>)
      requires Valid()
      modifies this
      ensures Valid()
      ensures patients == old(patients) && staff == old(staff) && appointments == old(appointments)
      ensures r.Err? ==> notes == old(notes) && nextId == old(nextId)
      ensures r.Err? <==> fault.Some? || HasOtherNote(old(notes), n.appointmentId, 0)
      ensures fault.Some? ==> r == Err(fault.value)
      ensures fault.None? && HasOtherNote(old(notes), n.appointmentId, 0) ==> r == Err(DuplicateAppointmentNote)
      ensures r.Ok? ==>
        && r.value == n.(id := old(nextId))
        && r.value.id !in old(notes)
        && notes == old(notes)[r.value.id := r.value]
        && nextId == old(nextId) + 1
    {
      if fault.Some? {
        return Err(fault.value);
      }
      if HasOtherNote(notes, n.appointmentId, 0) {
        return Err(DuplicateAppointmentNote);
      }
      var row := n.(id := nextId);
      notes := notes[nextId := row];
      nextId := nextId + 1;
      r := Ok(row);
    }

    /** `Update` (gorm `Save`), refused by the unique index when another note
        already has this appointment. */
    method SaveNote(n: ClinicalNote, fault: Option<string>) returns (err: Option<string>)
      requires Valid() && n.id in notes
      modifies this
      ensures Valid()
      ensures patients == old(patients) && staff == old(staff) && appointments == old(appointments) && nextId == old(nextId)
      ensures err == if fault.Some? then fault
                     else if HasOtherNote(old(notes), n.appointmentId, n.id) then Some(DuplicateAppointmentNote)
                     else None
      ensures notes == if err.None? then old(notes)[n.id := n] else old(notes)
    {
      if fault.Some? {
        return fault;
      }
      if HasOtherNote(notes, n.appointmentId, n.id) {
        return Some(DuplicateAppointmentNote);
      }
      notes := notes[n.id := n];
      err := None;
    }

    method RemoveNote(id: nat, fault: Option<string>) returns (err: Option<string>)
      requires Valid()
      modifies this
      ensures Valid()
      ensures patients == old(patients) && staff == old(staff) && appointments == old(appointments) && nextId == old(nextId)
      ensures err == fault
      ensures notes == if fault.None? then old(notes) - {id} else old(notes)
    {
      err := fault;
      if fault.None? {
        notes := notes - {id};
      }
    }

    // ------------------------------------------------------------ patients

    method InsertPatient(p: Patient, fault: Option<string>) returns (r: Result<Patient>)
      requires Valid()
      modifies this
      ensures Valid()
      ensures staff == old(staff) && appointments == old(appointments) && notes == old(notes)
      ensures fault.Some? ==> r == Err(fault.value) && patients == old(patients) && nextId == old(nextId)
      ensures fault.None? ==>
        && r == Ok(PatientDefaults(p).(id := old(nextId)))
        && r.value.id !in old(patients)
        && patients == old(patients)[r.value.id := r.value]
        && nextId == old(nextId) + 1
    {
      if fault.Some? {
        return Err(fault.value);
      }
      var row := PatientDefaults(p).(id := nextId);
      patients := patients[nextId := row];
      nextId := nextId + 1;
      r := Ok(row);
    }

    method SavePatient(p: Patient, fault: Option<string>) returns (err: Option<string>)
      requires Valid() && p.id in patients
      modifies this
      ensures Valid()
      ensures staff == old(staff) && appointments == old(appointments) && notes == old(notes) && nextId == old(nextId)
      ensures err == fault
      ensures patients == if fault.None? then old(patients)[p.id := p] else old(patients)
    {
      err := fault;
      if fault.None? {
        patients := patients[p.id := p];
      }
    }

    method RemovePatient(id: nat, fault: Option<string>) returns (err: Option<string>)
      requires Valid()
      modifies this
      ensures Valid()
      ensures staff == old(staff) && appointments == old(appointments) && notes == old(notes) && nextId == old(nextId)
      ensures err == fault
      ensures patients == if fault.None? then old(patients) - {id} else old(patients)
    {
      err := fault;
      if fault.None? {
        patients := patients - {id};
      }
    }

    // ------------------------------------------------------------ staff

    method InsertStaff(s: Staff, fault: Option<string>) returns (r: Result<Staff>)
      requires Valid()
      modifies this
      ensures Valid()
      ensures patients == old(patients) && appointments == old(appointments) && notes == old(notes)
      ensures fault.Some? ==> r == Err(fault.value) && staff == old(staff) && nextId == old(nextId)
      ensures fault.None? ==>
        && r == Ok(StaffDefaults(s).(id := old(nextId)))
        && r.value.id !in old(staff)
        && staff == old(staff)[r.value.id := r.value]
        && nextId == old(nextId) + 1
    {
      if fault.Some? {
        return Err(fault.value);
      }
      var row := StaffDefaults(s).(id := nextId);
      staff := staff[nextId := row];
      nextId := nextId + 1;
      r := Ok(row);
    }

    method SaveStaff(s: Staff, fault: Option<string>) returns (err: Option<string>)
      requires Valid() && s.id in staff
      modifies this
      ensures Valid()
      ensures patients == old(patients) && appointments == old(appointments) && notes == old(notes) && nextId == old(nextId)
      ensures err == fault
      ensures staff == if fault.None? then old(staff)[s.id := s] else old(staff)
    {
      err := fault;
      if fault.None? {
        staff := staff[s.id := s];
      }
    }

    method RemoveStaff(id: nat, fault: Option<string>) returns (err: Option<string>)
      requires Valid()
      modifies this
      ensures Valid()
      ensures patients == old(patients) && appointments == old(appointments) && notes == old(notes) && nextId == old(nextId)
      ensures err == fault
      ensures staff == if fault.None? then old(staff) - {id} else old(staff)
    {
      err := fault;
      if fault.None? {
        staff := staff - {id};
      }
    }
  }
}
