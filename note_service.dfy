/** Clinical notes: a note is written by a doctor for an existing appointment,
    takes its patient from that appointment, and completes the appointment.
    Only the authoring doctor may change or delete it. */
module NoteService {
  import opened Results
  import opened Models
  import opened Tables
  import opened Store

  const AppointmentMissing: string := "associated appointment record not found"
  const PatientMissing: string := "patient record not found"
  const NoteMissing: string := "clinical note not found"
  const OnlyAuthorMayChange: string := "only the doctor who created the clinical note can make changes"
  const OnlyAuthorMayDelete: string := "only the doctor who created the clinical note can delete it"

  /** The five clinical text fields of `n` are those of the request. */
  predicate CopiesText(n: ClinicalNote, input: CreateNoteInput) {
    && n.presentingComplaints == input.presentingComplaints
    && n.pastMedicalHistory == input.pastMedicalHistory
    && n.clinicalDiagnosis == input.clinicalDiagnosis
    && n.treatmentPlan == input.treatmentPlan
    && n.recommendation == input.recommendation
  }

  method CreateNote(db: Db, input: CreateNoteInput, doctorId: nat, noteFault: Option<string>, statusFault: Option<string>)
    returns (r: Result<ClinicalNote>)
    requires db.Valid()
    modifies db
    ensures db.Valid()
    ensures old(db.NotesFollowAppointments()) ==> db.NotesFollowAppointments()
    ensures db.patients == old(db.patients) && db.staff == old(db.staff)
    ensures input.appointmentId !in old(db.appointments) ==> r == Err(AppointmentMissing)
    ensures r.Err? ==> db.notes == old(db.notes) && db.appointments == old(db.appointments)
    ensures input.appointmentId in old(db.appointments) ==>
      && (r.Ok? <==> noteFault.None? && !HasOtherNote(old(db.notes), input.appointmentId, 0))
      && (noteFault.Some? ==> r == Err(noteFault.value))
      && (noteFault.None? && HasOtherNote(old(db.notes), input.appointmentId, 0) ==> r == Err(DuplicateAppointmentNote))
    ensures r.Ok? ==>
      && input.appointmentId in old(db.appointments)
      && var appointment := old(db.appointments)[input.appointmentId];
      && r.value.appointmentId == input.appointmentId
      && r.value.patientId == appointment.patientId
      && r.value.doctorId == doctorId
      && CopiesText(r.value, input)
      && r.value.id !in old(db.notes)
      && db.notes == old(db.notes)[r.value.id := r.value]
      && db.appointments == if statusFault.None?
                            then old(db.appointments)[input.appointmentId := appointment.(status := Completed)]
                            else old(db.appointments)
  {
    if input.appointmentId !in db.appointments {
      return Err(AppointmentMissing);
    }
    var appointment := db.appointments[input.appointmentId];
    var note := ClinicalNote(0, input.appointmentId, appointment.patientId, doctorId,
                             input.presentingComplaints, input.pastMedicalHistory, input.clinicalDiagnosis,
                             input.treatmentPlan, input.recommendation);
    var created := db.InsertNote(note, noteFault);
    if created.Err? {
      return Err(created.msg);
    }
    appointment := appointment.(status := Completed);
    var ignored := db.SaveAppointment(appointment, statusFault);
    r := Ok(created.value);
  }

  function GetNoteByID(db: Db, id: nat): (r: Result<ClinicalNote>)
    reads db
    ensures r.Ok? <==> id in db.notes
    ensures r.Ok? ==> r.value == db.notes[id]
    ensures r.Err? ==> r.msg == RecordNotFound
  {
    if id in db.notes then Ok(db.notes[id]) else Err(RecordNotFound)
  }

  /** The note of an appointment; by the unique index there is at most one. */
  function GetNoteByAppointmentID(db: Db, appointmentId: nat): (r: Result<ClinicalNote>)
    reads db
    requires db.Valid()
    ensures r.Ok? ==> r.value.id in db.notes && db.notes[r.value.id] == r.value && r.value.appointmentId == appointmentId
    ensures forall k :: k in db.notes && db.notes[k].appointmentId == appointmentId ==> r == Ok(db.notes[k])
    ensures r.Err? <==> forall k :: k in db.notes ==> db.notes[k].appointmentId != appointmentId
    ensures r.Err? ==> r.msg == RecordNotFound
  {
    var found := FirstId(db.notes, (n: ClinicalNote) => n.appointmentId == appointmentId, 0, db.nextId);
    if found.Some? then Ok(db.notes[found.value]) else Err(RecordNotFound)
  }

  /** Every note of an existing patient, each once. Any failure of the
      patient lookup reads as a missing patient; a failure of the notes
      query (`readFault`) is returned as it is. */
  function GetNotesByPatientID(db: Db, patientId: nat, readFault: Option<string>): (r: Result<seq<ClinicalNote>>)
    reads db
    requires db.Valid()
    ensures patientId !in db.patients ==> r == Err(PatientMissing)
    ensures patientId in db.patients && readFault.Some? ==> r == Err(readFault.value)
    ensures r.Ok? <==> patientId in db.patients && readFault.None?
    ensures r.Ok? ==> forall i :: 0 <= i < |r.value| ==>
      r.value[i].patientId == patientId && r.value[i].id in db.notes && db.notes[r.value[i].id] == r.value[i]
    ensures r.Ok? ==> forall k :: k in db.notes && db.notes[k].patientId == patientId ==> db.notes[k] in r.value
    ensures r.Ok? ==> forall i, j :: 0 <= i < j < |r.value| ==> r.value[i].id < r.value[j].id
  {
    if patientId !in db.patients then Err(PatientMissing)
    else if readFault.Some? then Err(readFault.value)
    else
      var ids := SelectIds(db.notes, (n: ClinicalNote) => n.patientId == patientId, 0, db.nextId);
      var rows := Rows(db.notes, ids);
      assert forall i :: 0 <= i < |rows| ==> ids[i] in db.notes && rows[i] == db.notes[ids[i]] && rows[i].id == ids[i];
      Ok(rows)
  }

  method UpdateNote(db: Db, id: nat, input: UpdateNoteInput, staffId: nat, fault: Option<string>)
    returns (r: Result<ClinicalNote>)
    requires db.Valid()
    modifies db
    ensures db.Valid()
    ensures old(db.NotesFollowAppointments()) ==> db.NotesFollowAppointments()
    ensures db.patients == old(db.patients) && db.staff == old(db.staff) && db.appointments == old(db.appointments)
    ensures id !in old(db.notes) ==> r == Err(NoteMissing)
    ensures id in old(db.notes) && old(db.notes)[id].doctorId != staffId ==> r == Err(OnlyAuthorMayChange)
    ensures id in old(db.notes) && old(db.notes)[id].doctorId == staffId && fault.Some? ==> r == Err(fault.value)
    ensures r.Err? ==> db.notes == old(db.notes)
    ensures r.Ok? <==> id in old(db.notes) && old(db.notes)[id].doctorId == staffId && fault.None?
    ensures r.Ok? ==>
      var stored := old(db.notes)[id];
      && db.notes == old(db.notes)[id := r.value]
      && r.value.id == id
      && r.value.appointmentId == stored.appointmentId
      && r.value.patientId == stored.patientId
      && r.value.doctorId == stored.doctorId
      && r.value.presentingComplaints == input.presentingComplaints.GetOr(stored.presentingComplaints)
      && r.value.pastMedicalHistory == input.pastMedicalHistory.GetOr(stored.pastMedicalHistory)
      && r.value.clinicalDiagnosis == input.clinicalDiagnosis.GetOr(stored.clinicalDiagnosis)
      && r.value.treatmentPlan == input.treatmentPlan.GetOr(stored.treatmentPlan)
      && r.value.recommendation == input.recommendation.GetOr(stored.recommendation)
  {
    if id !in db.notes {
      return Err(NoteMissing);
    }
    var note := db.notes[id];
    if note.doctorId != staffId {
      return Err(OnlyAuthorMayChange);
    }
    note := note.(presentingComplaints := input.presentingComplaints.GetOr(note.presentingComplaints));
    note := note.(pastMedicalHistory := input.pastMedicalHistory.GetOr(note.pastMedicalHistory));
    note := note.(clinicalDiagnosis := input.clinicalDiagnosis.GetOr(note.clinicalDiagnosis));
    note := note.(treatmentPlan := input.treatmentPlan.GetOr(note.treatmentPlan));
    note := note.(recommendation := input.recommendation.GetOr(note.recommendation));
    assert !HasOtherNote(db.notes, note.appointmentId, id);
    var err := db.SaveNote(note, fault);
    if err.Some? {
      return Err(err.value);
    }
    r := Ok(note);
  }

  /** Deleting a note leaves its appointment, and that appointment's status, alone. */
  method DeleteNote(db: Db, id: nat, staffId: nat, fault: Option<string>) returns (err: Option<string>)
    requires db.Valid()
    modifies db
    ensures db.Valid()
    ensures old(db.NotesFollowAppointments()) ==> db.NotesFollowAppointments()
    ensures db.patients == old(db.patients) && db.staff == old(db.staff) && db.appointments == old(db.appointments)
    ensures id !in old(db.notes) ==> err == Some(NoteMissing)
    ensures id in old(db.notes) && old(db.notes)[id].doctorId != staffId ==> err == Some(OnlyAuthorMayDelete)
    ensures id in old(db.notes) && old(db.notes)[id].doctorId == staffId ==> err == fault
    ensures db.notes == if err.None? then old(db.notes) - {id} else old(db.notes)
  {
    if id !in db.notes {
      return Some(NoteMissing);
    }
    if db.notes[id].doctorId != staffId {
      return Some(OnlyAuthorMayDelete);
    }
    err := db.RemoveNote(id, fault);
  }
}
