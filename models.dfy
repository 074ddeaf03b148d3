/** The four records of the hospital backend and the inputs its services accept.
    Every record carries the primary key the database assigned to it; gorm's
    timestamps and soft-delete column are not part of the model. */
module Models {
  import opened Results
  import opened Dates

  /** The appointment statuses the service layer names. */
  const Scheduled: string := "scheduled"
  const Completed: string := "completed"
  const Cancelled: string := "cancelled"

  /** The labels of the database enums behind appointments.department and
      appointments.status; PostgreSQL refuses to compare a column of such a
      type with any other text. */
  const Departments: set<string> := {"general", "cardiology", "pediatrics", "orthopedics", "neurology",
                                     "dermatology", "psychiatry", "oncology", "gynecology", "endocrinology"}
  const AppointmentStatuses: set<string> := {Scheduled, Completed, Cancelled, "no_show"}

  // ---------------------------------------------------------------- appointments

  datatype Appointment = Appointment(
    id: nat,
    patientId: nat,
    receptionistId: nat,
    doctorId: Option<nat>,
    department: string,
    scheduledAt: int,        // the request's clock reading
    duration: int,           // minutes
    status: string,
    reason: string,
    updatedBy: nat)

  datatype CreateAppointmentInput = CreateAppointmentInput(
    patientId: nat, department: string, duration: int, reason: string)

  /** A sparse update: `None` is a field the request left out. */
  datatype UpdateAppointmentInput = UpdateAppointmentInput(
    doctorId: Option<nat>, department: Option<string>, status: Option<string>, reason: Option<string>)

  /** Equality filters on the columns patient_id, doctor_id, department, status. */
  datatype AppointmentFilter = AppointmentFilter(
    patientId: Option<nat>, doctorId: Option<nat>, department: Option<string>, status: Option<string>)

  /** A row satisfies every filter given; a NULL doctor column equals no value. */
  predicate MatchesAppointment(a: Appointment, f: AppointmentFilter) {
    && (f.patientId.Some? ==> a.patientId == f.patientId.value)
    && (f.doctorId.Some? ==> a.doctorId == Some(f.doctorId.value))
    && (f.department.Some? ==> a.department == f.department.value)
    && (f.status.Some? ==> a.status == f.status.value)
  }

  // ---------------------------------------------------------------- clinical notes

  datatype ClinicalNote = ClinicalNote(
    id: nat,
    appointmentId: nat,
    patientId: nat,
    doctorId: nat,
    presentingComplaints: string,
    pastMedicalHistory: string,
    clinicalDiagnosis: string,
    treatmentPlan: string,
    recommendation: string)

  datatype CreateNoteInput = CreateNoteInput(
    appointmentId: nat,
    presentingComplaints: string,
    pastMedicalHistory: string,
    clinicalDiagnosis: string,
    treatmentPlan: string,
    recommendation: string)

  datatype UpdateNoteInput = UpdateNoteInput(
    presentingComplaints: Option<string>,
    pastMedicalHistory: Option<string>,
    clinicalDiagnosis: Option<string>,
    treatmentPlan: Option<string>,
    recommendation: Option<string>)

  // ---------------------------------------------------------------- patients

  datatype Patient = Patient(
    id: nat,
    registrationNumber: string,
    firstName: string,
    lastName: string,
    dateOfBirth: Date,
    gender: string,
    phoneNumber: string,
    email: string,
    address: string,
    bloodGroup: string,
    genotype: string,
    createdBy: nat,
    updatedBy: nat)

  /** The date of birth arrives as text and is parsed by the service. */
  datatype CreatePatientInput = CreatePatientInput(
    firstName: string, lastName: string, dateOfBirth: string, gender: string,
    phoneNumber: string, email: string, address: string)

  datatype UpdatePatientInput = UpdatePatientInput(
    firstName: Option<string>, lastName: Option<string>, dateOfBirth: Option<string>,
    gender: Option<string>, phoneNumber: Option<string>, email: Option<string>,
    address: Option<string>, bloodGroup: Option<string>, genotype: Option<string>)

  /** The one filter the patient list accepts: registration_number. */
  datatype PatientFilter = PatientFilter(registrationNumber: Option<string>)

  predicate MatchesPatient(p: Patient, f: PatientFilter) {
    f.registrationNumber.Some? ==> p.registrationNumber == f.registrationNumber.value
  }

  // ---------------------------------------------------------------- staff

  datatype Staff = Staff(
    id: nat,
    employeeId: string,
    firstName: string,
    lastName: string,
    phoneNumber: string,
    email: string,
    passwordHash: string,
    role: string,
    isActive: bool,
    licenseNumber: Option<string>,
    specialization: Option<string>,
    department: Option<string>)

  datatype CreateStaffInput = CreateStaffInput(
    employeeId: string, firstName: string, lastName: string, phoneNumber: string,
    email: string, password: string, role: string,
    licenseNumber: Option<string>, specialization: Option<string>, department: Option<string>)

  datatype UpdateStaffInput = UpdateStaffInput(
    firstName: Option<string>, lastName: Option<string>, phoneNumber: Option<string>,
    email: Option<string>, isActive: Option<bool>,
    licenseNumber: Option<string>, specialization: Option<string>, department: Option<string>)
}
