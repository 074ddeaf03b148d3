# hms-go-backend: the service layer and auth gates, modelled in Dafny

This project models the core of a hospital-records backend written in Go.
The backend runs on gin and gorm. The model covers four parts:

- **The four services.** Clinical notes, appointments, patients and staff,
  running over an in-memory store that stands in for the database.
- **The two middleware gates.** They choose and verify the bearer token,
  check the identity stored in the request context, and check roles.
- **The staff handlers.** Their admin and admin-or-self checks, path-id
  parsing, and mapping from errors to HTTP statuses.
- **The auth handlers.** The order of the sign-in checks, and the format
  check on the refresh header.

## Layout

| file | module | what it holds |
|---|---|---|
| results.dfy | Results | `Option`, and `Result` whose error is the error's message text |
| text.dfy | Text | `strings.ToLower` (ASCII), `strings.Fields`, `strings.Split(s, " ")`, `strings.Join`, `strconv.ParseUint(s, 10, 32)` |
| dates.dfy | Dates | `time.Parse("2006-01-02", s)` with its calendar checks, and the matching formatter |
| models.dfy | Models | the four records, their create/update inputs, and the list filters |
| tables.dfy | Tables | gorm's `Find` (every matching row; the model lists them by ascending key, where the database promises no order) and `First` (the lowest-keyed match) over a keyed table |
| store.dfy | Store | class `Db`: four tables and one key counter, with each repository write |
| note_service.dfy, appointment_service.dfy, patient_service.dfy, staff_service.dfy | NoteService, AppointmentService, PatientService, StaffService | the service operations |
| middleware.dfy | Middleware | current-staff validation, token selection, the auth and role decisions, and class `Context` whose gate methods update the request context |
| staff_controller.dfy | StaffController | the five staff handlers as decision functions |
| auth_controller.dfy | AuthController | `Login` and `RefreshToken` as decision functions |

### Store

Each repository write takes the database's answer as an argument, `fault: Option<string>`:

- `None`: the statement succeeds.
- `Some(e)`: the database returns error `e`. Then the write changes nothing and the service passes `e` on. The one exception is the status write at the end of `CreateNote`: its error is ignored and the new note is still returned.

The store applies the column defaults the model tags declare:

- duration 30 and status "scheduled" for appointments;
- blood group and genotype "unknown" for patients;
- active for staff.

**Notes.** A note insert or save fails when another note already has the same appointment. That is the unique index on `appointment_id`. `Db.Valid()` keeps this as an invariant: at most one note per appointment.

**Missing records.** An appointment, patient or note lookup that finds nothing fails with gorm's "record not found". A staff lookup that finds nothing answers "staff not found".

**Read failures.** The staff lookups and the three list queries (`GetAllAppointments`, `GetAllPatients`, and the notes query of `GetNotesByPatientID`) take a second answer, `readFault`, for a query that fails outright; its error is returned as it is.

Every service method also preserves `Db.NotesFollowAppointments()`: every note names a key already handed out, and while its appointment exists, the note names that appointment's patient.

### Where the code and its tests disagree, the code is modelled

- `DeleteAppointment` deletes whatever the appointment's status. The tests expect a completed appointment to be refused, but the service has no such check.
- `CreateStaff` accepts a doctor without a licence number. Only a request-binding tag demands one, and the service does not check it.
- `GetStaffByEmail` is case-insensitive only because the staff repository lower-cases its argument. The service passes the address through unchanged.
- In the note, appointment and patient services, the `nil` checks after a lookup never fire with the real repositories: a missing row is gorm's "record not found" error. Most of those services turn that error into a fixed message. `DeleteAppointment` and `DeletePatient` instead return it as it is, so a missing key there answers "record not found". The staff repository is different: it answers a missing row with no row and no error, so the staff service's `nil` checks do fire and give "staff not found".

## Model

| member | source | states |
|---|---|---|
| Text.Lower | services/staff_service.go:41 | same length; each upper-case ASCII letter becomes its lower-case letter (code point plus 32), every other character is unchanged, so no upper-case letter is left |
| Text.LowerIdempotent | repositories/staff_repository.go:50 | lower-casing an already lower-cased address changes nothing, so the repository's second fold is harmless |
| Text.LowerEqualIff | repositories/staff_repository.go:50 | two strings fold to the same string iff they are equal up to the ASCII case of their letters |
| Text.Fields | middleware/auth_middleware.go:19 | every field is a non-empty run without white space |
| Text.Join | middleware/auth_middleware.go:56 | no parts give the empty string, and one part is itself |
| Text.JoinStartsWith | middleware/auth_middleware.go:56 | with two or more parts, the first part comes first and the separator right after it |
| Text.JoinAppend | middleware/auth_middleware.go:56 | one more part at the end adds the separator and that part |
| Text.FieldsOfJoin | middleware/auth_middleware.go:19 | splitting words joined by single spaces gives back exactly those words |
| Text.FieldsOfWord | middleware/auth_middleware.go:19 | a single word is its only field |
| Text.FieldsSkipSpace | middleware/auth_middleware.go:19 | leading white space does not change the fields |
| Text.FieldsAfterWord | middleware/auth_middleware.go:19 | a word followed by any non-empty run of white space is the first field, and the rest follows |
| Text.SplitSpace | controllers/auth_controller.go:83 | at least one part, no part holds a space, and joining the parts with single spaces rebuilds the input |
| Text.SplitOfPiece | controllers/auth_controller.go:83 | a string without spaces is one part |
| Text.SplitAfterPiece | controllers/auth_controller.go:83 | a space-free piece and one space split off as the first part |
| Text.ParseUint32 | controllers/staff.controller.go:80 | accepts exactly the non-empty all-digit strings whose value is below 2^32, and answers that value |
| Text.ParseUint32OfDecimal | controllers/staff.controller.go:80 | the decimal spelling of any number below 2^32 parses back to it |
| Text.SpellingOfDigits | controllers/staff.controller.go:80 | every digit string is some number of zeros followed by the canonical spelling of its value |
| Text.DecimalOfParse | controllers/staff.controller.go:80 | whatever the parse accepts is its value's decimal spelling after zero or more leading zeros ("07" reads as 7) |
| Dates.ParseDate | services/patient_service.go:35 | accepts exactly the "YYYY-MM-DD" strings naming a real calendar day (leap years included) |
| Dates.FormatDate | services/patient_service.go:35 | the output has the "YYYY-MM-DD" shape |
| Dates.ParseFormat | services/patient_service.go:35 | every valid date survives formatting and parsing |
| Dates.FormatParse | services/patient_service.go:35 | an accepted string is exactly the spelling of its date, so each date has one accepted spelling |
| Dates.ShapeOfFormat | services/patient_service.go:35 | the digits of a formatted date spell that same date, valid or not |
| Dates.LeapDay | services/patient_service.go:35-38 | for every year below 10000, "YYYY-02-29" is accepted iff the year is a leap year |
| Dates.DayAfterMonthEnd | services/patient_service.go:35-38 | in every year, the day after the last day of any month is refused |
| Tables.SelectIds | repositories/appointment.repository.go:28-38 | keys in strictly ascending order, and a key is listed iff its row is in range and matches |
| Tables.FirstId | repositories/clinicalNote.repository.go:35-39 | the lowest-keyed matching row, or none when no row matches |
| Store.AtMostOneNotePerAppointment | models/clinicalNote.model.go:7 | under the unique index, an appointment has at most one note |
| Store.AppointmentDefaults | models/appointment.model.go:16-17 | no zero duration or empty status reaches the table (they become 30 and "scheduled"); a supplied value is kept; no other column changes |
| Store.PatientDefaults | models/patient.model.go:19-20 | no empty blood group or genotype reaches the table (they become "unknown"); a supplied value is kept; no other column changes |
| Store.StaffDefaults | models/staff.model.go:18 | a stored account is active; no other column changes |
| Store.DefaultsIdempotent | models/appointment.model.go:16-17 | defaulting an already defaulted appointment, patient or account changes nothing |
| Store.Db.InsertAppointment | repositories/appointment.repository.go:24-26 | on success, stores the defaulted row under a fresh key and returns it; on a fault, nothing changes |
| Store.Db.SaveAppointment | repositories/appointment.repository.go:46-48 | overwrites the whole row unless the database refuses |
| Store.Db.RemoveAppointment | repositories/appointment.repository.go:50-52 | removes that key unless the database refuses |
| Store.Db.InsertNote | repositories/clinicalNote.repository.go:25-27 | fails with the unique-index error iff the appointment already has a note; otherwise stores the note under a fresh key |
| Store.Db.SaveNote | repositories/clinicalNote.repository.go:47-49 | overwrites the note unless the database refuses or another note holds the same appointment |
| Store.Db.RemoveNote | repositories/clinicalNote.repository.go:51-53 | removes that key unless the database refuses |
| Store.Db.InsertPatient | repositories/patient_repository.go:25-27 | on success, stores the defaulted row under a fresh key |
| Store.Db.SavePatient | repositories/patient_repository.go:53-55 | overwrites the whole row unless the database refuses |
| Store.Db.RemovePatient | repositories/patient_repository.go:57-59 | removes that key unless the database refuses |
| Store.Db.InsertStaff | repositories/staff_repository.go:29-31 | on success, stores the account, made active, under a fresh key |
| Store.Db.SaveStaff | repositories/staff_repository.go:66-68 | overwrites the whole row unless the database refuses |
| Store.Db.RemoveStaff | repositories/staff_repository.go:70-72 | removes that key unless the database refuses |
| NoteService.CreateNote | services/clinicalNote.service.go:38-63 | a missing appointment gives "associated appointment record not found" and no write. On success: the note takes its patient from the appointment, its doctor from the actor and its text from the input; it gets a fresh key; the appointment's status becomes "completed" only if that write succeeds, its other fields never change, and a failed status write is ignored. A failed note insert returns the database's error, or the unique-index error when the appointment already has a note, and leaves the appointment alone |
| NoteService.GetNoteByID | services/clinicalNote.service.go:65-67 | the stored note, or "record not found" |
| NoteService.GetNoteByAppointmentID | services/clinicalNote.service.go:69-71 | the appointment's note when it has one, otherwise "record not found" |
| NoteService.GetNotesByPatientID | services/clinicalNote.service.go:73-80 | "patient record not found" iff the patient is missing; then the notes query's own error; otherwise exactly the notes naming that patient, each once |
| NoteService.UpdateNote | services/clinicalNote.service.go:82-112 | "clinical note not found", then "only the doctor who created the clinical note can make changes" for anyone but the author; on success only the supplied text fields change and the appointment, patient and doctor stay |
| NoteService.DeleteNote | services/clinicalNote.service.go:114-124 | the same two refusals ("… can delete it"); otherwise removes exactly that note, the appointment untouched |
| AppointmentService.CreateAppointment | services/appointment.service.go:35-56 | an unknown patient gives "associated patient record not found" and no write. On success: "scheduled", the actor as receptionist, no doctor, the given clock reading as scheduled time, and patient, department, reason and (defaulted) duration from the input. A refused insert returns the error |
| AppointmentService.EnumRefusals | migrate/migrate.go:64-88 | no refusal iff every supplied department and status is a label of its database enum |
| AppointmentService.GetAllAppointments | services/appointment.service.go:58-60 | the query's error; else, for a department or status outside its enum, one of the enum refusals; otherwise exactly the appointments matching every supplied filter, each once |
| AppointmentService.GetAppointmentByID | services/appointment.service.go:62-64 | the stored appointment, or "record not found" |
| AppointmentService.UpdateAppointment | services/appointment.service.go:66-92 | "appointment not found" and no write for a missing key. Doctor, department, status and reason change only when supplied, and status with no transition check. Patient, receptionist, time and duration never change, and the updater is stamped on every update |
| AppointmentService.DeleteAppointment | services/appointment.service.go:94-103 | the lookup error for a missing key; otherwise removes it whatever its status |
| PatientService.CreatePatient | services/patient_service.go:34-60 | a date of birth that does not parse gives "invalid date format, use YYYY-MM-DD" and no write. On success: the given registration number, creator as both creator and updater, the parsed date, and the text fields copied; blood group and genotype "unknown" |
| PatientService.GetAllPatients | services/patient_service.go:62-64 | the query's error iff it fails; otherwise exactly the patients matching the filter, each once |
| PatientService.GetPatientByID | services/patient_service.go:66-68 | the stored patient, or "record not found" |
| PatientService.GetPatientByRegistrationNumber | services/patient_service.go:70-72 | the lowest-keyed patient with that number, or "record not found" when none has it |
| PatientService.UpdatePatient | services/patient_service.go:74-118 | "patient not found" for a missing key. A supplied date that does not parse is refused; otherwise a failing save returns the database's error; either way the record is left unchanged. Only the nine supplied fields change; the registration number and creator stay; the updater is stamped |
| PatientService.DeletePatient | services/patient_service.go:120-129 | the lookup error for a missing key; otherwise removes it |
| StaffService.CreateStaff | services/staff_service.go:30-54 | a hashing error aborts before any write. On success: the lower-cased address, the hash and never the password, the other fields copied verbatim, and the account active |
| StaffService.GetAllStaff | services/staff_service.go:56-58 | every account in key order, or the query's error |
| StaffService.GetStaffByID | services/staff_service.go:60-69 | the query's error, else the account, else "staff not found" |
| StaffService.GetStaffByEmail | services/staff_service.go:71-80 | the query's error; else the lowest-keyed account whose address equals the lower-cased argument; else "staff not found" |
| StaffService.GetStaffByEmployeeID | services/staff_service.go:82-91 | the query's error; else the lowest-keyed account with that employee number; else "staff not found" |
| StaffService.EmailLookupIgnoresCase | repositories/staff_repository.go:50 | looking up an address and its lower-cased form finds the same account |
| StaffService.EmailLookupCaseInsensitive | repositories/staff_repository.go:50 | addresses equal up to the case of their letters find the same account, or fail alike |
| StaffService.UpperCaseAddressFindsAccount | services/staff_service_test.go:207-225 | "JOHN@example.com" finds the only account stored as "john@example.com" |
| StaffService.UpdateStaff | services/staff_service.go:93-132 | an error and no write for a failed or empty lookup. Only the eight supplied fields change, a supplied address lower-cased; employee number, role and password hash never change |
| StaffService.DeleteStaff | services/staff_service.go:134-143 | the lookup's error or "staff not found" and no write; otherwise removes exactly that account |
| Middleware.FromClaims | middleware/context_middleware.go:14-19 | the stored identity keeps the token's id and role |
| Middleware.ClaimsDetermineIdentity | middleware/context_middleware.go:14-19 | two tokens give the same identity exactly when their claims agree |
| Middleware.GetCurrentStaff | middleware/helpers_middleware.go:9-25 | "staff context missing", "invalid staff context type", "invalid staff ID" in that order; otherwise the stored identity, whose id is never 0 |
| Middleware.SelectToken | middleware/auth_middleware.go:15-25 | the header's second field when its first is exactly "Bearer"; a panic when "Bearer" is its only field; otherwise the cookie, or the empty token |
| Middleware.HeaderTokenWins | middleware/auth_middleware.go:18-22 | "Bearer", any white space and a word give that word, whatever the cookie and whatever follows |
| Middleware.BareSchemePanics | middleware/auth_middleware.go:21-22 | "Bearer" followed by nothing but white space indexes past the fields |
| Middleware.OtherSchemeUsesCookie | middleware/auth_middleware.go:21-25 | any other first field, "bearer" included, falls back to the cookie |
| Middleware.BlankHeaderUsesCookie | middleware/auth_middleware.go:18-25 | a missing or blank header falls back to the cookie |
| Middleware.Authenticate | middleware/auth_middleware.go:27-40 | 401 "An access token is required" for an empty token without consulting the verifier; 401 with the verifier's error; otherwise the identity built from the claims |
| Middleware.Authorize | middleware/auth_middleware.go:45-63 | passes iff the stored identity is valid and its role is listed; 401 with the validation error first, then 403 naming the allowed roles |
| Middleware.AuthThenAuthorize | middleware/auth_middleware.go:40 | after the auth gate the role gate sees exactly the verified identity; claims with id 0 pass the auth gate but get 401 at the role gate |
| Middleware.Context.AuthMiddleware | middleware/auth_middleware.go:13-43 | stores the identity and lets the chain go on, or writes the refusal and aborts; a panic becomes a 500 and an abort |
| Middleware.Context.RoleMiddleware | middleware/auth_middleware.go:45-63 | leaves the context's values alone; aborts with the refusal exactly when the role decision refuses |
| Middleware.Context.RunGates | routes/staff.route.go:21-24 | with the auth gate then the role gate in front of a route, the request reaches the handler iff its token verifies to claims with a nonzero id and an allowed role, and the handler then sees exactly that identity |
| StaffController.CreateStaff | controllers/staff.controller.go:22-48 | 401 before anything else, 403 for a non-admin, 400 for a bad payload or a service error, 201 with the account otherwise |
| StaffController.GetAllStaff | controllers/staff.controller.go:50-70 | 401, then 403 for a non-admin, 500 with the query's error, 200 otherwise with the service's list: every stored account and nothing else |
| StaffController.GetStaffByID | controllers/staff.controller.go:72-100 | 401; then 400 for an id that is not a 32-bit decimal; then 403 for a non-admin asking for another's record; then 404 "Staff not found" when the query fails or the account is missing; 200 with the stored account otherwise |
| StaffController.UpdateStaff | controllers/staff.controller.go:102-136 | 401, then 403 for a non-admin, then 400 for a bad id, a bad payload or a service error; 200 with the service's account otherwise |
| StaffController.DeleteStaff | controllers/staff.controller.go:138-166 | 401, then 403 for a non-admin, then 400 for a bad id, 404 for any service error, 200 otherwise |
| StaffController.CheckOrderDiffers | controllers/staff.controller.go:79-121 | for a non-admin with a malformed id, reading answers 400 while updating and deleting answer 403 |
| StaffController.OwnRecordReadable | controllers/staff.controller.go:87-99 | a non-admin can read their own stored record by its decimal id |
| AuthController.Login | controllers/auth_controller.go:26-74 | 400 for a bad payload; the same 401 "Invalid email or password" for an unknown address, a failed lookup or a wrong password; 403 for an inactive account only after the password matched; 500 when issuing fails; tokens only for a stored, matching, active account, issued from its id and role, and for such an account always the issued tokens with that account |
| AuthController.LoginIgnoresEmailCase | controllers/auth_controller.go:34-36 | signing in with the lower-cased address gives the same reply |
| AuthController.WrongPasswordHidesInactive | controllers/auth_controller.go:43-53 | when the password matches no account, the reply is the unknown-address 401, active or not |
| AuthController.RefreshToken | controllers/auth_controller.go:76-99 | 401 for an empty header, 401 unless the header splits into exactly "Bearer" and one part, 401 with the refresher's error; otherwise the new tokens from that part |
| AuthController.RefreshFormatExactly | controllers/auth_controller.go:83-87 | the format check accepts exactly "Bearer", one space, and a space-free (possibly empty) token, which is what gets refreshed |
| AuthController.DoubledSpace | controllers/auth_controller.go:83-87 | with two spaces after "Bearer" the auth gate still takes the token, and the refresh handler answers 401 |

## Left out

- **gorm itself.**
  - Timestamps and soft deletion are not modelled: `DeletedAt` is left out and a delete removes the row.
  - Insert assigns keys from one counter shared by the four tables; the real database numbers each table on its own. Only freshness is relied on.
- Store.Db.RemoveNote: removes the note outright. With gorm's soft delete the row stays, so the unique index on `appointment_id` still counts it: the real database refuses a new note for that appointment, while the model's `InsertNote` after `RemoveNote` accepts one.
- **Unique indexes other than the note's appointment.** Indexes such as staff e-mail, employee number, licence number and registration number surface only through the `fault` answer.
- **Read failures of single-row lookups.** `GetNoteByID`, `GetNoteByAppointmentID`, `GetAppointmentByID`, `GetPatientByID`, `GetPatientByRegistrationNumber`, the appointment lookup in `CreateNote`, the patient lookup in `CreateAppointment`, the patient lookup in `GetNotesByPatientID`, and the lookups at the start of the note, appointment and patient updates and deletes, have no failure other than "record not found" or their service's fixed message. A query that fails outright (the connection dropping, say) would return its own error there, or the same fixed message where the service maps every lookup error to one. In `CreateNote`, `CreateAppointment` and `GetNotesByPatientID` that means a dropped connection reads as a missing appointment or patient even when the row exists. The list queries and the staff lookups do take a `readFault`.
- **Enum columns on writes.** Appointment department and status, and the patient's gender, blood group and genotype, are PostgreSQL enums. A value outside the enum makes an insert or a save fail; the model leaves that to the `fault` answer. Only the appointment list filters check enum labels explicitly.
- AppointmentService.GetAllAppointments: a patient or doctor filter that is not a number would also be refused by the database; the model's filter holds numbers only. When both the department and the status are outside their enums, the model answers with the department's refusal; the real query fails on whichever PostgreSQL reads first, so the contract only says it is one of the two. The refusal wording stands in for PostgreSQL's own message.
- AppointmentService.GetAllAppointments: its `Find` query has no ORDER BY, so the database may return rows in any order. Ascending key order is the model's choice, not a promise of the source.
- PatientService.GetAllPatients: its `Find` query has no ORDER BY, so the database may return rows in any order. Ascending key order is the model's choice, not a promise of the source.
- NoteService.GetNotesByPatientID: its `Find` query has no ORDER BY, so the database may return rows in any order. Ascending key order is the model's choice, not a promise of the source.
- StaffService.GetAllStaff: its `Find` query has no ORDER BY, so the database may return rows in any order. Ascending key order is the model's choice, not a promise of the source.
- **Opaque collaborators.** Password hashing, password checking, token issue, token verification and token refresh are parameters, because their code is not part of this model. So are the clock reading used as an appointment's scheduled time and the registration-number generator in utils/generators.go.
- **Text.Lower:** folds ASCII letters only. Go's `strings.ToLower` also folds non-ASCII letters.
- **Integer width.** Ids are unbounded naturals, not `uint`. Duration is an unbounded integer. Only the path-id parse models the 32-bit limit.
- **List filters.** They are modelled as equality on known fields. The handlers build the filter map from query parameters, and keys they never send are not modelled.
- **Request binding.** The `binding:` validation tags and the JSON shape of requests are not modelled. The handlers' `bound` argument carries binding's outcome.
- **Response bodies.** Only the status, title and detail of a reply are modelled, not the JSON envelope. Success replies carry their payload.
- **Panics.** A panic in the auth gate is modelled as gin's recovery answer, a 500 with an aborted chain. The recovery handler's own body is not modelled.
- **The remaining controllers, the routes, main.go, migrations (apart from the enum labels the list filter checks) and the seeded admin.** The appointment, patient and note controllers only bind input and map errors. Of the routes, only the chain of the two gates in front of a route group is modelled (`Middleware.Context.RunGates`); which group each route belongs to is not.
- **Concurrency.** There is no concurrency between requests: each request is one sequential step. The two writes in `CreateNote` are not atomic, which the model shows by letting the second one fail alone.
- **A note's patient after reassignment.** `NotesFollowAppointments` holds only while appointments keep their patient, which `UpdateAppointment` never changes.
