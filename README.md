# Appointment Management — a verified model of the booking rules

Appointment_Management is an ASP.NET Core MVC application for a clinic. Patients register,
sign in and book appointments with doctors. Doctors see their own queue and change the status
of an appointment. An administrator manages doctors and patients. This project models the
part of it that decides things:

- the rule checks that guard a booking (Sunday, past, working hours, the five-day cooldown
  with the same doctor, one doctor per patient per day, a daily capacity of ten per doctor,
  an exact duplicate) and the insert that follows;
- the patient's edit and cancel, the list of doctors the booking form offers, and the
  doctor's status update and filtered queue;
- the administrator's doctor create, edit and delete (with the appointments guard), the
  specialty list, and the patient edit, which stores only the active flag;
- registration, the sign-in eligibility chain with its role-based redirect, and the
  email-change request;
- the email pattern `^[^@\s]+@[^@\s]+\.[^@\s]+$` and the registration form's annotations.

The database context is the class `Data.ClinicDb`: one sequence per table (rows in storage
order), plus the counters the identity columns use to number new rows. Every controller action
that writes is a method of its controller's module that takes the context `db: ClinicDb` and
changes it under a `modifies db` frame. Each such method states the whole new state (every
table and every counter), and it keeps `Valid()`: primary keys stay unique, and keys stay
below the next counter.
The LINQ queries the controllers run (`FirstOrDefault`, `Any`, `Count`, `Where`, `Distinct`)
are functions in module `Linq` with their own contracts.

A `DateTime` is a day number counted from 0001-01-01 (a Monday, as in .NET), plus an hour and
a minute, so `DayOfWeek(day) = (day + 1) % 7` with Sunday = 0. The wall clock is the parameter
`now`. The identity store's answers are parameters too: whether a password matches, whether
`CreateAsync`, `UpdateAsync` or `ResetPasswordAsync` succeeded, and the id a new user gets.
So is what the JWT cookie says about the caller, and whether the posted form passed
validation.

Besides restating each action, the model proves what the actions keep true. A successful
booking preserves a table invariant: no exact duplicates, one doctor per patient per day, at
most ten appointments per doctor per day. Cancelling and status changes preserve it too.
Edit does not: a concrete two-row table shows an edit that breaks it. Deleting a doctor keeps
every appointment pointing at an existing doctor, and without the guard that would fail.
Registering and creating a doctor keep emails unique. A freshly registered user cannot sign
in before confirming the email. The email decision procedure agrees with the pattern read as
a grammar, in both directions.

Three behaviours of the code are worth knowing, and the model keeps them:

- Cooldown. The window is [date − 5, date) of the requested day. So after a booking on day
  X, days X+1 to X+5 are refused and X+6 is the first day accepted. The check looks only
  backwards: an appointment five days later does not block an earlier booking.
- Status. The doctor's status update and the patient's edit store any string as the status,
  not only Pending, Confirmed or Cancelled.
- Edit. Editing an appointment runs only the same-day duplicate check. The Sunday, past,
  working-hours, cooldown, other-doctor and capacity checks do not run. The duplicate check
  also runs before the appointment is looked up or its owner checked.

## Model

| member | source | states |
|---|---|---|
| Models.DayOfWeek | Appointment_Management/Controllers/AppointmentController.cs:199 | the weekday lies in 0..6 and day 0 (0001-01-01) is a Monday, as `DateTime.DayOfWeek` numbers them |
| AppointmentController.BookingErrors | Appointment_Management/Controllers/AppointmentController.cs:199-255 | each of the seven booking errors is present exactly when its rule fails: Sunday, before `now`, hour outside 9..16, same patient and doctor on a day in [date−5, date), same patient with another doctor that day, the doctor already at 10 that day (all patients and statuses), same patient, doctor and instant |
| AppointmentController.AcceptedExactly | Appointment_Management/Controllers/AppointmentController.cs:257-261 | a booking is accepted (no errors) exactly when all seven rules pass |
| AppointmentController.CooldownBoundary | Appointment_Management/Controllers/AppointmentController.cs:214-225 | after a booking on day X, a booking with the same doctor on X+1 and X+5 is flagged, and on X+6 and on X itself it is not |
| AppointmentController.CooldownLooksOnlyBackwards | Appointment_Management/Controllers/AppointmentController.cs:216-220 | appointments of the same patient and doctor on or after the requested day never trigger the cooldown |
| AppointmentController.CapacityBoundary | Appointment_Management/Controllers/AppointmentController.cs:237-245 | a doctor with 9 appointments that day is not fully booked; one more makes any further booking that day fully booked, for any patient |
| AppointmentController.BookingScenario | Appointment_Management/Controllers/AppointmentController.cs:199-255 | concrete cases: a Tuesday 10:00 request on an empty table is accepted; a second identical one is an overlap; the same patient with another doctor that day is refused |
| AppointmentController.CreatePreservesBookingInvariant | Appointment_Management/Controllers/AppointmentController.cs:227-272 | appending the record of an accepted booking keeps the table free of exact duplicates, of a patient with two doctors on one day, and of a doctor with more than 10 appointments on one day |
| AppointmentController.ResolvePatientMeaning | Appointment_Management/Controllers/AppointmentController.cs:179-195 | the caller is not authenticated exactly when the cookie says so or carries no email; a user-not-found result means no user has that email; a found patient belongs to the user with that email |
| AppointmentController.Create | Appointment_Management/Controllers/AppointmentController.cs:177-278 | failures of the caller lookup return their message; an invalid form or any booking error redisplays the form with those errors and changes nothing; otherwise exactly one record is appended, numbered by the appointment counter, which advances by one (on every other path it stays), with the caller's patient id, the posted doctor, date and description, and status "Pending"; the booking invariant is preserved |
| AppointmentController.Edit | Appointment_Management/Controllers/AppointmentController.cs:313-356 | in the source's order: unauthorized caller, invalid form, another record of this patient with this doctor on the same day, missing record, record of another patient; otherwise only doctor, date, description and status of that record are overwritten, nothing else changes |
| AppointmentController.EditBypassesBookingRules | Appointment_Management/Controllers/AppointmentController.cs:331-352 | a concrete table satisfying the booking invariant and an edit that passes the duplicate check yet leaves the patient with two doctors on one day, at 20:00; and an edit onto a Sunday that also passes it |
| AppointmentController.Delete | Appointment_Management/Controllers/AppointmentController.cs:359-383 | lookup failures, a missing record and another patient's record each return their message and change nothing; otherwise exactly that record is removed, the others keep their order, and the booking invariant is preserved |
| AppointmentController.DeleteTargetMeaning | Appointment_Management/Controllers/AppointmentController.cs:361-378 | an unresolved caller fails with the lookup's message; "Appointment not found." exactly when no record has the id; the record found has the id and belongs to the calling patient; "Unauthorized to delete this appointment." exactly when the record with the id belongs to another patient |
| AppointmentController.RemoveAppointment | Appointment_Management/Controllers/AppointmentController.cs:380-381 | the record leaves the table, the others keep their order, no remaining record has its id, the keys stay valid and the booking invariant is preserved |
| AppointmentController.RemovePreservesBookingInvariant | Appointment_Management/Controllers/AppointmentController.cs:380 | removing any record keeps the booking invariant |
| AppointmentController.BookedDoctorIds | Appointment_Management/Controllers/AppointmentController.cs:387-392 | a doctor id is in the list exactly when some appointment with that doctor falls on the day |
| AppointmentController.EligibleDoctorIdsSound | Appointment_Management/Controllers/AppointmentController.cs:394-395 | every doctor offered is active and, when a date is selected, has no booking that day or is the selected doctor |
| AppointmentController.EligibleDoctorIdsComplete | Appointment_Management/Controllers/AppointmentController.cs:394-395 | every doctor meeting that condition is offered |
| AppointmentController.DoctorListStricterThanCapacity | Appointment_Management/Controllers/AppointmentController.cs:387-395 | with a single booking on a day, that doctor is no longer offered for the day, though the capacity check would still accept another booking |
| DoctorAppointmentController.DoctorByEmail | Appointment_Management/Controllers/DoctorAppointmentController.cs:48-50 | a found doctor's identity user has the email; when none is found, no doctor's user has it |
| DoctorAppointmentController.MyAppointments | Appointment_Management/Controllers/DoctorAppointmentController.cs:70-80 | the listing holds only the doctor's own appointments, only those with exactly the given status when one is given, and every such appointment |
| DoctorAppointmentController.GetMyAppointments | Appointment_Management/Controllers/DoctorAppointmentController.cs:41-80 | an unauthenticated caller gets "User not authenticated"; "Doctor profile not found" exactly when no doctor's user has the caller's email; otherwise the listing is exactly `MyAppointments` of the caller's own doctor with the given status filter |
| DoctorAppointmentController.StatusTargetMeaning | Appointment_Management/Controllers/DoctorAppointmentController.cs:164-183 | "User not authenticated" exactly when the cookie is unauthenticated or has no email; "Doctor profile not found" exactly when, besides, no doctor's user has the email; a record found has the id and the caller's doctor id; "Appointment not found" means no record with the id belongs to that doctor |
| DoctorAppointmentController.UpdateStatus | Appointment_Management/Controllers/DoctorAppointmentController.cs:158-199 | unauthenticated, no doctor profile, or no appointment with both that id and the caller's doctor id: failure with its message and no change; otherwise only that record's status changes, to exactly the posted string; the booking invariant is preserved |
| DoctorAppointmentController.StatusChangePreservesBookingInvariant | Appointment_Management/Controllers/DoctorAppointmentController.cs:185 | changing one record's status keeps the booking invariant |
| DoctorController.NamedSpecialties | Appointment_Management/Controllers/DoctorController.cs:254-255 | every entry is a non-empty specialty of some doctor, and every doctor's non-empty specialty is an entry |
| DoctorController.SpecialistList | Appointment_Management/Controllers/DoctorController.cs:251-260 | the list has no duplicates and no empty entry, each entry is some doctor's specialty, and every non-empty specialty is listed |
| DoctorController.Delete | Appointment_Management/Controllers/DoctorController.cs:264-289 | an unknown doctor and one with any appointment are refused with their messages and nothing changes; otherwise exactly that doctor (and its identity user, if present) is removed, its id is in no remaining row, and every appointment still names an existing doctor |
| DoctorController.RemoveDoctor | Appointment_Management/Controllers/DoctorController.cs:279-286 | the doctor leaves the table with its identity user when there is one, no remaining doctor has its id, the keys stay valid, and every appointment still names an existing doctor |
| DoctorController.UnreferencedRemovalKeepsReferences | Appointment_Management/Controllers/DoctorController.cs:273-285 | removing a doctor that no appointment names keeps every appointment's doctor in the table |
| DoctorController.RemovingReferencedDoctorBreaksReferences | Appointment_Management/Controllers/DoctorController.cs:273-277 | without the guard, removing a doctor some appointment names would leave that appointment without its doctor |
| DoctorController.Create | Appointment_Management/Controllers/DoctorController.cs:40-85 | an invalid form, an email already in use and a failed user creation change nothing; otherwise one confirmed user in role Doctor and one doctor row with the next id, the posted specialty and active flag are added; emails stay unique |
| DoctorController.Edit | Appointment_Management/Controllers/DoctorController.cs:111-170 | invalid form and unknown doctor change nothing; the user's name and gender are saved first; a failed reset of a non-blank password then leaves the doctor row unchanged; otherwise specialty and active flag are set; no user's id or email ever changes |
| PatientController.Edit | Appointment_Management/Controllers/PatientController.cs:124-146 | an invalid form and an unknown id change nothing; otherwise only the patient's active flag is set from the form, its id, user and join date stay, and no other row changes |
| AccountController.RedirectFor | Appointment_Management/Controllers/AccountController.cs:222-232 | role priority Admin, Patient, Doctor; Home exactly when the user has none of the three |
| AccountController.Login | Appointment_Management/Controllers/AccountController.cs:172-234 | sign-in succeeds exactly when the form is valid, a user has the email, it is confirmed, neither its patient nor its doctor row is inactive, and the password matches; an email no user has gets "Invalid login attempt."; the redirect follows the role priority |
| AccountController.InactiveRejectedWhateverPassword | Appointment_Management/Controllers/AccountController.cs:190-203 | a confirmed user with an inactive patient or doctor row gets the not-eligible notice whether or not the password matches |
| AccountController.UnconfirmedRejectedBeforePassword | Appointment_Management/Controllers/AccountController.cs:184-188 | an unconfirmed email is refused with its message whatever the password |
| AccountController.WrongPasswordLooksLikeUnknownEmail | Appointment_Management/Controllers/AccountController.cs:177-209 | a wrong password for an eligible user and an unknown email get the same "Invalid login attempt." |
| AccountController.Register | Appointment_Management/Controllers/AccountController.cs:39-109 | an invalid form, an email in use and a failed user creation change nothing; otherwise one unconfirmed user in role Patient and one active patient with the next id and the posted join date are added; emails stay unique |
| AccountController.RegisteredUserMustConfirm | Appointment_Management/Controllers/AccountController.cs:50-59 | a user just registered under an unused email is refused at sign-in as unconfirmed, whatever the password |
| AccountController.InactiveNewDoctorCannotSignIn | Appointment_Management/Controllers/DoctorController.cs:52-81 | a doctor created with the active flag off gets the not-eligible notice at sign-in, whatever the password |
| AccountController.ChangeEmail | Appointment_Management/Controllers/AccountController.cs:460-493 | an invalid new email redisplays the form; an unauthenticated caller or a missing user is sent to login; a new email equal to the current one is refused; otherwise a confirmation goes to the new, different, well-formed address |
| RegisterViewModel.EmailFormatMatchesRegex | Appointment_Management/Models/ViewModels/RegisterViewModel.cs:13 | the direct decision agrees, on every string, with the pattern read as "non-empty plain run, @, plain run, dot, plain run" |
| RegisterViewModel.AcceptedEmailShape | Appointment_Management/Models/ViewModels/RegisterViewModel.cs:12-13 | an accepted email has exactly one '@', no whitespace, a non-empty part before the '@', and a dot after it that is neither first nor last there |
| RegisterViewModel.AcceptedExamples | Appointment_Management/Models/ViewModels/RegisterViewModel.cs:13 | "a@b.c" and "a@b..c" match |
| RegisterViewModel.RejectedDomainExamples | Appointment_Management/Models/ViewModels/RegisterViewModel.cs:13 | "a@b", "a@.c" and "a@b." do not match: the domain needs a dot neither first nor last |
| RegisterViewModel.RejectedLocalExamples | Appointment_Management/Models/ViewModels/RegisterViewModel.cs:12-13 | "@b.c", "a@@b.c" and "a b@c.d" do not match; "" passes the pattern attribute but not the required field |
| RegisterViewModel.ValidFormEmail | Appointment_Management/Models/ViewModels/RegisterViewModel.cs:7-23 | a valid registration form (all six fields required, the pattern, confirmation equal to password) carries an email with exactly one '@' and no whitespace |

## Left out

- Identity and JWT machinery: password hashing and checking, user creation, update and
  password reset, token generation, cookies and email sending are library calls; their
  results are parameters and the mail content is not modelled.
- Listing endpoints: the search, sorting and paging of the DataTables actions. Only the
  doctor and status filter of the doctor's queue is modelled.
- The browser scripts, the view rendering, and the labels of the doctor dropdown.
- `ApplicationDbContext`: the restrict-on-delete foreign keys appear only as the invariant
  `DoctorController.DoctorsReferenced`. Cascade deletes are not modelled: a patient row
  sharing a deleted doctor's identity user stays.
- Email lookup: `FindByEmailAsync` compares normalized (upper-cased) emails and throws when two
  users share one; the model compares exactly and takes the first user.
- Concurrency: each request is one sequential step, so the check-then-insert race between two
  bookings is not modelled.
- DateTime: hour and minute are not restricted to 0..23 and 0..59; every contract holds for
  all values, those a .NET `DateTime` cannot hold included.
- Time: minutes are the finest unit, time zones are ignored, and the calendar range limit of
  `DateTime` is not modelled.
- The `[EmailAddress]` attribute and the implicit required-ness of non-nullable properties
  other than those listed: form validity is a parameter except for the registration form
  and the change-email form's new address.
- `Profile` and the other account actions (password reset, confirmation links) are outside
  the modelled core.
- Exceptions: the status update's catch-all error reply is not modelled.
- DoctorController.Edit: a doctor row whose identity user is missing would throw a null
  reference in the source; the model answers `ServerError` and changes nothing.
- AppointmentController.EligibleDoctorIds: its own contract bounds only the length; what it
  offers is stated by `EligibleDoctorIdsSound` and `EligibleDoctorIdsComplete`.
- AccountController.ChangeEmail: the comparison with the current email is ordinal, as in the
  source, so an address that differs only in letter case counts as a new one.
