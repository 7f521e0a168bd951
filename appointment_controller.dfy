/** The patient-facing appointment workflow: booking (with its rule checks), editing,
    cancelling, and the list of doctors offered on the booking form. */
module AppointmentController {
  import opened Linq
  import opened Models
  import opened Data

  const MaxAppointmentsPerDay: nat := 10
  const CooldownDays: int := 5
  const FirstWorkingHour: int := 9
  const ClosingHour: int := 17

  /** A ModelState entry the appointment actions add: each check has its own entry, attached
      to a form field (`Key`, "" for the whole form) and carrying a message. */
  datatype ModelError =
    | SundayError
    | PastError
    | WorkingHoursError
    | CooldownError
    | OtherDoctorSameDateError
    | FullyBookedError
    | OverlapError
    | EditDuplicateError
  {
    function Key(): string {
      match this
      case CooldownError | FullyBookedError => "DoctorId"
      case OverlapError => ""
      case _ => "AppointmentDate"
    }

    function Message(): string {
      match this
      case SundayError => "Appointments cannot be booked on Sundays."
      case PastError => "Appointment date cannot be in the past."
      case WorkingHoursError => "Appointment must be within doctor's working hours (9 AM - 5 PM)."
      case CooldownError => "You cannot book with the same doctor again within 5 days."
      case OtherDoctorSameDateError => "You already have an appointment with another doctor on this date."
      case FullyBookedError => "The doctor is fully booked for this date."
      case OverlapError => "You already have an appointment with this doctor at the selected time."
      case EditDuplicateError => "This appointment already exists."
    }
  }

  /** The posted appointment form. */
  datatype AppointmentForm = AppointmentForm(
    id: int,
    doctorId: int,
    appointmentDate: DateTime,
    description: string,
    status: string)

  // ---------------------------------------------------------------------------------------
  // The booking rules, as queries over the Appointments table

  predicate IsSunday(dt: DateTime) {
    DayOfWeek(dt.Date()) == Sunday
  }

  predicate WithinWorkingHours(dt: DateTime) {
    FirstWorkingHour <= dt.hour < ClosingHour
  }

  /** Same patient and doctor on a calendar day in [date - 5, date). */
  predicate HasRecentSameDoctorAppointment(apps: seq<Appointment>, patientId: int, doctorId: int, dt: DateTime) {
    var windowStart := dt.Date() - CooldownDays;
    Any(apps, (a: Appointment) =>
      a.patientId == patientId && a.doctorId == doctorId
      && a.appointmentDate.Date() >= windowStart && a.appointmentDate.Date() < dt.Date())
  }

  /** Same patient, same calendar day, another doctor. */
  predicate HasOtherDoctorSameDate(apps: seq<Appointment>, patientId: int, doctorId: int, dt: DateTime) {
    Any(apps, (a: Appointment) =>
      a.patientId == patientId && a.appointmentDate.Date() == dt.Date() && a.doctorId != doctorId)
  }

  /** How many appointments the doctor has on a calendar day, all patients and statuses. */
  function DoctorAppointmentsOnDate(apps: seq<Appointment>, doctorId: int, date: int): nat {
    Count(apps, (a: Appointment) => a.doctorId == doctorId && a.appointmentDate.Date() == date)
  }

  /** Same patient, same doctor, same instant. */
  predicate HasOverlappingAppointment(apps: seq<Appointment>, patientId: int, doctorId: int, dt: DateTime) {
    Any(apps, (a: Appointment) => a.patientId == patientId && a.doctorId == doctorId && a.appointmentDate == dt)
  }

  /** Whether the booking check that adds `e` fails for the request; Edit's duplicate error is
      not one of the booking checks. */
  predicate RuleFails(e: ModelError, apps: seq<Appointment>, patientId: int, doctorId: int, date: DateTime,
                      now: DateTime)
  {
    match e
    case SundayError => IsSunday(date)
    case PastError => date.Before(now)
    case WorkingHoursError => !WithinWorkingHours(date)
    case CooldownError => HasRecentSameDoctorAppointment(apps, patientId, doctorId, date)
    case OtherDoctorSameDateError => HasOtherDoctorSameDate(apps, patientId, doctorId, date)
    case FullyBookedError => DoctorAppointmentsOnDate(apps, doctorId, date.Date()) >= MaxAppointmentsPerDay
    case OverlapError => HasOverlappingAppointment(apps, patientId, doctorId, date)
    case EditDuplicateError => false
  }

  /** The errors the booking checks add to ModelState, in the order the checks run; every
      check runs, and an error is present exactly when its check fails. */
  function BookingErrors(apps: seq<Appointment>, patientId: int, doctorId: int, date: DateTime, now: DateTime)
    : (errors: seq<ModelError>)
    ensures forall e :: e in errors <==> RuleFails(e, apps, patientId, doctorId, date, now)
  {
    var errors := AddIf([], RuleFails(SundayError, apps, patientId, doctorId, date, now), SundayError);
    var errors := AddIf(errors, RuleFails(PastError, apps, patientId, doctorId, date, now), PastError);
    var errors := AddIf(errors, RuleFails(WorkingHoursError, apps, patientId, doctorId, date, now), WorkingHoursError);
    var errors := AddIf(errors, RuleFails(CooldownError, apps, patientId, doctorId, date, now), CooldownError);
    var errors := AddIf(errors, RuleFails(OtherDoctorSameDateError, apps, patientId, doctorId, date, now),
                        OtherDoctorSameDateError);
    var errors := AddIf(errors, RuleFails(FullyBookedError, apps, patientId, doctorId, date, now), FullyBookedError);
    AddIf(errors, RuleFails(OverlapError, apps, patientId, doctorId, date, now), OverlapError)
  }

  /** `ModelState.AddModelError` when `failed`. */
  function AddIf(errors: seq<ModelError>, failed: bool, e: ModelError): (r: seq<ModelError>)
    ensures forall x :: x in r <==> x in errors || (failed && x == e)
  {
    if failed then errors + [e] else errors
  }

  /** Edit's only rule: another appointment (other id) of this patient with this doctor on the
      same calendar day. */
  predicate IsDuplicateOnEdit(apps: seq<Appointment>, patientId: int, form: AppointmentForm) {
    Any(apps, (a: Appointment) =>
      a.id != form.id && a.doctorId == form.doctorId && a.patientId == patientId
      && a.appointmentDate.Date() == form.appointmentDate.Date())
  }

  /** The table after Edit overwrote the four editable fields of row `k`. */
  function EditedTable(apps: seq<Appointment>, k: nat, form: AppointmentForm): seq<Appointment>
    requires k < |apps|
  {
    apps[k := apps[k].(doctorId := form.doctorId, appointmentDate := form.appointmentDate,
                       description := form.description, status := form.status)]
  }

  // ---------------------------------------------------------------------------------------
  // What the booking rules keep true of the table

  ghost predicate NoExactDuplicates(apps: seq<Appointment>) {
    forall i, j :: 0 <= i < j < |apps| ==>
      !(apps[i].patientId == apps[j].patientId && apps[i].doctorId == apps[j].doctorId
        && apps[i].appointmentDate == apps[j].appointmentDate)
  }

  ghost predicate OneDoctorPerPatientPerDay(apps: seq<Appointment>) {
    forall i, j :: 0 <= i < |apps| && 0 <= j < |apps|
      && apps[i].patientId == apps[j].patientId
      && apps[i].appointmentDate.Date() == apps[j].appointmentDate.Date()
      ==> apps[i].doctorId == apps[j].doctorId
  }

  ghost predicate WithinDailyCapacity(apps: seq<Appointment>) {
    forall i :: 0 <= i < |apps| ==>
      DoctorAppointmentsOnDate(apps, apps[i].doctorId, apps[i].appointmentDate.Date()) <= MaxAppointmentsPerDay
  }

  ghost predicate BookingInvariant(apps: seq<Appointment>) {
    NoExactDuplicates(apps) && OneDoctorPerPatientPerDay(apps) && WithinDailyCapacity(apps)
  }

  lemma DoctorCountAppend(apps: seq<Appointment>, x: Appointment, doctorId: int, date: int)
    ensures DoctorAppointmentsOnDate(apps + [x], doctorId, date)
         == DoctorAppointmentsOnDate(apps, doctorId, date)
            + (if x.doctorId == doctorId && x.appointmentDate.Date() == date then 1 else 0)
  {
    CountAppend(apps, x, (a: Appointment) => a.doctorId == doctorId && a.appointmentDate.Date() == date);
  }

  /** A booking that passes every check keeps the table free of exact duplicates, of a patient
      with two doctors on one day, and of a doctor over capacity. */
  lemma CreatePreservesBookingInvariant(apps: seq<Appointment>, patientId: int, form: AppointmentForm,
                                        now: DateTime, id: int)
    requires BookingInvariant(apps)
    requires BookingErrors(apps, patientId, form.doctorId, form.appointmentDate, now) == []
    ensures BookingInvariant(apps + [Appointment(id, patientId, form.doctorId, form.appointmentDate,
                                                 form.description, PendingStatus)])
  {
    var d, dt := form.doctorId, form.appointmentDate;
    var x := Appointment(id, patientId, d, dt, form.description, PendingStatus);
    PassedChecks(apps, patientId, d, dt, now);
    AppendKeepsNoExactDuplicates(apps, x);
    AppendKeepsOneDoctorPerDay(apps, x);
    AppendKeepsCapacity(apps, x);
  }

  /** The checks that guard the table's invariant, read off an empty error list. */
  lemma PassedChecks(apps: seq<Appointment>, patientId: int, doctorId: int, date: DateTime, now: DateTime)
    requires BookingErrors(apps, patientId, doctorId, date, now) == []
    ensures !HasOverlappingAppointment(apps, patientId, doctorId, date)
    ensures !HasOtherDoctorSameDate(apps, patientId, doctorId, date)
    ensures DoctorAppointmentsOnDate(apps, doctorId, date.Date()) < MaxAppointmentsPerDay
  {
    assert !RuleFails(OverlapError, apps, patientId, doctorId, date, now);
    assert !RuleFails(OtherDoctorSameDateError, apps, patientId, doctorId, date, now);
    assert !RuleFails(FullyBookedError, apps, patientId, doctorId, date, now);
  }

  lemma AppendKeepsNoExactDuplicates(apps: seq<Appointment>, x: Appointment)
    requires NoExactDuplicates(apps)
    requires !HasOverlappingAppointment(apps, x.patientId, x.doctorId, x.appointmentDate)
    ensures NoExactDuplicates(apps + [x])
  {
    var apps' := apps + [x];
    forall i, j | 0 <= i < j < |apps'|
      ensures !(apps'[i].patientId == apps'[j].patientId && apps'[i].doctorId == apps'[j].doctorId
                && apps'[i].appointmentDate == apps'[j].appointmentDate)
    {
      if j == |apps| {
        var overlaps := (a: Appointment) =>
          a.patientId == x.patientId && a.doctorId == x.doctorId && a.appointmentDate == x.appointmentDate;
        assert apps'[i] == apps[i] && apps'[j] == x && !overlaps(apps[i]);
      }
    }
  }

  lemma AppendKeepsOneDoctorPerDay(apps: seq<Appointment>, x: Appointment)
    requires OneDoctorPerPatientPerDay(apps)
    requires !HasOtherDoctorSameDate(apps, x.patientId, x.doctorId, x.appointmentDate)
    ensures OneDoctorPerPatientPerDay(apps + [x])
  {
    var apps' := apps + [x];
    var otherDoctor := (a: Appointment) =>
      a.patientId == x.patientId && a.appointmentDate.Date() == x.appointmentDate.Date() && a.doctorId != x.doctorId;
    forall i, j | 0 <= i < |apps'| && 0 <= j < |apps'|
      && apps'[i].patientId == apps'[j].patientId
      && apps'[i].appointmentDate.Date() == apps'[j].appointmentDate.Date()
      ensures apps'[i].doctorId == apps'[j].doctorId
    {
      if i < |apps| && j == |apps| {
        assert apps'[i] == apps[i] && apps'[j] == x && !otherDoctor(apps[i]);
      } else if i == |apps| && j < |apps| {
        assert apps'[j] == apps[j] && apps'[i] == x && !otherDoctor(apps[j]);
      } else if i < |apps| && j < |apps| {
        assert apps'[i] == apps[i] && apps'[j] == apps[j];
      }
    }
  }

  lemma AppendKeepsCapacity(apps: seq<Appointment>, x: Appointment)
    requires WithinDailyCapacity(apps)
    requires DoctorAppointmentsOnDate(apps, x.doctorId, x.appointmentDate.Date()) < MaxAppointmentsPerDay
    ensures WithinDailyCapacity(apps + [x])
  {
    var apps' := apps + [x];
    forall i | 0 <= i < |apps'|
      ensures DoctorAppointmentsOnDate(apps', apps'[i].doctorId, apps'[i].appointmentDate.Date())
              <= MaxAppointmentsPerDay
    {
      DoctorCountAppend(apps, x, apps'[i].doctorId, apps'[i].appointmentDate.Date());
      if i < |apps| {
        assert apps'[i] == apps[i];
      }
    }
  }

  /** Edit runs none of the booking checks: it can move an appointment onto a Sunday, outside
      working hours and onto a day the patient already sees another doctor. */
  lemma EditBypassesBookingRules()
    ensures var apps := [Appointment(1, 7, 100, DateTime(739320, 10, 0), "checkup", PendingStatus),
                         Appointment(2, 7, 200, DateTime(739322, 10, 0), "follow-up", PendingStatus)];
            var form := AppointmentForm(2, 200, DateTime(739320, 20, 0), "follow-up", "Confirmed");
            && BookingInvariant(apps)
            && !IsDuplicateOnEdit(apps, 7, form)
            && !BookingInvariant(EditedTable(apps, 1, form))
            && !WithinWorkingHours(form.appointmentDate)
    ensures var apps := [Appointment(1, 7, 100, DateTime(739320, 10, 0), "checkup", PendingStatus),
                         Appointment(2, 7, 200, DateTime(739322, 10, 0), "follow-up", PendingStatus)];
            var sunday := AppointmentForm(2, 200, DateTime(739318, 10, 0), "follow-up", PendingStatus);
            IsSunday(sunday.appointmentDate) && !IsDuplicateOnEdit(apps, 7, sunday)
  {
    var apps := [Appointment(1, 7, 100, DateTime(739320, 10, 0), "checkup", PendingStatus),
                 Appointment(2, 7, 200, DateTime(739322, 10, 0), "follow-up", PendingStatus)];
    var form := AppointmentForm(2, 200, DateTime(739320, 20, 0), "follow-up", "Confirmed");
    forall i | 0 <= i < |apps|
      ensures DoctorAppointmentsOnDate(apps, apps[i].doctorId, apps[i].appointmentDate.Date()) <= MaxAppointmentsPerDay
    {
    }
    var edited := EditedTable(apps, 1, form);
    assert edited[0].patientId == edited[1].patientId;
    assert !OneDoctorPerPatientPerDay(edited);
  }

  // ---------------------------------------------------------------------------------------
  // Boundaries of the rules

  /** An appointment on day X blocks the same doctor for the same patient on days X+1 .. X+5;
      day X+6 is the first free day (the window is [date - 5, date), so "within 5 days"
      includes the fifth day). */
  lemma CooldownBoundary(a: Appointment, now: DateTime, hour: int, minute: int)
    ensures var x := a.appointmentDate.Date();
      && CooldownError in BookingErrors([a], a.patientId, a.doctorId, DateTime(x + 5, hour, minute), now)
      && CooldownError in BookingErrors([a], a.patientId, a.doctorId, DateTime(x + 1, hour, minute), now)
      && CooldownError !in BookingErrors([a], a.patientId, a.doctorId, DateTime(x + 6, hour, minute), now)
      && CooldownError !in BookingErrors([a], a.patientId, a.doctorId, DateTime(x, hour, minute), now)
  {
    var x := a.appointmentDate.Date();
    assert HasRecentSameDoctorAppointment([a], a.patientId, a.doctorId, DateTime(x + 5, hour, minute)) by {
      assert [a][0] == a;
    }
    assert HasRecentSameDoctorAppointment([a], a.patientId, a.doctorId, DateTime(x + 1, hour, minute)) by {
      assert [a][0] == a;
    }
  }

  /** The cooldown only looks backwards: an appointment later than the requested day never
      triggers it, so booking day X after day X+3 with the same doctor is not refused by it. */
  lemma CooldownLooksOnlyBackwards(apps: seq<Appointment>, patientId: int, doctorId: int,
                                   date: DateTime, now: DateTime)
    requires forall k :: 0 <= k < |apps| && apps[k].patientId == patientId && apps[k].doctorId == doctorId
               ==> apps[k].appointmentDate.Date() >= date.Date()
    ensures CooldownError !in BookingErrors(apps, patientId, doctorId, date, now)
  {
  }

  /** With nine appointments of the doctor on the day a tenth passes the capacity check, and
      once it is stored an eleventh fails it, whoever books it. */
  lemma CapacityBoundary(apps: seq<Appointment>, patientId: int, form: AppointmentForm, now: DateTime,
                         id: int, otherPatient: int, otherTime: DateTime)
    requires DoctorAppointmentsOnDate(apps, form.doctorId, form.appointmentDate.Date()) == 9
    requires otherTime.Date() == form.appointmentDate.Date()
    ensures FullyBookedError !in BookingErrors(apps, patientId, form.doctorId, form.appointmentDate, now)
    ensures var apps' := apps + [Appointment(id, patientId, form.doctorId, form.appointmentDate,
                                             form.description, PendingStatus)];
            FullyBookedError in BookingErrors(apps', otherPatient, form.doctorId, otherTime, now)
  {
    var x := Appointment(id, patientId, form.doctorId, form.appointmentDate, form.description, PendingStatus);
    DoctorCountAppend(apps, x, form.doctorId, form.appointmentDate.Date());
  }

  /** A request is accepted exactly when it is on a weekday or Saturday, not in the past, in
      working hours and clashes with nothing; in particular a Sunday is always refused. */
  lemma AcceptedExactly(apps: seq<Appointment>, patientId: int, doctorId: int, date: DateTime, now: DateTime)
    ensures BookingErrors(apps, patientId, doctorId, date, now) == []
        <==> && !IsSunday(date) && !date.Before(now) && WithinWorkingHours(date)
             && !HasRecentSameDoctorAppointment(apps, patientId, doctorId, date)
             && !HasOtherDoctorSameDate(apps, patientId, doctorId, date)
             && DoctorAppointmentsOnDate(apps, doctorId, date.Date()) < MaxAppointmentsPerDay
             && !HasOverlappingAppointment(apps, patientId, doctorId, date)
  {
    var errors := BookingErrors(apps, patientId, doctorId, date, now);
    if errors != [] {
      assert errors[0] in errors;
    }
  }

  /** A Tuesday 10:00 booking into an empty table is accepted; the same request once stored is
      refused as an overlap, and the same patient's request for another doctor that day is
      refused as a second doctor on one date. */
  lemma BookingScenario()
    ensures var tuesday := DateTime(739320, 10, 0);
            var now := DateTime(739319, 12, 0);
            var stored := [Appointment(1, 7, 100, tuesday, "checkup", PendingStatus)];
            && DayOfWeek(tuesday.Date()) == Tuesday
            && BookingErrors([], 7, 100, tuesday, now) == []
            && OverlapError in BookingErrors(stored, 7, 100, tuesday, now)
            && OtherDoctorSameDateError in BookingErrors(stored, 7, 200, tuesday, now)
  {
    var tuesday := DateTime(739320, 10, 0);
    var stored := [Appointment(1, 7, 100, tuesday, "checkup", PendingStatus)];
    assert stored[0] == Appointment(1, 7, 100, tuesday, "checkup", PendingStatus);
  }

  // ---------------------------------------------------------------------------------------
  // Who is calling

  datatype PatientLookup = NotAuthenticated | UserNotFound | PatientProfileNotFound | PatientFound(patient: Patient)

  /** The JWT's email, its identity user, and that user's patient profile. */
  function ResolvePatient(users: seq<ApplicationUser>, patients: seq<Patient>, jwt: JwtUser): PatientLookup {
    if !jwt.isAuthenticated || jwt.email == "" then NotAuthenticated
    else match FindUserByEmail(users, jwt.email)
      case None => UserNotFound
      case Some(u) =>
        match PatientOfUser(patients, users[u].id)
        case None => PatientProfileNotFound
        case Some(p) => PatientFound(patients[p])
  }

  /** What the lookup decides: no caller without an authenticated email; "user not found" only
      when no user has the email; a found patient is a row of the table whose identity user
      carries the caller's email. */
  lemma ResolvePatientMeaning(users: seq<ApplicationUser>, patients: seq<Patient>, jwt: JwtUser)
    ensures var r := ResolvePatient(users, patients, jwt);
      && (r == NotAuthenticated <==> !jwt.isAuthenticated || jwt.email == "")
      && (r == UserNotFound ==> forall k :: 0 <= k < |users| ==> users[k].email != jwt.email)
      && (r.PatientFound? ==>
            && r.patient in patients
            && exists k :: 0 <= k < |users| && users[k].email == jwt.email && users[k].id == r.patient.applicationUserId)
  {
  }

  function LookupFailureMessage(who: PatientLookup): string {
    match who
    case NotAuthenticated => "User not authenticated."
    case UserNotFound => "User not found."
    case PatientProfileNotFound => "Patient profile not found."
    case PatientFound(_) => ""
  }

  // ---------------------------------------------------------------------------------------
  // The actions

  datatype CreateOutcome =
    | CreateFailed(message: string)
    | FormRedisplayed(errors: seq<ModelError>)
    | Created(appointment: Appointment)

  /** Create (POST): resolve the calling patient, run every booking check, and on no error
      insert exactly one Pending appointment. `modelValid` is the form binder's verdict. */
  method Create(db: ClinicDb, jwt: JwtUser, modelValid: bool, form: AppointmentForm, now: DateTime)
    returns (r: CreateOutcome)
    requires db.Valid()
    modifies db
    ensures db.Valid()
    ensures db.nextDoctorId == old(db.nextDoctorId) && db.nextPatientId == old(db.nextPatientId)
    ensures r.Created? ==> r.appointment.id == old(db.nextAppointmentId) && db.nextAppointmentId == old(db.nextAppointmentId) + 1
    ensures !r.Created? ==> db.nextAppointmentId == old(db.nextAppointmentId)
    ensures db.doctors == old(db.doctors) && db.patients == old(db.patients) && db.users == old(db.users)
    ensures var who := ResolvePatient(old(db.users), old(db.patients), jwt);
      if !who.PatientFound? then
        r == CreateFailed(LookupFailureMessage(who)) && db.appointments == old(db.appointments)
      else if !modelValid then
        r == FormRedisplayed([]) && db.appointments == old(db.appointments)
      else
        var errors := BookingErrors(old(db.appointments), who.patient.id, form.doctorId, form.appointmentDate, now);
        if errors != [] then
          r == FormRedisplayed(errors) && db.appointments == old(db.appointments)
        else
          && r.Created?
          && r.appointment == Appointment(r.appointment.id, who.patient.id, form.doctorId,
                                          form.appointmentDate, form.description, PendingStatus)
          && (forall k :: 0 <= k < |old(db.appointments)| ==> old(db.appointments)[k].id != r.appointment.id)
          && db.appointments == old(db.appointments) + [r.appointment]
    ensures BookingInvariant(old(db.appointments)) ==> BookingInvariant(db.appointments)
  {
    var who := ResolvePatient(db.users, db.patients, jwt);
    if !who.PatientFound? {
      return CreateFailed(LookupFailureMessage(who));
    }
    if !modelValid {
      return FormRedisplayed([]);
    }
    var errors := BookingErrors(db.appointments, who.patient.id, form.doctorId, form.appointmentDate, now);
    if errors != [] {
      return FormRedisplayed(errors);
    }
    var appointment := Appointment(db.nextAppointmentId, who.patient.id, form.doctorId,
                                   form.appointmentDate, form.description, PendingStatus);
    if BookingInvariant(db.appointments) {
      CreatePreservesBookingInvariant(db.appointments, who.patient.id, form, now, db.nextAppointmentId);
    }
    InsertKeepsIdentityKeys(db.appointments, AppointmentKey, db.nextAppointmentId, appointment);
    db.appointments := db.appointments + [appointment];
    db.nextAppointmentId := db.nextAppointmentId + 1;
    r := Created(appointment);
  }

  datatype EditOutcome = Unauthorized | NotFound | EditFormRedisplayed(errors: seq<ModelError>) | Updated

  /** Edit (POST): only the same-day duplicate check runs (before the record is even looked
      up); an owned record then has its doctor, date, description and status overwritten. */
  method Edit(db: ClinicDb, jwt: JwtUser, modelValid: bool, form: AppointmentForm) returns (r: EditOutcome)
    requires db.Valid()
    modifies db
    ensures db.Valid()
    ensures db.nextDoctorId == old(db.nextDoctorId) && db.nextPatientId == old(db.nextPatientId)
    ensures db.doctors == old(db.doctors) && db.patients == old(db.patients) && db.users == old(db.users)
    ensures db.nextAppointmentId == old(db.nextAppointmentId)
    ensures var who := ResolvePatient(old(db.users), old(db.patients), jwt);
      if !who.PatientFound? then
        r == Unauthorized && db.appointments == old(db.appointments)
      else if !modelValid then
        r == EditFormRedisplayed([]) && db.appointments == old(db.appointments)
      else if IsDuplicateOnEdit(old(db.appointments), who.patient.id, form) then
        r == EditFormRedisplayed([EditDuplicateError]) && db.appointments == old(db.appointments)
      else match FindAppointment(old(db.appointments), form.id)
        case None => r == NotFound && db.appointments == old(db.appointments)
        case Some(k) =>
          if old(db.appointments)[k].patientId != who.patient.id then
            r == Unauthorized && db.appointments == old(db.appointments)
          else
            r == Updated && db.appointments == EditedTable(old(db.appointments), k, form)
  {
    var who := ResolvePatient(db.users, db.patients, jwt);
    if !who.PatientFound? {
      return Unauthorized;
    }
    if !modelValid {
      return EditFormRedisplayed([]);
    }
    if IsDuplicateOnEdit(db.appointments, who.patient.id, form) {
      return EditFormRedisplayed([EditDuplicateError]);
    }
    var found := FindAppointment(db.appointments, form.id);
    if found.None? {
      return NotFound;
    }
    var k := found.value;
    if db.appointments[k].patientId != who.patient.id {
      return Unauthorized;
    }
    ReplaceKeepsKeysUnique(db.appointments, AppointmentKey, k, EditedTable(db.appointments, k, form)[k]);
    db.appointments := EditedTable(db.appointments, k, form);
    r := Updated;
  }

  datatype DeleteOutcome = DeleteFailed(message: string) | Deleted

  /** The lookups Delete makes before it writes: the caller's patient profile, the appointment
      with the id, and that it is the caller's. */
  function DeleteTarget(users: seq<ApplicationUser>, patients: seq<Patient>, apps: seq<Appointment>,
                        jwt: JwtUser, id: int): (r: Result)
    ensures r.Found? ==> r.index < |apps|
  {
    var who := ResolvePatient(users, patients, jwt);
    if !who.PatientFound? then Failed(LookupFailureMessage(who))
    else match FindAppointment(apps, id)
      case None => Failed("Appointment not found.")
      case Some(k) =>
        if apps[k].patientId != who.patient.id then Failed("Unauthorized to delete this appointment.")
        else Found(k)
  }

  /** What the lookups decide: an unresolved caller fails with the lookup's message; an id no
      appointment has fails as not found; the appointment found is the one with the id and it
      belongs to the calling patient, and one that belongs to another patient is refused. */
  lemma DeleteTargetMeaning(users: seq<ApplicationUser>, patients: seq<Patient>, apps: seq<Appointment>,
                            jwt: JwtUser, id: int)
    ensures var who := ResolvePatient(users, patients, jwt);
      var r := DeleteTarget(users, patients, apps, jwt, id);
      && (!who.PatientFound? ==> r == Failed(LookupFailureMessage(who)))
      && (r == Failed("Appointment not found.") <==>
            who.PatientFound? && forall k :: 0 <= k < |apps| ==> apps[k].id != id)
      && (r.Found? ==> who.PatientFound? && apps[r.index].id == id && apps[r.index].patientId == who.patient.id)
      && (r == Failed("Unauthorized to delete this appointment.") <==>
            who.PatientFound? && FindAppointment(apps, id).Some?
            && apps[FindAppointment(apps, id).value].patientId != who.patient.id)
  {
  }

  /** Delete (POST): the caller's own appointment is removed; nothing else changes. */
  method Delete(db: ClinicDb, jwt: JwtUser, id: int) returns (r: DeleteOutcome)
    requires db.Valid()
    modifies db
    ensures db.Valid()
    ensures db.nextDoctorId == old(db.nextDoctorId) && db.nextPatientId == old(db.nextPatientId)
    ensures db.doctors == old(db.doctors) && db.patients == old(db.patients) && db.users == old(db.users)
    ensures db.nextAppointmentId == old(db.nextAppointmentId)
    ensures match DeleteTarget(old(db.users), old(db.patients), old(db.appointments), jwt, id)
      case Failed(message) => r == DeleteFailed(message) && db.appointments == old(db.appointments)
      case Found(k) => r == Deleted && db.appointments == Without(old(db.appointments), k)
    ensures r == Deleted ==> forall k :: 0 <= k < |db.appointments| ==> db.appointments[k].id != id
    ensures BookingInvariant(old(db.appointments)) ==> BookingInvariant(db.appointments)
  {
    var target := DeleteTarget(db.users, db.patients, db.appointments, jwt, id);
    if target.Failed? {
      return DeleteFailed(target.message);
    }
    RemoveAppointment(db, target.index);
    r := Deleted;
  }

  /** The write of Delete: the row at `k` leaves the table, no other row has its id, and the
      booking invariant survives. */
  method RemoveAppointment(db: ClinicDb, k: nat)
    requires db.Valid() && k < |db.appointments|
    modifies db
    ensures db.Valid()
    ensures db.nextDoctorId == old(db.nextDoctorId) && db.nextPatientId == old(db.nextPatientId)
    ensures db.doctors == old(db.doctors) && db.patients == old(db.patients) && db.users == old(db.users)
    ensures db.nextAppointmentId == old(db.nextAppointmentId)
    ensures db.appointments == Without(old(db.appointments), k)
    ensures forall i :: 0 <= i < |db.appointments| ==> db.appointments[i].id != old(db.appointments)[k].id
    ensures BookingInvariant(old(db.appointments)) ==> BookingInvariant(db.appointments)
  {
    var apps := db.appointments;
    if BookingInvariant(apps) {
      RemovePreservesBookingInvariant(apps, k);
    }
    RemoveKeepsIdentityKeys(apps, AppointmentKey, db.nextAppointmentId, k);
    db.appointments := Without(apps, k);
  }

  /** Removing any one appointment keeps the booking invariant. */
  lemma RemovePreservesBookingInvariant(apps: seq<Appointment>, k: nat)
    requires k < |apps|
    requires BookingInvariant(apps)
    ensures BookingInvariant(Without(apps, k))
  {
    RemoveKeepsNoExactDuplicates(apps, k);
    RemoveKeepsOneDoctorPerDay(apps, k);
    RemoveKeepsCapacity(apps, k);
  }

  lemma RemoveKeepsNoExactDuplicates(apps: seq<Appointment>, k: nat)
    requires k < |apps| && NoExactDuplicates(apps)
    ensures NoExactDuplicates(Without(apps, k))
  {
    var apps' := Without(apps, k);
    forall i, j | 0 <= i < j < |apps'|
      ensures !(apps'[i].patientId == apps'[j].patientId && apps'[i].doctorId == apps'[j].doctorId
                && apps'[i].appointmentDate == apps'[j].appointmentDate)
    {
      var i0, j0 := if i < k then i else i + 1, if j < k then j else j + 1;
      assert apps'[i] == apps[i0] && apps'[j] == apps[j0] && i0 < j0;
    }
  }

  lemma RemoveKeepsOneDoctorPerDay(apps: seq<Appointment>, k: nat)
    requires k < |apps| && OneDoctorPerPatientPerDay(apps)
    ensures OneDoctorPerPatientPerDay(Without(apps, k))
  {
    var apps' := Without(apps, k);
    forall i, j | 0 <= i < |apps'| && 0 <= j < |apps'|
      && apps'[i].patientId == apps'[j].patientId
      && apps'[i].appointmentDate.Date() == apps'[j].appointmentDate.Date()
      ensures apps'[i].doctorId == apps'[j].doctorId
    {
      var i0, j0 := if i < k then i else i + 1, if j < k then j else j + 1;
      assert apps'[i] == apps[i0] && apps'[j] == apps[j0];
    }
  }

  lemma RemoveKeepsCapacity(apps: seq<Appointment>, k: nat)
    requires k < |apps| && WithinDailyCapacity(apps)
    ensures WithinDailyCapacity(Without(apps, k))
  {
    var apps' := Without(apps, k);
    forall i | 0 <= i < |apps'|
      ensures DoctorAppointmentsOnDate(apps', apps'[i].doctorId, apps'[i].appointmentDate.Date())
              <= MaxAppointmentsPerDay
    {
      var d, day := apps'[i].doctorId, apps'[i].appointmentDate.Date();
      CountRemove(apps, k, (a: Appointment) => a.doctorId == d && a.appointmentDate.Date() == day);
      assert apps'[i] == apps[if i < k then i else i + 1];
    }
  }

  // ---------------------------------------------------------------------------------------
  // The doctor list of the booking form

  /** Whether the doctor has any appointment at all on the calendar day. */
  predicate BookedOn(apps: seq<Appointment>, doctorId: int, date: int) {
    Any(apps, (a: Appointment) => a.doctorId == doctorId && a.appointmentDate.Date() == date)
  }

  /** `bookedDoctorIds`: the doctor of every appointment on the day, repeats included. */
  function BookedDoctorIds(apps: seq<Appointment>, date: int): (ids: seq<int>)
    ensures forall doctorId :: doctorId in ids <==> BookedOn(apps, doctorId, date)
  {
    if apps == [] then []
    else
      var init, last := apps[..|apps| - 1], apps[|apps| - 1];
      var ids := BookedDoctorIds(init, date) + (if last.appointmentDate.Date() == date then [last.doctorId] else []);
      assert forall k :: 0 <= k < |init| ==> init[k] == apps[k];
      assert forall doctorId :: BookedOn(apps, doctorId, date) ==> doctorId in ids by {
        forall doctorId | BookedOn(apps, doctorId, date) ensures doctorId in ids {
          var j :| 0 <= j < |apps| && apps[j].doctorId == doctorId && apps[j].appointmentDate.Date() == date;
          if j < |init| {
            var p := (a: Appointment) => a.doctorId == doctorId && a.appointmentDate.Date() == date;
            assert p(init[j]);
          }
        }
      }
      ids
  }

  /** The ids offered in the form's doctor list, in table order (their labels are not modelled). */
  function EligibleDoctorIds(apps: seq<Appointment>, doctors: seq<Doctor>,
                             selectedDate: Option<DateTime>, selectedDoctorId: Option<int>)
    : (ids: seq<int>)
    ensures |ids| <= |doctors|
  {
    var booked := if selectedDate.Some? then BookedDoctorIds(apps, selectedDate.value.Date()) else [];
    var offered := Where(doctors, (d: Doctor) =>
      d.status && (selectedDate.None? || d.id !in booked || Some(d.id) == selectedDoctorId));
    seq(|offered|, (k: int) requires 0 <= k < |offered| => offered[k].id)
  }

  /** The list's filter, stated with `BookedOn`: an active doctor that, when a date is given,
      has no appointment that day or is the selected doctor. */
  predicate Offered(apps: seq<Appointment>, selectedDate: Option<DateTime>, selectedDoctorId: Option<int>,
                    d: Doctor) {
    && d.status
    && (selectedDate.None? || !BookedOn(apps, d.id, selectedDate.value.Date()) || selectedDoctorId == Some(d.id))
  }

  /** Every id in the list is that of an offered doctor. */
  lemma EligibleDoctorIdsSound(apps: seq<Appointment>, doctors: seq<Doctor>,
                               selectedDate: Option<DateTime>, selectedDoctorId: Option<int>, k: nat)
    requires k < |EligibleDoctorIds(apps, doctors, selectedDate, selectedDoctorId)|
    ensures exists i :: (0 <= i < |doctors|
      && doctors[i].id == EligibleDoctorIds(apps, doctors, selectedDate, selectedDoctorId)[k]
      && Offered(apps, selectedDate, selectedDoctorId, doctors[i]))
  {
    var booked := if selectedDate.Some? then BookedDoctorIds(apps, selectedDate.value.Date()) else [];
    var p := (d: Doctor) => d.status && (selectedDate.None? || d.id !in booked || Some(d.id) == selectedDoctorId);
    var offered := Where(doctors, p);
    assert offered[k] in doctors && p(offered[k]);
    var i :| 0 <= i < |doctors| && doctors[i] == offered[k];
    assert Offered(apps, selectedDate, selectedDoctorId, doctors[i]);
  }

  /** Every offered doctor is in the list. */
  lemma EligibleDoctorIdsComplete(apps: seq<Appointment>, doctors: seq<Doctor>,
                                  selectedDate: Option<DateTime>, selectedDoctorId: Option<int>, i: nat)
    requires i < |doctors| && Offered(apps, selectedDate, selectedDoctorId, doctors[i])
    ensures doctors[i].id in EligibleDoctorIds(apps, doctors, selectedDate, selectedDoctorId)
  {
    var booked := if selectedDate.Some? then BookedDoctorIds(apps, selectedDate.value.Date()) else [];
    var p := (d: Doctor) => d.status && (selectedDate.None? || d.id !in booked || Some(d.id) == selectedDoctorId);
    var offered := Where(doctors, p);
    assert p(doctors[i]);
    assert doctors[i] in offered;
    var k :| 0 <= k < |offered| && offered[k] == doctors[i];
    assert EligibleDoctorIds(apps, doctors, selectedDate, selectedDoctorId)[k] == doctors[i].id;
  }

  /** The doctor list drops a doctor after a single appointment that day, although the booking
      checks would still accept nine more for that doctor. */
  lemma DoctorListStricterThanCapacity(a: Appointment, doctor: Doctor, now: DateTime)
    requires doctor.id == a.doctorId && doctor.status
    ensures EligibleDoctorIds([a], [doctor], Some(a.appointmentDate), None) == []
    ensures FullyBookedError !in BookingErrors([a], a.patientId + 1, a.doctorId, a.appointmentDate, now)
  {
    assert BookedOn([a], doctor.id, a.appointmentDate.Date()) by {
      assert [a][0] == a;
    }
    assert doctor.id in BookedDoctorIds([a], a.appointmentDate.Date());
  }
}
