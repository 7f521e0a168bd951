/** The doctor-facing appointment queue: the doctor's own appointments, optionally filtered by
    status, and the status update. */
module DoctorAppointmentController {
  import opened Linq
  import opened Models
  import opened Data
  import opened AppointmentController

  /** `Doctors.FirstOrDefaultAsync(d => d.ApplicationUser.Email == email)`: the first doctor
      whose identity user carries the email. */
  function DoctorByEmail(users: seq<ApplicationUser>, doctors: seq<Doctor>, email: string): (r: Option<nat>)
    requires KeysUnique(users, UserKey)
    ensures r.Some? ==> (r.value < |doctors| && exists u :: (0 <= u < |users|
      && users[u].id == doctors[r.value].applicationUserId && users[u].email == email))
    ensures r.None? ==> forall i, u :: (0 <= i < |doctors| && 0 <= u < |users|
      && users[u].id == doctors[i].applicationUserId) ==> users[u].email != email
  {
    var r := FirstIndex(doctors, (d: Doctor) =>
      match FindUserById(users, d.applicationUserId)
      case Some(u) => users[u].email == email
      case None => false);
    r
  }

  /** The listing's filter (search, sorting and paging aside): the doctor's appointments, and
      when a status is given only those whose status is exactly that string. */
  function MyAppointments(apps: seq<Appointment>, doctorId: int, statusFilter: string): (r: seq<Appointment>)
    ensures forall k :: 0 <= k < |r| ==>
      r[k] in apps && r[k].doctorId == doctorId && (statusFilter != "" ==> r[k].status == statusFilter)
    ensures forall k :: (0 <= k < |apps| && apps[k].doctorId == doctorId
      && (statusFilter == "" || apps[k].status == statusFilter)) ==> apps[k] in r
  {
    var mine := Where(apps, (a: Appointment) => a.doctorId == doctorId);
    if statusFilter == "" then mine else Where(mine, (a: Appointment) => a.status == statusFilter)
  }

  datatype ListOutcome = ListFailed(error: string) | Listing(rows: seq<Appointment>)

  /** GetMyAppointments (POST), with the status filter and without search, sorting and paging. */
  function GetMyAppointments(users: seq<ApplicationUser>, doctors: seq<Doctor>, apps: seq<Appointment>,
                             jwt: JwtUser, statusFilter: string): (r: ListOutcome)
    requires KeysUnique(users, UserKey)
    ensures r.Listing? ==> jwt.isAuthenticated && jwt.email != ""
    ensures r.Listing? ==> exists i :: (0 <= i < |doctors|
      && forall k :: 0 <= k < |r.rows| ==> r.rows[k] in apps && r.rows[k].doctorId == doctors[i].id)
    ensures r == ListFailed("User not authenticated") <==> !jwt.isAuthenticated || jwt.email == ""
    ensures r == ListFailed("Doctor profile not found") <==>
      jwt.isAuthenticated && jwt.email != "" && DoctorByEmail(users, doctors, jwt.email).None?
    ensures r.Listing? ==>
      && DoctorByEmail(users, doctors, jwt.email).Some?
      && r.rows == MyAppointments(apps, doctors[DoctorByEmail(users, doctors, jwt.email).value].id, statusFilter)
  {
    if !jwt.isAuthenticated || jwt.email == "" then ListFailed("User not authenticated")
    else match DoctorByEmail(users, doctors, jwt.email)
      case None => ListFailed("Doctor profile not found")
      case Some(i) => Listing(MyAppointments(apps, doctors[i].id, statusFilter))
  }

  datatype StatusOutcome = StatusFailed(message: string) | StatusUpdated

  /** `Appointments.FirstOrDefaultAsync(a => a.Id == id && a.DoctorId == doctorId)`. */
  function FindDoctorsAppointment(apps: seq<Appointment>, id: int, doctorId: int): Option<nat> {
    FirstIndex(apps, (a: Appointment) => a.id == id && a.doctorId == doctorId)
  }

  /** The lookups UpdateStatus makes before it writes: the caller, the caller's doctor row,
      and that doctor's appointment with the id; each failure carries its message. */
  function StatusTarget(users: seq<ApplicationUser>, doctors: seq<Doctor>, apps: seq<Appointment>,
                        jwt: JwtUser, id: int): (r: Result)
    requires KeysUnique(users, UserKey)
    ensures r.Found? ==> r.index < |apps|
  {
    if !jwt.isAuthenticated || jwt.email == "" then Failed("User not authenticated")
    else match DoctorByEmail(users, doctors, jwt.email)
      case None => Failed("Doctor profile not found")
      case Some(i) =>
        match FindDoctorsAppointment(apps, id, doctors[i].id)
        case None => Failed("Appointment not found")
        case Some(k) => Found(k)
  }

  /** What the lookups decide: an unauthenticated caller and a caller without a doctor row fail
      with their messages; a found row has the requested id and belongs to the caller's doctor;
      "Appointment not found" means the caller's doctor has no appointment with that id. */
  lemma StatusTargetMeaning(users: seq<ApplicationUser>, doctors: seq<Doctor>, apps: seq<Appointment>,
                            jwt: JwtUser, id: int)
    requires KeysUnique(users, UserKey)
    ensures var r := StatusTarget(users, doctors, apps, jwt, id);
      && (r == Failed("User not authenticated") <==> !jwt.isAuthenticated || jwt.email == "")
      && (r == Failed("Doctor profile not found") <==>
            jwt.isAuthenticated && jwt.email != "" && DoctorByEmail(users, doctors, jwt.email).None?)
      && (r.Found? ==> (
            && jwt.isAuthenticated && jwt.email != "" && DoctorByEmail(users, doctors, jwt.email).Some?
            && apps[r.index].id == id
            && apps[r.index].doctorId == doctors[DoctorByEmail(users, doctors, jwt.email).value].id))
      && (r == Failed("Appointment not found") ==> (
            && DoctorByEmail(users, doctors, jwt.email).Some?
            && forall k :: 0 <= k < |apps| && apps[k].id == id ==>
                 apps[k].doctorId != doctors[DoctorByEmail(users, doctors, jwt.email).value].id))
  {
  }

  /** UpdateStatus (POST): the calling doctor's appointment with that id gets exactly the
      posted status string, whatever it is; nothing else changes. */
  method UpdateStatus(db: ClinicDb, jwt: JwtUser, id: int, status: string) returns (r: StatusOutcome)
    requires db.Valid()
    modifies db
    ensures db.Valid()
    ensures db.nextDoctorId == old(db.nextDoctorId) && db.nextPatientId == old(db.nextPatientId)
    ensures db.doctors == old(db.doctors) && db.patients == old(db.patients) && db.users == old(db.users)
    ensures db.nextAppointmentId == old(db.nextAppointmentId)
    ensures match StatusTarget(old(db.users), old(db.doctors), old(db.appointments), jwt, id)
      case Failed(message) => r == StatusFailed(message) && db.appointments == old(db.appointments)
      case Found(k) =>
        r == StatusUpdated && db.appointments == old(db.appointments)[k := old(db.appointments)[k].(status := status)]
    ensures BookingInvariant(old(db.appointments)) ==> BookingInvariant(db.appointments)
  {
    var target := StatusTarget(db.users, db.doctors, db.appointments, jwt, id);
    if target.Failed? {
      return StatusFailed(target.message);
    }
    var k := target.index;
    var apps := db.appointments;
    var updated := apps[k].(status := status);
    ReplaceKeepsIdentityKeys(apps, AppointmentKey, db.nextAppointmentId, k, updated);
    if BookingInvariant(apps) {
      StatusChangePreservesBookingInvariant(apps, k, status);
    }
    db.appointments := apps[k := updated];
    r := StatusUpdated;
  }

  /** The booking checks never look at the status, so a status change keeps the invariant. */
  lemma StatusChangePreservesBookingInvariant(apps: seq<Appointment>, k: nat, status: string)
    requires k < |apps| && BookingInvariant(apps)
    ensures BookingInvariant(apps[k := apps[k].(status := status)])
  {
    var apps' := apps[k := apps[k].(status := status)];
    forall i | 0 <= i < |apps'|
      ensures DoctorAppointmentsOnDate(apps', apps'[i].doctorId, apps'[i].appointmentDate.Date())
              <= MaxAppointmentsPerDay
    {
      var d, day := apps'[i].doctorId, apps'[i].appointmentDate.Date();
      CountReplace(apps, k, apps'[k], (a: Appointment) => a.doctorId == d && a.appointmentDate.Date() == day);
    }
  }
}
