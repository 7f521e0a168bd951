/** The administrator's doctor management: the specialty list, creating a doctor together
    with its identity user, editing, and deleting a doctor who has no appointments. */
module DoctorController {
  import opened Linq
  import opened Models
  import opened Data
  import opened RegisterViewModel

  /** Some doctor of the table has the specialty. */
  ghost predicate IsSpecialtyOf(doctors: seq<Doctor>, specialty: string) {
    exists i :: 0 <= i < |doctors| && doctors[i].specialistIn == specialty
  }

  /** `Where(d => !string.IsNullOrEmpty(d.SpecialistIn)).Select(d => d.SpecialistIn)`: the
      non-empty specialties in table order, repeats included. */
  function NamedSpecialties(doctors: seq<Doctor>): (r: seq<string>)
    ensures forall k :: 0 <= k < |r| ==> r[k] != "" && IsSpecialtyOf(doctors, r[k])
    ensures forall i :: 0 <= i < |doctors| && doctors[i].specialistIn != "" ==> doctors[i].specialistIn in r
  {
    if doctors == [] then []
    else
      var last := doctors[|doctors| - 1];
      var r := NamedSpecialties(doctors[..|doctors| - 1]) + (if last.specialistIn != "" then [last.specialistIn] else []);
      assert forall k :: 0 <= k < |r| ==> r[k] != "" && IsSpecialtyOf(doctors, r[k]) by {
        forall k | 0 <= k < |r| ensures r[k] != "" && IsSpecialtyOf(doctors, r[k]) {
          if k < |NamedSpecialties(doctors[..|doctors| - 1])| {
            var i :| 0 <= i < |doctors| - 1 && doctors[..|doctors| - 1][i].specialistIn == r[k];
            assert doctors[i].specialistIn == r[k];
          } else {
            assert doctors[|doctors| - 1].specialistIn == r[k];
          }
        }
      }
      assert forall i :: 0 <= i < |doctors| - 1 ==> doctors[i] == doctors[..|doctors| - 1][i];
      r
  }

  /** GetSpecialistList: the non-empty specialties of the doctors, each once, in order of
      first occurrence. */
  function SpecialistList(doctors: seq<Doctor>): (r: seq<string>)
    ensures NoDuplicates(r)
    ensures forall k :: 0 <= k < |r| ==> r[k] != "" && IsSpecialtyOf(doctors, r[k])
    ensures forall i :: 0 <= i < |doctors| && doctors[i].specialistIn != "" ==> doctors[i].specialistIn in r
  {
    var named := NamedSpecialties(doctors);
    var r := Distinct(named);
    assert forall k :: 0 <= k < |r| ==> r[k] in named;
    r
  }

  /** Every appointment names a doctor of the table: the storage-level restriction that the
      delete guard mirrors. */
  ghost predicate DoctorsReferenced(apps: seq<Appointment>, doctors: seq<Doctor>) {
    forall k :: 0 <= k < |apps| ==> HasDoctor(doctors, apps[k].doctorId)
  }

  ghost predicate HasDoctor(doctors: seq<Doctor>, doctorId: int) {
    exists i :: 0 <= i < |doctors| && doctors[i].id == doctorId
  }

  /** `Appointments.AnyAsync(a => a.DoctorId == doctorId)`. */
  predicate HasAppointments(apps: seq<Appointment>, doctorId: int) {
    exists m :: 0 <= m < |apps| && apps[m].doctorId == doctorId
  }

  /** The JSON result of the delete action. */
  datatype DeleteOutcome = DeleteFailed(message: string) | Deleted

  /** Delete (POST): refuse an unknown doctor and one with any appointment; otherwise remove
      the doctor and, when it exists, its identity user. */
  method Delete(db: ClinicDb, id: string) returns (r: DeleteOutcome)
    requires db.Valid()
    modifies db
    ensures db.Valid()
    ensures db.nextAppointmentId == old(db.nextAppointmentId) && db.nextPatientId == old(db.nextPatientId)
    ensures db.appointments == old(db.appointments) && db.patients == old(db.patients)
    ensures db.nextDoctorId == old(db.nextDoctorId)
    ensures match DoctorOfUser(old(db.doctors), id)
      case None => r == DeleteFailed("Doctor not found.") && unchanged(db)
      case Some(k) =>
        if HasAppointments(old(db.appointments), old(db.doctors)[k].id) then
          r == DeleteFailed("Doctor cannot be deleted because they have appointments booked.") && unchanged(db)
        else
          && r == Deleted
          && db.doctors == Without(old(db.doctors), k)
          && db.users == (match FindUserById(old(db.users), id)
                          case None => old(db.users)
                          case Some(u) => Without(old(db.users), u))
    ensures r.Deleted? ==> forall i :: 0 <= i < |db.doctors| ==> db.doctors[i].id != old(db.doctors)[DoctorOfUser(old(db.doctors), id).value].id
    ensures DoctorsReferenced(old(db.appointments), old(db.doctors)) ==> DoctorsReferenced(db.appointments, db.doctors)
  {
    var found := DoctorOfUser(db.doctors, id);
    if found.None? {
      return DeleteFailed("Doctor not found.");
    }
    var k := found.value;
    var doctorId := db.doctors[k].id;
    if HasAppointments(db.appointments, doctorId) {
      return DeleteFailed("Doctor cannot be deleted because they have appointments booked.");
    }
    RemoveDoctor(db, k, id);
    r := Deleted;
  }

  /** The write of Delete: the doctor at `k`, whom no appointment names, leaves the table with
      its identity user when there is one; no remaining doctor has its id. */
  method RemoveDoctor(db: ClinicDb, k: nat, userId: string)
    requires db.Valid() && k < |db.doctors| && !HasAppointments(db.appointments, db.doctors[k].id)
    modifies db
    ensures db.Valid()
    ensures db.nextAppointmentId == old(db.nextAppointmentId) && db.nextPatientId == old(db.nextPatientId)
    ensures db.appointments == old(db.appointments) && db.patients == old(db.patients)
    ensures db.nextDoctorId == old(db.nextDoctorId)
    ensures db.doctors == Without(old(db.doctors), k)
    ensures db.users == (match FindUserById(old(db.users), userId)
                         case None => old(db.users)
                         case Some(u) => Without(old(db.users), u))
    ensures forall i :: 0 <= i < |db.doctors| ==> db.doctors[i].id != old(db.doctors)[k].id
    ensures DoctorsReferenced(old(db.appointments), old(db.doctors)) ==> DoctorsReferenced(db.appointments, db.doctors)
  {
    var user := FindUserById(db.users, userId);
    if user.Some? {
      RemoveKeepsKeysUnique(db.users, UserKey, user.value);
      db.users := Without(db.users, user.value);
    }
    var doctors := db.doctors;
    RemoveKeepsIdentityKeys(doctors, DoctorKey, db.nextDoctorId, k);
    if DoctorsReferenced(db.appointments, doctors) {
      UnreferencedRemovalKeepsReferences(db.appointments, doctors, k);
    }
    db.doctors := Without(doctors, k);
  }

  /** Removing a doctor that no appointment names keeps every appointment's doctor in the
      table. */
  lemma UnreferencedRemovalKeepsReferences(apps: seq<Appointment>, doctors: seq<Doctor>, k: nat)
    requires k < |doctors| && DoctorsReferenced(apps, doctors)
    requires !HasAppointments(apps, doctors[k].id)
    ensures DoctorsReferenced(apps, Without(doctors, k))
  {
    var rest := Without(doctors, k);
    forall m | 0 <= m < |apps| ensures HasDoctor(rest, apps[m].doctorId) {
      var i :| 0 <= i < |doctors| && doctors[i].id == apps[m].doctorId;
      assert i != k;
      var j := if i < k then i else i - 1;
      assert rest[j] == doctors[i];
    }
  }

  /** The guard is needed: with unique doctor ids, removing a doctor that some appointment names
      leaves that appointment without its doctor. */
  lemma RemovingReferencedDoctorBreaksReferences(apps: seq<Appointment>, doctors: seq<Doctor>, k: nat)
    requires k < |doctors| && KeysUnique(doctors, DoctorKey)
    requires HasAppointments(apps, doctors[k].id)
    ensures !DoctorsReferenced(apps, Without(doctors, k))
  {
    RemoveKeepsKeysUnique(doctors, DoctorKey, k);
    var m :| 0 <= m < |apps| && apps[m].doctorId == doctors[k].id;
    var rest := Without(doctors, k);
    assert !HasDoctor(rest, apps[m].doctorId);
  }

  /** The doctor form as posted; on create `applicationUserId` is empty. */
  datatype DoctorForm = DoctorForm(
    applicationUserId: string,
    fullName: string,
    gender: string,
    email: string,
    password: string,
    specialistIn: string,
    status: bool)

  /** What the create and edit actions answer; `ServerError` is the null dereference of a
      doctor whose identity user is gone. */
  datatype SaveOutcome =
    | FormRedisplayed
    | SaveFailed(message: string)
    | IdentityFailed
    | NotFound
    | ServerError
    | Saved

  /** Create (POST). `modelValid` is the form's validation result, `createSucceeded` what
      `UserManager.CreateAsync` answered and `newUserId` the id it assigns. The new identity
      user is confirmed and in role Doctor; the doctor row takes the next identity number. */
  method Create(db: ClinicDb, form: DoctorForm, modelValid: bool, createSucceeded: bool, newUserId: string)
    returns (r: SaveOutcome)
    requires db.Valid()
    requires FindUserById(db.users, newUserId).None?
    modifies db
    ensures db.Valid()
    ensures db.nextAppointmentId == old(db.nextAppointmentId) && db.nextPatientId == old(db.nextPatientId)
    ensures db.appointments == old(db.appointments) && db.patients == old(db.patients)
    ensures if !modelValid then r == FormRedisplayed && unchanged(db)
      else if FindUserByEmail(old(db.users), form.email).Some? then
        r == SaveFailed("A doctor with this email already exists.") && unchanged(db)
      else if !createSucceeded then r == IdentityFailed && unchanged(db)
      else
        && r == Saved
        && db.users == old(db.users) + [ApplicationUser(newUserId, form.email, form.fullName, form.gender, true, {"Doctor"})]
        && db.doctors == old(db.doctors) + [Doctor(old(db.nextDoctorId), newUserId, form.specialistIn, form.status)]
        && db.nextDoctorId == old(db.nextDoctorId) + 1
    ensures KeysUnique(old(db.users), EmailKey) ==> KeysUnique(db.users, EmailKey)
  {
    if !modelValid {
      return FormRedisplayed;
    }
    if FindUserByEmail(db.users, form.email).Some? {
      return SaveFailed("A doctor with this email already exists.");
    }
    if !createSucceeded {
      return IdentityFailed;
    }
    var user := ApplicationUser(newUserId, form.email, form.fullName, form.gender, true, {"Doctor"});
    AppendKeepsKeysUnique(db.users, UserKey, user);
    if KeysUnique(db.users, EmailKey) {
      AppendKeepsKeysUnique(db.users, EmailKey, user);
    }
    var doctor := Doctor(db.nextDoctorId, newUserId, form.specialistIn, form.status);
    InsertKeepsIdentityKeys(db.doctors, DoctorKey, db.nextDoctorId, doctor);
    db.users := db.users + [user];
    db.doctors := db.doctors + [doctor];
    db.nextDoctorId := db.nextDoctorId + 1;
    r := Saved;
  }

  /** Edit (POST), for a form naming an existing doctor's user. The user's name and gender are
      saved first (`updateSucceeded`); a non-blank password is then reset (`resetSucceeded`),
      and only after that do the specialty and the active flag change. The email never
      changes. */
  method Edit(db: ClinicDb, form: DoctorForm, modelValid: bool, updateSucceeded: bool, resetSucceeded: bool)
    returns (r: SaveOutcome)
    requires db.Valid()
    modifies db
    ensures db.Valid()
    ensures db.nextAppointmentId == old(db.nextAppointmentId) && db.nextPatientId == old(db.nextPatientId)
    ensures db.appointments == old(db.appointments) && db.patients == old(db.patients)
    ensures db.nextDoctorId == old(db.nextDoctorId) && |db.doctors| == |old(db.doctors)|
    ensures |db.users| == |old(db.users)|
    ensures forall u :: 0 <= u < |db.users| ==>
      db.users[u].id == old(db.users)[u].id && db.users[u].email == old(db.users)[u].email
    ensures if !modelValid then r == FormRedisplayed && unchanged(db)
      else match DoctorOfUser(old(db.doctors), form.applicationUserId)
        case None => r == NotFound && unchanged(db)
        case Some(k) =>
          match FindUserById(old(db.users), form.applicationUserId)
          case None => r == ServerError && unchanged(db)
          case Some(u) =>
            if !updateSucceeded then r == IdentityFailed && unchanged(db)
            else
              && db.users == old(db.users)[u := old(db.users)[u].(fullName := form.fullName, gender := form.gender)]
              && if !IsNullOrWhiteSpace(form.password) && !resetSucceeded then
                   r == IdentityFailed && db.doctors == old(db.doctors)
                 else
                   && r == Saved
                   && db.doctors == old(db.doctors)[k := old(db.doctors)[k].(specialistIn := form.specialistIn, status := form.status)]
  {
    if !modelValid {
      return FormRedisplayed;
    }
    var found := DoctorOfUser(db.doctors, form.applicationUserId);
    if found.None? {
      return NotFound;
    }
    var k := found.value;
    var user := FindUserById(db.users, form.applicationUserId);
    if user.None? {
      return ServerError;
    }
    if !updateSucceeded {
      return IdentityFailed;
    }
    var u := user.value;
    var renamed := db.users[u].(fullName := form.fullName, gender := form.gender);
    ReplaceKeepsKeysUnique(db.users, UserKey, u, renamed);
    db.users := db.users[u := renamed];
    if !IsNullOrWhiteSpace(form.password) && !resetSucceeded {
      return IdentityFailed;
    }
    var doctor := db.doctors[k].(specialistIn := form.specialistIn, status := form.status);
    ReplaceKeepsIdentityKeys(db.doctors, DoctorKey, db.nextDoctorId, k, doctor);
    db.doctors := db.doctors[k := doctor];
    r := Saved;
  }
}
