/** The administrator's patient edit: of the posted patient form only the active flag is
    stored. */
module PatientController {
  import opened Models
  import opened Data

  /** The patient form as posted. */
  datatype PatientForm = PatientForm(id: int, fullName: string, gender: string, joinDate: int, status: bool)

  datatype EditOutcome = FormRedisplayed | NotFound | Saved

  /** Edit (POST): with a valid form, the patient with the posted id gets the posted active
      flag; the posted name, gender and join date are ignored and no other row changes. */
  method Edit(db: ClinicDb, form: PatientForm, modelValid: bool) returns (r: EditOutcome)
    requires db.Valid()
    modifies db
    ensures db.Valid()
    ensures db.nextAppointmentId == old(db.nextAppointmentId) && db.nextDoctorId == old(db.nextDoctorId)
    ensures db.appointments == old(db.appointments) && db.doctors == old(db.doctors) && db.users == old(db.users)
    ensures db.nextPatientId == old(db.nextPatientId) && |db.patients| == |old(db.patients)|
    ensures forall i :: 0 <= i < |db.patients| ==>
      && db.patients[i].id == old(db.patients)[i].id
      && db.patients[i].applicationUserId == old(db.patients)[i].applicationUserId
      && db.patients[i].joinDate == old(db.patients)[i].joinDate
    ensures if !modelValid then r == FormRedisplayed && unchanged(db)
      else match FindPatient(old(db.patients), form.id)
        case None => r == NotFound && unchanged(db)
        case Some(k) =>
          && r == Saved
          && db.patients[k].status == form.status
          && forall i :: 0 <= i < |db.patients| && i != k ==> db.patients[i] == old(db.patients)[i]
  {
    if !modelValid {
      return FormRedisplayed;
    }
    var found := FindPatient(db.patients, form.id);
    if found.None? {
      return NotFound;
    }
    var k := found.value;
    var patient := db.patients[k].(status := form.status);
    ReplaceKeepsIdentityKeys(db.patients, PatientKey, db.nextPatientId, k, patient);
    db.patients := db.patients[k := patient];
    r := Saved;
  }
}
