/** The application's database context: the Appointments, Doctors and Patients tables and
    the identity users, each a sequence of rows in storage order, plus the identity counters
    the database uses to number new rows. */
module Data {
  import opened Linq
  import opened Models

  /** No two rows of `s` share a primary key. */
  predicate KeysUnique<T, K(==)>(s: seq<T>, key: T -> K) {
    forall i, j :: 0 <= i < j < |s| ==> key(s[i]) != key(s[j])
  }

  /** Unique integer keys, all below the next key the identity column hands out. */
  predicate IdentityKeys<T>(s: seq<T>, key: T -> int, next: int) {
    KeysUnique(s, key) && forall i :: 0 <= i < |s| ==> key(s[i]) < next
  }

  function AppointmentKey(a: Appointment): int { a.id }
  function DoctorKey(d: Doctor): int { d.id }
  function PatientKey(p: Patient): int { p.id }
  function UserKey(u: ApplicationUser): string { u.id }
  function EmailKey(u: ApplicationUser): string { u.email }

  /** Inserting a row numbered by the identity column keeps the keys valid. */
  lemma InsertKeepsIdentityKeys<T>(s: seq<T>, key: T -> int, next: int, x: T)
    requires IdentityKeys(s, key, next) && key(x) == next
    ensures IdentityKeys(s + [x], key, next + 1)
  {
    forall i, j | 0 <= i < j < |s + [x]| ensures key((s + [x])[i]) != key((s + [x])[j]) {
      if j == |s| {
        assert key((s + [x])[i]) < next;
      }
    }
  }

  /** Appending a row whose key is new keeps the keys unique. */
  lemma AppendKeepsKeysUnique<T, K>(s: seq<T>, key: T -> K, x: T)
    requires KeysUnique(s, key) && forall i :: 0 <= i < |s| ==> key(s[i]) != key(x)
    ensures KeysUnique(s + [x], key)
  {
    forall i, j | 0 <= i < j < |s + [x]| ensures key((s + [x])[i]) != key((s + [x])[j]) {
      if j == |s| {
        assert (s + [x])[i] == s[i];
      }
    }
  }

  /** Removing a row keeps the keys unique, and its key is then in no other row. */
  lemma RemoveKeepsKeysUnique<T, K>(s: seq<T>, key: T -> K, k: nat)
    requires k < |s| && KeysUnique(s, key)
    ensures KeysUnique(Without(s, k), key)
    ensures forall i :: 0 <= i < |Without(s, k)| ==> key(Without(s, k)[i]) != key(s[k])
  {
    var s' := Without(s, k);
    forall i, j | 0 <= i < j < |s'| ensures key(s'[i]) != key(s'[j]) {
      assert s'[i] == s[if i < k then i else i + 1] && s'[j] == s[if j < k then j else j + 1];
    }
    forall i | 0 <= i < |s'| ensures key(s'[i]) != key(s[k]) {
      assert s'[i] == s[if i < k then i else i + 1];
    }
  }

  lemma RemoveKeepsIdentityKeys<T>(s: seq<T>, key: T -> int, next: int, k: nat)
    requires k < |s| && IdentityKeys(s, key, next)
    ensures IdentityKeys(Without(s, k), key, next)
    ensures forall i :: 0 <= i < |Without(s, k)| ==> key(Without(s, k)[i]) != key(s[k])
  {
    RemoveKeepsKeysUnique(s, key, k);
  }

  /** Replacing a row by one with the same key keeps the keys valid. */
  lemma ReplaceKeepsKeysUnique<T, K>(s: seq<T>, key: T -> K, k: nat, x: T)
    requires k < |s| && KeysUnique(s, key) && key(x) == key(s[k])
    ensures KeysUnique(s[k := x], key)
  {
  }

  lemma ReplaceKeepsIdentityKeys<T>(s: seq<T>, key: T -> int, next: int, k: nat, x: T)
    requires k < |s| && IdentityKeys(s, key, next) && key(x) == key(s[k])
    ensures IdentityKeys(s[k := x], key, next)
  {
  }

  class ClinicDb {
    var appointments: seq<Appointment>
    var doctors: seq<Doctor>
    var patients: seq<Patient>
    var users: seq<ApplicationUser>
    var nextAppointmentId: int
    var nextDoctorId: int
    var nextPatientId: int

    /** Primary keys are unique and every key is below the next one the database hands out. */
    ghost predicate Valid()
      reads this
    {
      && IdentityKeys(appointments, AppointmentKey, nextAppointmentId)
      && IdentityKeys(doctors, DoctorKey, nextDoctorId)
      && IdentityKeys(patients, PatientKey, nextPatientId)
      && KeysUnique(users, UserKey)
    }

    constructor ()
      ensures Valid()
      ensures appointments == [] && doctors == [] && patients == [] && users == []
    {
      appointments, doctors, patients, users := [], [], [], [];
      nextAppointmentId, nextDoctorId, nextPatientId := 1, 1, 1;
    }
  }

  /** The lookups an action makes before it writes: either a failure with the message the
      action answers, or the index of the row it goes on to change. */
  datatype Result = Failed(message: string) | Found(index: nat)

  /** `UserManager.FindByEmailAsync`. */
  function FindUserByEmail(users: seq<ApplicationUser>, email: string): Option<nat> {
    FirstIndex(users, (u: ApplicationUser) => u.email == email)
  }

  /** `UserManager.FindByIdAsync`. */
  function FindUserById(users: seq<ApplicationUser>, id: string): Option<nat> {
    FirstIndex(users, (u: ApplicationUser) => u.id == id)
  }

  /** `Patients.FirstOrDefaultAsync(p => p.ApplicationUserId == userId)`. */
  function PatientOfUser(patients: seq<Patient>, userId: string): Option<nat> {
    FirstIndex(patients, (p: Patient) => p.applicationUserId == userId)
  }

  /** `Doctors.FirstOrDefaultAsync(d => d.ApplicationUserId == userId)`. */
  function DoctorOfUser(doctors: seq<Doctor>, userId: string): Option<nat> {
    FirstIndex(doctors, (d: Doctor) => d.applicationUserId == userId)
  }

  /** `Appointments.FindAsync(id)`. */
  function FindAppointment(appointments: seq<Appointment>, id: int): Option<nat> {
    FirstIndex(appointments, (a: Appointment) => a.id == id)
  }

  /** `Patients.FirstOrDefaultAsync(p => p.Id == id)`. */
  function FindPatient(patients: seq<Patient>, id: int): Option<nat> {
    FirstIndex(patients, (p: Patient) => p.id == id)
  }

  /** A table with the row at `i` removed, the others in order. */
  function Without<T>(s: seq<T>, i: nat): (r: seq<T>)
    requires i < |s|
    ensures |r| == |s| - 1
    ensures forall k :: 0 <= k < i ==> r[k] == s[k]
    ensures forall k :: i <= k < |r| ==> r[k] == s[k + 1]
  {
    s[..i] + s[i + 1..]
  }
}
