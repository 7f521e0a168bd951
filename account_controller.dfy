/** Registration, sign-in and the email-change request. The identity store's answers
    (password check, user creation) are inputs; tokens, cookies and mail are not modelled. */
module AccountController {
  import opened Linq
  import opened Models
  import opened Data
  import opened RegisterViewModel

  const InvalidLoginMessage: string := "Invalid login attempt."
  const UnconfirmedMessage: string := "You need to confirm your email before logging in."
  const NotEligibleMessage: string := "You are not eligible to login. Please contact the administrator."

  /** What the login action answers: the form again with a model error, the form again with
      the not-eligible notice, or a redirect to a controller's index. */
  datatype LoginOutcome =
    | LoginFormRedisplayed
    | LoginRejected(message: string)
    | NotEligible(notice: string)
    | SignedIn(controller: string)

  /** The user's patient row (the first one) exists and is inactive. */
  predicate PatientInactive(patients: seq<Patient>, userId: string) {
    match PatientOfUser(patients, userId)
    case None => false
    case Some(p) => !patients[p].status
  }

  /** The user's doctor row (the first one) exists and is inactive. */
  predicate DoctorInactive(doctors: seq<Doctor>, userId: string) {
    match DoctorOfUser(doctors, userId)
    case None => false
    case Some(d) => !doctors[d].status
  }

  /** The landing page after sign-in, by role priority Admin, Patient, Doctor. */
  function RedirectFor(roles: set<string>): (controller: string)
    ensures "Admin" in roles ==> controller == "Patient"
    ensures "Admin" !in roles && "Patient" in roles ==> controller == "Appointment"
    ensures "Admin" !in roles && "Patient" !in roles && "Doctor" in roles ==> controller == "DoctorAppointment"
    ensures controller == "Home" <==> "Admin" !in roles && "Patient" !in roles && "Doctor" !in roles
  {
    if "Admin" in roles then "Patient"
    else if "Patient" in roles then "Appointment"
    else if "Doctor" in roles then "DoctorAppointment"
    else "Home"
  }

  /** Login (POST). `passwordMatches` is the identity store's password check for the user
      found by email. */
  function Login(users: seq<ApplicationUser>, patients: seq<Patient>, doctors: seq<Doctor>,
                 modelValid: bool, email: string, passwordMatches: bool): (r: LoginOutcome)
    ensures r.SignedIn? <==>
      && modelValid
      && FindUserByEmail(users, email).Some?
      && var u := users[FindUserByEmail(users, email).value];
      && u.emailConfirmed
      && !PatientInactive(patients, u.id) && !DoctorInactive(doctors, u.id)
      && passwordMatches
    ensures r.SignedIn? ==> r.controller == RedirectFor(users[FindUserByEmail(users, email).value].roles)
    ensures r.NotEligible? ==> r.notice == NotEligibleMessage
    ensures r.LoginRejected? ==> r.message in {InvalidLoginMessage, UnconfirmedMessage}
    ensures r == LoginFormRedisplayed <==> !modelValid
    ensures modelValid && FindUserByEmail(users, email).None? ==> r == LoginRejected(InvalidLoginMessage)
  {
    if !modelValid then LoginFormRedisplayed
    else match FindUserByEmail(users, email)
      case None => LoginRejected(InvalidLoginMessage)
      case Some(i) =>
        var user := users[i];
        if !user.emailConfirmed then LoginRejected(UnconfirmedMessage)
        else if PatientInactive(patients, user.id) then NotEligible(NotEligibleMessage)
        else if DoctorInactive(doctors, user.id) then NotEligible(NotEligibleMessage)
        else if !passwordMatches then LoginRejected(InvalidLoginMessage)
        else SignedIn(RedirectFor(user.roles))
  }

  /** An inactive patient or doctor is turned away before the password is looked at: the
      outcome is the same whether or not the password matches. */
  lemma InactiveRejectedWhateverPassword(users: seq<ApplicationUser>, patients: seq<Patient>,
                                         doctors: seq<Doctor>, email: string, i: nat)
    requires FindUserByEmail(users, email) == Some(i) && users[i].emailConfirmed
    requires PatientInactive(patients, users[i].id) || DoctorInactive(doctors, users[i].id)
    ensures Login(users, patients, doctors, true, email, true) == NotEligible(NotEligibleMessage)
    ensures Login(users, patients, doctors, true, email, false) == NotEligible(NotEligibleMessage)
  {
  }

  /** An unconfirmed email is refused before the password is looked at. */
  lemma UnconfirmedRejectedBeforePassword(users: seq<ApplicationUser>, patients: seq<Patient>,
                                          doctors: seq<Doctor>, email: string, i: nat, passwordMatches: bool)
    requires FindUserByEmail(users, email) == Some(i) && !users[i].emailConfirmed
    ensures Login(users, patients, doctors, true, email, passwordMatches) == LoginRejected(UnconfirmedMessage)
  {
  }

  /** A wrong password for an eligible user and an email nobody has are answered alike, so the
      answer does not reveal which emails are registered. */
  lemma WrongPasswordLooksLikeUnknownEmail(users: seq<ApplicationUser>, patients: seq<Patient>,
                                           doctors: seq<Doctor>, known: string, unknown: string, i: nat)
    requires FindUserByEmail(users, known) == Some(i) && users[i].emailConfirmed
    requires !PatientInactive(patients, users[i].id) && !DoctorInactive(doctors, users[i].id)
    requires FindUserByEmail(users, unknown).None?
    ensures Login(users, patients, doctors, true, known, false) == Login(users, patients, doctors, true, unknown, true)
    ensures Login(users, patients, doctors, true, unknown, true) == LoginRejected(InvalidLoginMessage)
  {
  }

  /** What the register action answers. */
  datatype RegisterOutcome =
    | RegisterFormRedisplayed
    | EmailTaken(message: string)
    | IdentityErrors
    | RegistrationConfirmation

  /** Register (POST). `createSucceeded` is what `UserManager.CreateAsync` answered and
      `newUserId` the id it assigns. The new user's email is not yet confirmed and it is in
      role Patient; the patient row is active and takes the next identity number. */
  method Register(db: ClinicDb, form: RegisterForm, createSucceeded: bool, newUserId: string)
    returns (r: RegisterOutcome)
    requires db.Valid()
    requires FindUserById(db.users, newUserId).None?
    modifies db
    ensures db.Valid()
    ensures db.nextAppointmentId == old(db.nextAppointmentId) && db.nextDoctorId == old(db.nextDoctorId)
    ensures db.appointments == old(db.appointments) && db.doctors == old(db.doctors)
    ensures if !FormValid(form) then r == RegisterFormRedisplayed && unchanged(db)
      else if FindUserByEmail(old(db.users), form.email).Some? then
        r == EmailTaken("An account with this email already exists.") && unchanged(db)
      else if !createSucceeded then r == IdentityErrors && unchanged(db)
      else
        && r == RegistrationConfirmation
        && db.users == old(db.users) + [ApplicationUser(newUserId, form.email, form.fullName, form.gender, false, {"Patient"})]
        && db.patients == old(db.patients) + [Patient(old(db.nextPatientId), newUserId, form.joinDate.value, true)]
        && db.nextPatientId == old(db.nextPatientId) + 1
    ensures KeysUnique(old(db.users), EmailKey) ==> KeysUnique(db.users, EmailKey)
  {
    if !FormValid(form) {
      return RegisterFormRedisplayed;
    }
    if FindUserByEmail(db.users, form.email).Some? {
      return EmailTaken("An account with this email already exists.");
    }
    if !createSucceeded {
      return IdentityErrors;
    }
    var user := ApplicationUser(newUserId, form.email, form.fullName, form.gender, false, {"Patient"});
    AppendKeepsKeysUnique(db.users, UserKey, user);
    if KeysUnique(db.users, EmailKey) {
      AppendKeepsKeysUnique(db.users, EmailKey, user);
    }
    var patient := Patient(db.nextPatientId, newUserId, form.joinDate.value, true);
    InsertKeepsIdentityKeys(db.patients, PatientKey, db.nextPatientId, patient);
    db.users := db.users + [user];
    db.patients := db.patients + [patient];
    db.nextPatientId := db.nextPatientId + 1;
    r := RegistrationConfirmation;
  }

  /** A freshly registered user, found by the email no one else had, cannot sign in until the
      email is confirmed, whatever the password. */
  lemma RegisteredUserMustConfirm(users: seq<ApplicationUser>, patients: seq<Patient>, doctors: seq<Doctor>,
                                  user: ApplicationUser, passwordMatches: bool)
    requires FindUserByEmail(users, user.email).None? && !user.emailConfirmed
    ensures Login(users + [user], patients, doctors, true, user.email, passwordMatches)
            == LoginRejected(UnconfirmedMessage)
  {
    FirstIndexAppend(users, user, (u: ApplicationUser) => u.email == user.email);
  }

  /** A doctor created inactive, under a user id no doctor had, is turned away at login
      whatever the password. */
  lemma InactiveNewDoctorCannotSignIn(users: seq<ApplicationUser>, patients: seq<Patient>, doctors: seq<Doctor>,
                                      user: ApplicationUser, doctor: Doctor, passwordMatches: bool)
    requires FindUserByEmail(users, user.email).None? && DoctorOfUser(doctors, user.id).None?
    requires user.emailConfirmed && doctor.applicationUserId == user.id && !doctor.status
    ensures Login(users + [user], patients, doctors + [doctor], true, user.email, passwordMatches)
            == NotEligible(NotEligibleMessage)
  {
    FirstIndexAppend(users, user, (u: ApplicationUser) => u.email == user.email);
    FirstIndexAppend(doctors, doctor, (d: Doctor) => d.applicationUserId == user.id);
  }

  /** What the change-email action answers; it changes nothing itself, the change waits for
      the confirmation link. */
  datatype ChangeEmailOutcome =
    | ChangeEmailFormRedisplayed
    | RedirectToLogin
    | SameEmailRejected(message: string)
    | ConfirmationSent(to: string)

  /** ChangeEmail (POST): a valid new email for the signed-in user, different from the current
      one, gets a confirmation link. */
  function ChangeEmail(users: seq<ApplicationUser>, jwt: JwtUser, newEmail: string): (r: ChangeEmailOutcome)
    ensures r.ConfirmationSent? ==>
      && r.to == newEmail && EmailFieldValid(newEmail) && jwt.isAuthenticated
      && FindUserById(users, jwt.userId).Some?
      && users[FindUserById(users, jwt.userId).value].email != newEmail
    ensures r.SameEmailRejected? <==>
      && EmailFieldValid(newEmail) && jwt.isAuthenticated
      && FindUserById(users, jwt.userId).Some?
      && users[FindUserById(users, jwt.userId).value].email == newEmail
    ensures r == RedirectToLogin <==>
      EmailFieldValid(newEmail) && (!jwt.isAuthenticated || FindUserById(users, jwt.userId).None?)
    ensures r == ChangeEmailFormRedisplayed <==> !EmailFieldValid(newEmail)
  {
    if !EmailFieldValid(newEmail) then ChangeEmailFormRedisplayed
    else if !jwt.isAuthenticated then RedirectToLogin
    else match FindUserById(users, jwt.userId)
      case None => RedirectToLogin
      case Some(i) =>
        if newEmail == users[i].email then SameEmailRejected("The new email must be different from the current one.")
        else ConfirmationSent(newEmail)
  }
}
