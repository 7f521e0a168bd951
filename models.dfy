/** The entities of the clinic: appointments, doctors, patients, identity users and the
    date-time values the booking rules compare. */
module Models {

  /** A .NET `DateTime` to the minute: `day` counts days since 0001-01-01 (day 0, a Monday). */
  datatype DateTime = DateTime(day: int, hour: int, minute: int) {

    /** `DateTime.Date`: the calendar day, time of day dropped. */
    function Date(): int { day }

    /** `this < other` on instants. */
    predicate Before(other: DateTime) {
      day < other.day
      || (day == other.day && hour < other.hour)
      || (day == other.day && hour == other.hour && minute < other.minute)
    }
  }

  /** .NET `DayOfWeek` numbering. */
  const Sunday: int := 0
  const Monday: int := 1
  const Tuesday: int := 2

  /** `DateTime.DayOfWeek` of a day number. */
  function DayOfWeek(day: int): (w: int)
    ensures 0 <= w < 7
    ensures day == 0 ==> w == Monday
  {
    (day + 1) % 7
  }

  /** A row of the Appointments table. */
  datatype Appointment = Appointment(
    id: int,
    patientId: int,
    doctorId: int,
    appointmentDate: DateTime,
    description: string,
    status: string)

  /** A row of the Doctors table; `status` is the active flag. */
  datatype Doctor = Doctor(id: int, applicationUserId: string, specialistIn: string, status: bool)

  /** A row of the Patients table; `joinDate` is a day number, `status` the active flag. */
  datatype Patient = Patient(id: int, applicationUserId: string, joinDate: int, status: bool)

  /** An identity user with the roles it has been added to. */
  datatype ApplicationUser = ApplicationUser(
    id: string,
    email: string,
    fullName: string,
    gender: string,
    emailConfirmed: bool,
    roles: set<string>)

  /** What the JWT cookie of a request says about the caller. */
  datatype JwtUser = JwtUser(isAuthenticated: bool, email: string, userId: string)

  const PendingStatus: string := "Pending"
}
