/** The rows of the three tables, the process environment the controllers read, and the
    HTTP replies they send. */
module Records {
  import opened Wrappers
  import opened JsValues

  /** The single `event` row. `date` is stored as the request gave it. */
  datatype Event = Event(
    id: nat,
    title: string,
    description: Option<string>,
    date: Json,
    time: Option<string>,
    venue: string,
    totalSeats: int,
    bookedSeats: int)

  /** A `registrations` row; `createdAt` is the store's insertion time, in milliseconds. */
  datatype Registration = Registration(
    id: nat,
    name: string,
    email: string,
    phone: string,
    course: Option<string>,
    createdAt: int)

  /** An `otp_verifications` row; `expiresAt` is in milliseconds. */
  datatype OtpRow = OtpRow(id: nat, email: string, otp: string, expiresAt: int)

  /** The columns the controllers filter on, as key functions for the table primitives. */
  function RegistrationId(r: Registration): nat { r.id }
  function RegistrationEmail(r: Registration): string { r.email }
  function RegistrationCreatedAt(r: Registration): int { r.createdAt }
  function OtpId(o: OtpRow): nat { o.id }
  function OtpEmail(o: OtpRow): string { o.email }
  function OtpEmailAndCode(o: OtpRow): (string, string) { (o.email, o.otp) }

  /** The environment variables, each unset (None) or set to a string. */
  datatype Env = Env(
    allowedEmailDomain: Option<string>,
    otpExpiryMinutes: Option<string>,
    adminSecretKey: Option<string>)

  /** `process.env.NAME || fallback`: an unset or empty variable gives the fallback. */
  function OrDefault(setting: Option<string>, fallback: string): (r: string)
    ensures setting.Some? && setting.value != "" ==> r == setting.value
    ensures setting.None? || setting.value == "" ==> r == fallback
  {
    match setting
    case Some(v) => if v != "" then v else fallback
    case None => fallback
  }

  /** The result of a check: the value it lets through, or the error it answers with. */
  datatype Checked<+T> = Passed(value: T) | Refused(error: ErrorKind)

  /** The error replies the handlers send, one per message text family. */
  datatype ErrorKind =
    | MissingFields         // "... required"
    | InvalidDomain         // "Only university emails (@domain) are allowed"
    | InvalidPhone          // "Invalid phone number"
    | InvalidOtp            // "Invalid OTP. Please try again."
    | OtpExpired            // "OTP has expired. ..."
    | OtpNotVerified        // "OTP not verified. ..."
    | AlreadyRegistered     // "... already registered ..."
    | EventFull             // "Event is full. No seats available."
    | EventNotFound         // "Event not found"
    | RegistrationNotFound  // "Registration not found"
    | InvalidTotalSeats     // "total_seats must be a positive number"
    | SeatsBelowBooked      // "Cannot set total seats (...) below already booked seats (...)"
    | InvalidPassword       // "Invalid admin password"
    | AdminNotConfigured    // "Admin not configured on server"
    | ServerError           // the catch block of a handler

  /** The status code each error is sent with. */
  function StatusOf(e: ErrorKind): int {
    match e
    case AlreadyRegistered => 409
    case EventFull => 409
    case EventNotFound => 404
    case RegistrationNotFound => 404
    case InvalidPassword => 401
    case AdminNotConfigured => 500
    case ServerError => 500
    case _ => 400
  }

  /** A reply: its status code, and the error it reports (None on success). */
  datatype Response = Response(status: int, error: Option<ErrorKind>)

  function Fail(e: ErrorKind): Response {
    Response(StatusOf(e), Some(e))
  }

  const OK: Response := Response(200, None)
  const CREATED: Response := Response(201, None)
}
