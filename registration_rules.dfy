/** The pure checks of the registration controller: required fields, allowed domain,
    phone digits and the optional course. */
module RegistrationRules {
  import opened Wrappers
  import opened JsText
  import opened JsValues
  import opened Records
  import opened Emails

  /** `process.env.ALLOWED_EMAIL_DOMAIN || 'cuchd.in'`: not the OTP controller's fallback. */
  const FALLBACK_DOMAIN: string := "cuchd.in"
  const MIN_PHONE_DIGITS: int := 10

  function AllowedDomain(env: Env): string {
    OrDefault(env.allowedEmailDomain, FALLBACK_DOMAIN)
  }

  /** The body of `POST /register`. */
  datatype RegisterRequest = RegisterRequest(name: Json, email: Json, phone: Json, course: Json, otp: Json)

  /** `!name || !email || !phone || !otp`. */
  predicate LacksField(req: RegisterRequest) {
    !Truthy(req.name) || !Truthy(req.email) || !Truthy(req.phone) || !Truthy(req.otp)
  }

  /** The request passes the field and domain checks (lines 185-197); `email.trim()`
      on a truthy non-string throws instead. */
  predicate EmailPassed(req: RegisterRequest, allowed: string) {
    !LacksField(req) && req.email.Str? && DomainAccepted(Normalize(req.email.s), allowed)
  }

  /** ... and the phone check (lines 199-203); `phone.replace` on a non-string throws. */
  predicate FormPassed(req: RegisterRequest, allowed: string) {
    EmailPassed(req, allowed) && req.phone.Str? && PhoneAccepted(req.phone.s)
  }

  /** A phone number as stored: only digits, and at least ten of them. */
  predicate IsStoredPhone(p: string) {
    |p| >= MIN_PHONE_DIGITS && forall k :: 0 <= k < |p| ==> IsDecimalDigit(p[k])
  }

  /** `phone.replace(/\D/g, '').length >= 10`. */
  predicate PhoneAccepted(phone: string) {
    |DigitsOf(phone)| >= MIN_PHONE_DIGITS
  }

  /** An accepted phone number yields a storable one, and the check is decided by the
      digits alone: punctuation and spaces neither help nor hurt. */
  lemma PhoneCheckUsesDigits(phone: string)
    ensures PhoneAccepted(phone) <==> IsStoredPhone(DigitsOf(phone))
    ensures PhoneAccepted(phone) <==> PhoneAccepted(DigitsOf(phone))
  {
    DigitsOfDigits(DigitsOf(phone));
  }

  /** `course ? course.trim() : null`: a falsy course is stored as null, a string one
      trimmed (a blank one becomes ""), and any other value throws. */
  function CourseValue(course: Json): (r: Eval<Option<string>>)
    ensures !Truthy(course) ==> r == Value(None)
    ensures Truthy(course) && course.Str? ==> r == Value(Some(Trim(course.s)))
    ensures r.TypeError? <==> Truthy(course) && !course.Str?
  {
    if !Truthy(course) then Value(None)
    else if course.Str? then Value(Some(Trim(course.s)))
    else TypeError
  }
}
