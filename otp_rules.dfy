/** The pure part of the OTP controller: its configuration (allowed domain, expiry) and
    the code generator. */
module OtpRules {
  import opened Wrappers
  import opened JsText
  import opened JsNumbers
  import opened Records

  /** `process.env.ALLOWED_EMAIL_DOMAIN || 'cu.edu.in'`. */
  const FALLBACK_DOMAIN: string := "cu.edu.in"
  /** The fallback of `parseInt(process.env.OTP_EXPIRY_MINUTES) || 10`. */
  const FALLBACK_EXPIRY_MINUTES: int := 10
  const LOWEST_CODE: int := 100000
  const HIGHEST_CODE: int := 999999

  function AllowedDomain(env: Env): string {
    OrDefault(env.allowedEmailDomain, FALLBACK_DOMAIN)
  }

  /** `parseInt(process.env.OTP_EXPIRY_MINUTES) || 10`: NaN and 0 both fall back to 10;
      any other integer prefix, negative ones included, is taken as it is. */
  function ExpiryMinutes(env: Env): (m: int)
    ensures m != 0
    ensures env.otpExpiryMinutes.None? ==> m == FALLBACK_EXPIRY_MINUTES
    ensures env.otpExpiryMinutes.Some?
            && (ParseInt(env.otpExpiryMinutes.value).None? || ParseInt(env.otpExpiryMinutes.value) == Some(0))
      ==> m == FALLBACK_EXPIRY_MINUTES
    ensures env.otpExpiryMinutes.Some? && ParseInt(env.otpExpiryMinutes.value).Some?
            && ParseInt(env.otpExpiryMinutes.value) != Some(0)
      ==> m == ParseInt(env.otpExpiryMinutes.value).value
  {
    var parsed := match env.otpExpiryMinutes
      case Some(s) => ParseInt(s)
      case None => None;
    if parsed.Some? && parsed.value != 0 then parsed.value else FALLBACK_EXPIRY_MINUTES
  }

  /** A non-zero number of minutes written out in the variable is the number used. */
  lemma ExpiryMinutesAsWritten(env: Env, n: int)
    requires n != 0 && env.otpExpiryMinutes == Some(IntString(n))
    ensures ExpiryMinutes(env) == n
  {
    IntStringRoundTrip(n);
  }

  /** A variable whose text, after its leading spaces and an optional sign, is empty
      or does not start with a decimal digit is read as NaN and gives the fallback. */
  lemma ExpiryMinutesOfNonNumbers(env: Env)
    requires env.otpExpiryMinutes.Some?
    requires var t := TrimStart(env.otpExpiryMinutes.value);
      var u := if t != [] && (t[0] == '+' || t[0] == '-') then t[1..] else t;
      u == [] || !IsDecimalDigit(u[0])
    ensures ExpiryMinutes(env) == FALLBACK_EXPIRY_MINUTES
  {
    var t := TrimStart(env.otpExpiryMinutes.value);
    var u := if t != [] && (t[0] == '+' || t[0] == '-') then t[1..] else t;
    if u != [] {
      assert !IsDigitIn(u[0], 10);
      assert DigitPrefix(u, 10) == [];
    }
  }

  /** Two such values: the empty string and a number written out in words. */
  lemma ExpiryMinutesOfEmptyAndWords(env: Env)
    requires env.otpExpiryMinutes == Some("") || env.otpExpiryMinutes == Some("ten")
    ensures ExpiryMinutes(env) == FALLBACK_EXPIRY_MINUTES
  {
    var s := env.otpExpiryMinutes.value;
    if s != "" {
      assert !IsJsSpace(s[0]);
      TrimStartOfTrimmed(s);
      assert s[0] == 't';
    }
    ExpiryMinutesOfNonNumbers(env);
  }

  /** The lifetime of a code, `OTP_EXPIRY_MINUTES * 60 * 1000` milliseconds. */
  function ExpiryMillis(env: Env): int {
    ExpiryMinutes(env) * 60 * 1000
  }

  /** What `generateOTP` can produce: six decimal digits, the first not a zero. */
  predicate IsOtpCode(code: string) {
    |code| == 6 && code[0] != '0' && forall k :: 0 <= k < |code| ==> IsDecimalDigit(code[k])
  }

  /** Every integer in [100000, 999999] is written with exactly six digits, and its
      string reads back as the same integer. */
  lemma CodeOfNumber(n: int)
    requires LOWEST_CODE <= n <= HIGHEST_CODE
    ensures IsOtpCode(DecimalString(n))
    ensures ParseInt(DecimalString(n)) == Some(n)
  {
    assert Pow10(5) == 100000 && Pow10(6) == 1000000;
    DecimalStringLength(n, 6);
    IntStringRoundTrip(n);
  }

  /** The message `sendOTP` hands to the mailer: the recipient and the code it carries. */
  datatype OtpMail = OtpMail(to: string, code: string)

  /** `generateOTP()`: `Math.floor(100000 + Math.random() * 900000).toString()`, with
      the random draw as a choice of any integer in [100000, 999999]. */
  method GenerateOtp() returns (code: string)
    ensures IsOtpCode(code)
    ensures ParseInt(code).Some? && LOWEST_CODE <= ParseInt(code).value <= HIGHEST_CODE
  {
    var n :| LOWEST_CODE <= n <= HIGHEST_CODE;
    CodeOfNumber(n);
    code := DecimalString(n);
  }
}
