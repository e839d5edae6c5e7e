/** Sequences of requests the backend is meant to handle in a given way, stated over any
    store and any request: a code is issued and then accepted until it expires, a
    verified code stays verified, an expired code is gone, a used code cannot register
    twice, the last seat goes to one student only, and a deleted registration cannot be
    deleted again. */
module Scenarios {
  import opened Wrappers
  import opened JsText
  import opened JsValues
  import opened Records
  import opened Tables
  import opened Emails
  import OtpRules
  import RegistrationRules
  import opened Backend

  /** A mailed code typed back is its own trim. */
  lemma CodeAsTyped(code: string)
    requires OtpRules.IsOtpCode(code)
    ensures Trim(code) == code
  {
    assert IsTrimmed(code) by {
      assert IsDecimalDigit(code[0]) && IsDecimalDigit(code[5]);
    }
    TrimOfTrimmed(code);
  }

  /** A mailed code is not empty, and looking it up by its trimmed form, as the
      handlers do, finds the same row as looking it up as sent. */
  lemma CodeTypedBack(otps: seq<OtpRow>, e: string, code: string)
    requires OtpRules.IsOtpCode(code)
    ensures code != ""
    ensures Lookup(otps, OtpEmailAndCode, (e, Trim(code))) == Lookup(otps, OtpEmailAndCode, (e, code))
  {
    CodeAsTyped(code);
  }

  /** A student asks for a code, the mail goes out, and the code is typed back at time
      `later`: there is a code to type back exactly when the request succeeded, and it
      is accepted up to and including its expiry instant, and refused as expired after
      it. */
  method IssueThenVerify(store: Store, email: string, now: int, later: int)
    returns (issued: Response, verified: Option<Response>)
    requires store.Valid()
    modifies store
    ensures store.Valid()
    ensures store.event == old(store.event) && store.registrations == old(store.registrations)
    ensures verified.Some? <==> issued == OK
    ensures issued == OK && later <= now + OtpRules.ExpiryMillis(store.env) ==> verified == Some(OK)
    ensures issued == OK && later > now + OtpRules.ExpiryMillis(store.env) ==> verified == Some(Fail(OtpExpired))
  {
    var mail;
    issued, mail := store.SendOtp(Str(email), now, true, true);
    verified := None;
    if mail.Some? {
      var reply := TypeBack(store, email, mail.value.code, now + OtpRules.ExpiryMillis(store.env), later);
      verified := Some(reply);
    }
  }

  /** The student types back the code `code` the store holds for their address, due to
      expire at `expiresAt`: it is accepted exactly up to that instant. */
  method TypeBack(store: Store, email: string, code: string, expiresAt: int, later: int)
    returns (r: Response)
    requires store.Valid() && email != "" && OtpRules.IsOtpCode(code)
    requires store.OtpFor(Normalize(email), code).Some?
    requires store.OtpFor(Normalize(email), code).value.expiresAt == expiresAt
    modifies store
    ensures store.Valid()
    ensures store.event == old(store.event) && store.registrations == old(store.registrations)
    ensures r == if later <= expiresAt then OK else Fail(OtpExpired)
  {
    var e := Normalize(email);
    CodeTypedBack(store.otps, e, code);
    assert Truthy(Str(email)) && Truthy(Str(code));
    r := store.VerifyOtp(Str(email), Str(code), later);
  }

  /** Verifying succeeds without consuming the code, so the same code verifies again
      at any time up to its expiry; once a code is found expired it is deleted, so it
      is unknown the next time. */
  method VerifyTwice(store: Store, email: Json, otp: Json, now: int, later: int)
    returns (first: Response, second: Response)
    requires store.Valid()
    modifies store
    ensures store.Valid()
    ensures first == OK ==>
      email.Str? && otp.Str? && old(store.OtpFor(Normalize(email.s), Trim(otp.s))).Some?
    ensures first == OK && email.Str? && otp.Str? && old(store.OtpFor(Normalize(email.s), Trim(otp.s))).Some?
            && later <= old(store.OtpFor(Normalize(email.s), Trim(otp.s))).value.expiresAt
      ==> second == OK
    ensures first == Fail(OtpExpired) ==> second == Fail(InvalidOtp)
    ensures first == OK && second == OK ==> store.otps == old(store.otps)
  {
    first := store.VerifyOtp(email, otp, now);
    second := store.VerifyOtp(email, otp, later);
  }

  /** The same registration form sent twice: the first success deletes the email's
      codes, so the second attempt fails the OTP check, which comes before the
      duplicate check, and books nothing. */
  method RegisterTwice(store: Store, req: RegistrationRules.RegisterRequest, now: int)
    returns (first: Response, second: Response)
    requires store.Valid()
    modifies store
    ensures store.Valid()
    ensures first == CREATED ==> second == Fail(OtpNotVerified)
    ensures first == CREATED ==> |store.registrations| == |old(store.registrations)| + 1
  {
    first := store.Register(req, now, Inserted, true, true);
    second := store.Register(req, now, Inserted, true, true);
  }

  /** Two students compete for the last seat of the event. When the first one's seat
      update goes through, by the RPC or by the direct update, the event is full and
      the other one cannot be admitted. When both updates fail, the first one still
      gets a 201 but the seat stays free (`seatLeft`), so the other one can get a 201
      too, and the event then holds one registration more than it has seats. */
  method LastSeat(store: Store, one: RegistrationRules.RegisterRequest,
                  other: RegistrationRules.RegisterRequest, now: int,
                  rpc1: bool, update1: bool, rpc2: bool, update2: bool)
    returns (first: Response, seatLeft: bool, second: Response)
    requires store.Valid()
    requires store.event.Some? && store.event.value.bookedSeats == store.event.value.totalSeats - 1
    modifies store
    ensures store.Valid()
    ensures first == CREATED ==> (seatLeft <==> !rpc1 && !update1)
    ensures first == CREATED && (rpc1 || update1) ==> store.event.Some? && !store.SeatAvailable()
    ensures first == CREATED && (rpc1 || update1) ==> second != CREATED
    ensures first == CREATED && second == CREATED ==> seatLeft
    ensures old(store.SeatsMatchRegistrations()) && first == CREATED && second == CREATED
      ==> store.event.Some? && |store.registrations| == store.event.value.totalSeats + 1
  {
    first := store.Register(one, now, Inserted, rpc1, update1);
    seatLeft := store.SeatAvailable();
    second := store.Register(other, now, Inserted, rpc2, update2);
  }

  /** An admin deletes a registration twice: the second request finds nothing and
      changes nothing. */
  method DeleteTwice(store: Store, id: nat, ledgerWritten: bool)
    returns (first: Response, second: Response)
    requires store.Valid()
    modifies store
    ensures store.Valid()
    ensures first == OK ==> second == Fail(RegistrationNotFound)
    ensures first == OK && old(store.event).Some? && ledgerWritten
      ==> store.event.Some? && store.event.value.bookedSeats == Max(0, old(store.event).value.bookedSeats - 1)
  {
    first := store.DeleteRegistration(Some(id), ledgerWritten);
    second := store.DeleteRegistration(Some(id), ledgerWritten);
  }
}
