/** The backend as one store of three tables, with one method per HTTP handler of the
    OTP, registration and admin controllers. Store faults the handlers branch on are
    inputs of the methods; the clock is the `now` parameter, in milliseconds. */
module Backend {
  import opened Wrappers
  import opened JsText
  import opened JsValues
  import opened Records
  import opened Tables
  import opened Emails
  import OtpRules
  import RegistrationRules
  import AdminRules

  /** What the `registrations` insert of `register` returns: success, the unique-index
      violation (code 23505), or any other store error. */
  datatype InsertOutcome = Inserted | UniqueViolation | InsertFailed

  /** The event row keeps `total_seats >= 1` and `0 <= booked_seats <= total_seats`. */
  ghost predicate EventConsistent(event: Option<Event>) {
    event.Some? ==> 1 <= event.value.totalSeats && 0 <= event.value.bookedSeats <= event.value.totalSeats
  }

  /** Registrations have unique ids and emails, every email normalised and of the
      registration domain, every phone digits only. */
  ghost predicate RegistrationsConsistent(regs: seq<Registration>, nextId: nat, domain: string) {
    && UniqueBy(regs, RegistrationEmail)
    && UniqueBy(regs, RegistrationId)
    && forall x :: x in regs ==>
         && x.id < nextId
         && IsNormalized(x.email)
         && DomainAccepted(x.email, domain)
         && RegistrationRules.IsStoredPhone(x.phone)
  }

  /** At most one OTP row per email; every row for a normalised email of the OTP domain
      and carrying a six-digit code. */
  ghost predicate OtpsConsistent(otps: seq<OtpRow>, nextId: nat, domain: string) {
    && UniqueBy(otps, OtpEmail)
    && UniqueBy(otps, OtpId)
    && forall o :: o in otps ==>
         && o.id < nextId
         && IsNormalized(o.email)
         && DomainAccepted(o.email, domain)
         && OtpRules.IsOtpCode(o.otp)
  }

  /** One row per email means one row per (email, code) pair. */
  lemma EmailKeyCoversCode(otps: seq<OtpRow>)
    requires UniqueBy(otps, OtpEmail)
    ensures UniqueBy(otps, OtpEmailAndCode)
  {
    forall i, j | 0 <= i < j < |otps| ensures OtpEmailAndCode(otps[i]) != OtpEmailAndCode(otps[j]) {
      assert OtpEmail(otps[i]) != OtpEmail(otps[j]);
    }
  }

  /** Dropping an email's OTP rows keeps the table consistent and leaves none for it. */
  lemma OtpsAfterDelete(otps: seq<OtpRow>, nextId: nat, domain: string, e: string)
    requires OtpsConsistent(otps, nextId, domain)
    ensures OtpsConsistent(Reject(otps, OtpEmail, e), nextId, domain)
    ensures Select(Reject(otps, OtpEmail, e), OtpEmail, e) == []
  {
    RejectKeepsUnique(otps, OtpEmail, e, OtpEmail);
    RejectKeepsUnique(otps, OtpEmail, e, OtpId);
    SelectAbsent(Reject(otps, OtpEmail, e), OtpEmail, e);
  }

  /** Dropping one OTP row by id keeps the table consistent. */
  lemma OtpsAfterDeleteById(otps: seq<OtpRow>, nextId: nat, domain: string, id: nat)
    requires OtpsConsistent(otps, nextId, domain)
    ensures OtpsConsistent(Reject(otps, OtpId, id), nextId, domain)
  {
    RejectKeepsUnique(otps, OtpId, id, OtpEmail);
    RejectKeepsUnique(otps, OtpId, id, OtpId);
  }

  /** Appending a fresh row for an email that has none keeps the table consistent, and
      that row is then the only one for the email. */
  lemma OtpsAfterInsert(otps: seq<OtpRow>, nextId: nat, domain: string, row: OtpRow)
    requires OtpsConsistent(otps, nextId, domain)
    requires Select(otps, OtpEmail, row.email) == []
    requires row.id == nextId && IsNormalized(row.email) && DomainAccepted(row.email, domain)
    requires OtpRules.IsOtpCode(row.otp)
    ensures OtpsConsistent(otps + [row], nextId + 1, domain)
    ensures Select(otps + [row], OtpEmail, row.email) == [row]
  {
    forall y | y in otps ensures OtpEmail(y) != OtpEmail(row) {
      assert y !in Select(otps, OtpEmail, row.email);
    }
    AppendKeepsUnique(otps, row, OtpEmail);
    AppendKeepsUnique(otps, row, OtpId);
    SelectAppend(otps, row, OtpEmail);
  }

  lemma {:induction false} SelectAppend<T(!new), K>(s: seq<T>, x: T, key: T -> K)
    requires Select(s, key, key(x)) == []
    ensures Select(s + [x], key, key(x)) == [x]
  {
    if s != [] {
      assert (s + [x])[1..] == s[1..] + [x];
      assert s[0] !in Select(s, key, key(x));
      SelectAppend(s[1..], x, key);
    }
  }

  /** Adding a registration with a fresh id and an email nobody has keeps the table
      consistent. */
  lemma RegistrationsAfterInsert(regs: seq<Registration>, nextId: nat, domain: string, reg: Registration)
    requires RegistrationsConsistent(regs, nextId, domain)
    requires forall x :: x in regs ==> x.email != reg.email
    requires reg.id == nextId && IsNormalized(reg.email) && DomainAccepted(reg.email, domain)
    requires RegistrationRules.IsStoredPhone(reg.phone)
    ensures RegistrationsConsistent(regs + [reg], nextId + 1, domain)
  {
    AppendKeepsUnique(regs, reg, RegistrationEmail);
    AppendKeepsUnique(regs, reg, RegistrationId);
  }

  /** Deleting a registration by id keeps the table consistent. */
  lemma RegistrationsAfterDelete(regs: seq<Registration>, nextId: nat, domain: string, id: nat)
    requires RegistrationsConsistent(regs, nextId, domain)
    ensures RegistrationsConsistent(Reject(regs, RegistrationId, id), nextId, domain)
  {
    RejectKeepsUnique(regs, RegistrationId, id, RegistrationEmail);
    RejectKeepsUnique(regs, RegistrationId, id, RegistrationId);
  }

  function Max(a: int, b: int): (m: int)
    ensures m >= a && m >= b && (m == a || m == b)
  {
    if a >= b then a else b
  }

  /** Two consistent OTP tables that hold the same rows for every email but `e` answer
      every lookup of another email the same. */
  lemma OtherCodesKept(s: seq<OtpRow>, t: seq<OtpRow>, e: string)
    requires UniqueBy(s, OtpEmail) && UniqueBy(t, OtpEmail)
    requires forall o: OtpRow :: o.email != e ==> (o in s <==> o in t)
    ensures forall other, code :: other != e ==>
      Lookup(t, OtpEmailAndCode, (other, code)) == Lookup(s, OtpEmailAndCode, (other, code))
  {
    EmailKeyCoversCode(s);
    EmailKeyCoversCode(t);
    forall other, code | other != e
      ensures Lookup(t, OtpEmailAndCode, (other, code)) == Lookup(s, OtpEmailAndCode, (other, code))
    {
      LookupAgrees(s, t, OtpEmailAndCode, (other, code));
    }
  }

  /** In an OTP table keyed by id and by email, a row is the only one with its id and
      the only one with its email. */
  lemma RowOfItsKeys(s: seq<OtpRow>, row: OtpRow)
    requires UniqueBy(s, OtpId) && UniqueBy(s, OtpEmail) && row in s
    ensures forall o :: o in s && (o.id == row.id || o.email == row.email) ==> o == row
  {
    forall o | o in s && (o.id == row.id || o.email == row.email) ensures o == row {
      var i :| 0 <= i < |s| && s[i] == row;
      var j :| 0 <= j < |s| && s[j] == o;
      assert OtpId(s[i]) == row.id && OtpEmail(s[i]) == row.email;
      assert OtpId(s[j]) == o.id && OtpEmail(s[j]) == o.email;
    }
  }

  /** Deleting, by its id, the row an (email, code) lookup found removes exactly that
      row: the table stays consistent, the pair no longer matches, and the lookups for
      every other email are unaffected. */
  lemma CodeDeleted(otps: seq<OtpRow>, nextId: nat, domain: string, row: OtpRow, e: string, code: string)
    requires OtpsConsistent(otps, nextId, domain)
    requires Lookup(otps, OtpEmailAndCode, (e, code)) == Some(row)
    ensures OtpsConsistent(Reject(otps, OtpId, row.id), nextId, domain)
    ensures |Reject(otps, OtpId, row.id)| == |otps| - 1
    ensures Lookup(Reject(otps, OtpId, row.id), OtpEmailAndCode, (e, code)).None?
    ensures forall other, c :: other != e ==>
      Lookup(Reject(otps, OtpId, row.id), OtpEmailAndCode, (other, c)) == Lookup(otps, OtpEmailAndCode, (other, c))
  {
    var t := Reject(otps, OtpId, row.id);
    var i :| 0 <= i < |otps| && otps[i] == row;
    assert OtpId(otps[i]) == row.id;
    RejectUniqueSize(otps, OtpId, row.id);
    OtpsAfterDeleteById(otps, nextId, domain, row.id);
    RowOfItsKeys(otps, row);
    assert forall o :: o in t ==> o.email != e;
    SelectAbsent(t, OtpEmailAndCode, (e, code));
    OtherCodesKept(otps, t, e);
  }

  /** With no row for an email, no (email, code) pair matches either. */
  lemma SelectAbsentOfPair(otps: seq<OtpRow>, e: string, code: string)
    requires Select(otps, OtpEmail, e) == []
    ensures Lookup(otps, OtpEmailAndCode, (e, code)).None?
  {
    forall o | o in otps ensures OtpEmailAndCode(o) != (e, code) {
      assert o !in Select(otps, OtpEmail, e);
    }
    SelectAbsent(otps, OtpEmailAndCode, (e, code));
  }

  /** Some row of `regs` carries email `e`. */
  ghost predicate Registered(regs: seq<Registration>, e: string) {
    exists i :: 0 <= i < |regs| && regs[i].email == e
  }

  /** After an insert, exactly the emails before and the new one are registered. */
  lemma RegisteredAfterAppend(regs: seq<Registration>, reg: Registration, e: string)
    ensures Registered(regs + [reg], e) <==> Registered(regs, e) || e == reg.email
  {
    var t := regs + [reg];
    if Registered(t, e) {
      var i :| 0 <= i < |t| && t[i].email == e;
      if i < |regs| {
        assert t[i] == regs[i];
      }
    }
    if Registered(regs, e) {
      var i :| 0 <= i < |regs| && regs[i].email == e;
      assert t[i] == regs[i];
    }
    assert t[|regs|] == reg;
  }

  class Store {
    /** The process environment, read once when the controllers are loaded. */
    const env: Env
    /** The `event` table: its single row, if it has been seeded. */
    var event: Option<Event>
    var registrations: seq<Registration>
    var otps: seq<OtpRow>
    /** The ids the store hands to the next inserted rows. */
    var nextRegistrationId: nat
    var nextOtpId: nat

    ghost predicate Valid()
      reads this
    {
      && EventConsistent(event)
      && RegistrationsConsistent(registrations, nextRegistrationId, RegistrationRules.AllowedDomain(env))
      && OtpsConsistent(otps, nextOtpId, OtpRules.AllowedDomain(env))
    }

    /** Some registration carries email `e`. */
    ghost predicate HasRegistration(e: string)
      reads this
    {
      Registered(registrations, e)
    }

    /** Some registration carries id `id`. */
    ghost predicate HasRegistrationId(id: nat)
      reads this
    {
      exists i :: 0 <= i < |registrations| && registrations[i].id == id
    }

    /** The OTP row issued to `e` with code `code`, as `.eq('email', e).eq('otp', code)
        .single()` finds it. */
    function OtpFor(e: string, code: string): Option<OtpRow>
      reads this
    {
      Lookup(otps, OtpEmailAndCode, (e, code))
    }

    /** The event exists and has a free seat. */
    predicate SeatAvailable()
      reads this
    {
      event.Some? && event.value.bookedSeats < event.value.totalSeats
    }

    /** The seat ledger agrees with the registrations table. */
    ghost predicate SeatsMatchRegistrations()
      reads this
    {
      event.Some? ==> event.value.bookedSeats == |registrations|
    }

    /** A store over the seeded event row, with no registrations and no OTP rows. */
    constructor (env: Env, seed: Option<Event>)
      requires EventConsistent(seed)
      ensures this.env == env && event == seed && registrations == [] && otps == []
      ensures Valid()
    {
      this.env := env;
      event := seed;
      registrations := [];
      otps := [];
      nextRegistrationId := 0;
      nextOtpId := 0;
    }

    lemma RegisteredIffFound(e: string)
      requires Valid()
      ensures Lookup(registrations, RegistrationEmail, e).Some? <==> HasRegistration(e)
      ensures HasRegistration(e) <==> exists x :: x in registrations && x.email == e
    {
      LookupUnique(registrations, RegistrationEmail, e);
      if exists x :: x in registrations && x.email == e {
        var x :| x in registrations && x.email == e;
        var i :| 0 <= i < |registrations| && registrations[i] == x;
        assert RegistrationEmail(registrations[i]) == e;
      }
    }

    lemma RegisteredIdIffFound(id: nat)
      requires Valid()
      ensures Lookup(registrations, RegistrationId, id).Some? <==> HasRegistrationId(id)
    {
      LookupUnique(registrations, RegistrationId, id);
      if HasRegistrationId(id) {
        var i :| 0 <= i < |registrations| && registrations[i].id == id;
        assert RegistrationId(registrations[i]) == id;
      }
    }

    /** `.from('otp_verifications').delete().eq('email', e)`. */
    method ClearCodes(e: string)
      requires Valid()
      modifies this
      ensures Valid()
      ensures otps == Reject(old(otps), OtpEmail, e) && Select(otps, OtpEmail, e) == []
      ensures forall other, code :: other != e ==> OtpFor(other, code) == old(OtpFor(other, code))
      ensures event == old(event) && registrations == old(registrations)
      ensures nextRegistrationId == old(nextRegistrationId) && nextOtpId == old(nextOtpId)
    {
      OtpsAfterDelete(otps, nextOtpId, OtpRules.AllowedDomain(env), e);
      ghost var before := otps;
      otps := Reject(otps, OtpEmail, e);
      OtherCodesKept(before, otps, e);
    }

    /** The insert of a fresh code for an email that has none: that row is then the only
        one for the email, and no other code matches it. */
    method StoreCode(e: string, code: string, expiresAt: int)
      requires Valid()
      requires Select(otps, OtpEmail, e) == []
      requires IsNormalized(e) && DomainAccepted(e, OtpRules.AllowedDomain(env)) && OtpRules.IsOtpCode(code)
      modifies this
      ensures Valid()
      ensures otps == old(otps) + [OtpRow(old(nextOtpId), e, code, expiresAt)]
      ensures Select(otps, OtpEmail, e) == [OtpRow(old(nextOtpId), e, code, expiresAt)]
      ensures OtpFor(e, code) == Some(OtpRow(old(nextOtpId), e, code, expiresAt))
      ensures forall c :: c != code ==> OtpFor(e, c).None?
      ensures forall other, c :: other != e ==> OtpFor(other, c) == old(OtpFor(other, c))
      ensures event == old(event) && registrations == old(registrations)
      ensures nextRegistrationId == old(nextRegistrationId)
    {
      var row := OtpRow(nextOtpId, e, code, expiresAt);
      OtpsAfterInsert(otps, nextOtpId, OtpRules.AllowedDomain(env), row);
      ghost var before := otps;
      otps := otps + [row];
      OtherCodesKept(before, otps, e);
      nextOtpId := nextOtpId + 1;
      EmailKeyCoversCode(otps);
      LookupUnique(otps, OtpEmailAndCode, (e, code));
      assert otps[|otps| - 1] == row;
      forall o | o in otps && o.email == e ensures o.otp == code {
        assert o in Select(otps, OtpEmail, e);
      }
    }

    /** The email of a `send-otp` body passes the presence, type and domain checks. */
    predicate IssuePassed(email: Json) {
      Truthy(email) && email.Str? && DomainAccepted(Normalize(email.s), OtpRules.AllowedDomain(env))
    }

    /** `POST /send-otp`. */
    method SendOtp(email: Json, now: int, stored: bool, delivered: bool) returns (r: Response, mail: Option<OtpRules.OtpMail>)
      requires Valid()
      modifies this
      ensures Valid()
      ensures event == old(event) && registrations == old(registrations)
      ensures nextRegistrationId == old(nextRegistrationId)
      ensures email.Str? ==>
        forall other, code :: other != Normalize(email.s) ==> OtpFor(other, code) == old(OtpFor(other, code))
      ensures !Truthy(email) || !email.Str? ==> r == Fail(MissingFields) && otps == old(otps) && mail.None?
      ensures Truthy(email) && email.Str? && !IssuePassed(email) ==> r == Fail(InvalidDomain) && otps == old(otps) && mail.None?
      ensures IssuePassed(email) && old(HasRegistration(Normalize(email.s)))
        ==> r == Fail(AlreadyRegistered) && otps == old(otps) && mail.None?
      ensures IssuePassed(email) && !old(HasRegistration(Normalize(email.s))) && old(event).None?
        ==> r == Fail(ServerError) && otps == old(otps) && mail.None?
      ensures IssuePassed(email) && !old(HasRegistration(Normalize(email.s))) && old(event).Some? && !old(SeatAvailable())
        ==> r == Fail(EventFull) && otps == old(otps) && mail.None?
      ensures IssuePassed(email) && !old(HasRegistration(Normalize(email.s))) && old(SeatAvailable()) && !stored
        ==> r == Fail(ServerError) && otps == Reject(old(otps), OtpEmail, Normalize(email.s)) && mail.None?
      ensures r == OK <==> IssuePassed(email) && !old(HasRegistration(Normalize(email.s))) && old(SeatAvailable()) && stored && delivered
      ensures mail.Some? <==> IssuePassed(email) && !old(HasRegistration(Normalize(email.s))) && old(SeatAvailable()) && stored
      ensures mail.Some? ==>
        && r == (if delivered then OK else Fail(ServerError))
        && mail.value.to == Normalize(email.s)
        && OtpRules.IsOtpCode(mail.value.code)
        && otps == Reject(old(otps), OtpEmail, mail.value.to) + [OtpRow(old(nextOtpId), mail.value.to, mail.value.code, now + OtpRules.ExpiryMillis(env))]
        && Select(otps, OtpEmail, mail.value.to) == [OtpRow(old(nextOtpId), mail.value.to, mail.value.code, now + OtpRules.ExpiryMillis(env))]
        && OtpFor(mail.value.to, mail.value.code) == Some(OtpRow(old(nextOtpId), mail.value.to, mail.value.code, now + OtpRules.ExpiryMillis(env)))
        && (forall code :: code != mail.value.code ==> OtpFor(mail.value.to, code).None?)
    {
      mail := None;
      if !Truthy(email) || !email.Str? {
        return Fail(MissingFields), mail;
      }
      var e := Normalize(email.s);
      if !DomainAccepted(e, OtpRules.AllowedDomain(env)) {
        return Fail(InvalidDomain), mail;
      }
      RegisteredIffFound(e);
      if Lookup(registrations, RegistrationEmail, e).Some? {
        return Fail(AlreadyRegistered), mail;
      }
      if event.None? {
        return Fail(ServerError), mail;
      }
      if event.value.bookedSeats >= event.value.totalSeats {
        return Fail(EventFull), mail;
      }
      var code := OtpRules.GenerateOtp();
      ghost var before := otps;
      ClearCodes(e);
      ghost var cleared := otps;
      assert cleared == Reject(before, OtpEmail, e);
      if !stored {
        return Fail(ServerError), mail;
      }
      var row := OtpRow(nextOtpId, e, code, now + OtpRules.ExpiryMillis(env));
      StoreCode(e, code, row.expiresAt);
      assert otps == cleared + [row];
      mail := Some(OtpRules.OtpMail(e, code));
      r := if delivered then OK else Fail(ServerError);
    }

    /** `POST /verify-otp`. A match that has not expired changes nothing; an expired
        one is deleted, so the same code can never match again. */
    method VerifyOtp(email: Json, otp: Json, now: int) returns (r: Response)
      requires Valid()
      modifies this
      ensures Valid()
      ensures event == old(event) && registrations == old(registrations)
      ensures nextRegistrationId == old(nextRegistrationId) && nextOtpId == old(nextOtpId)
      ensures email.Str? ==>
        forall other, code :: other != Normalize(email.s) ==> OtpFor(other, code) == old(OtpFor(other, code))
      ensures !Truthy(email) || !Truthy(otp) ==> r == Fail(MissingFields) && otps == old(otps)
      ensures Truthy(email) && Truthy(otp) && !(email.Str? && otp.Str?) ==> r == Fail(ServerError) && otps == old(otps)
      ensures Truthy(email) && Truthy(otp) && email.Str? && otp.Str? ==>
        var row := old(OtpFor(Normalize(email.s), Trim(otp.s)));
        && (row.None? ==> r == Fail(InvalidOtp) && otps == old(otps))
        && (row.Some? && now > row.value.expiresAt ==>
              && r == Fail(OtpExpired)
              && otps == Reject(old(otps), OtpId, row.value.id)
              && |otps| == |old(otps)| - 1
              && OtpFor(Normalize(email.s), Trim(otp.s)).None?)
        && (row.Some? && now <= row.value.expiresAt ==> r == OK && otps == old(otps))
    {
      if !Truthy(email) || !Truthy(otp) {
        return Fail(MissingFields);
      }
      if !email.Str? || !otp.Str? {
        return Fail(ServerError);
      }
      var e := Normalize(email.s);
      var code := Trim(otp.s);
      var row := Lookup(otps, OtpEmailAndCode, (e, code));
      if row.None? {
        return Fail(InvalidOtp);
      }
      if now > row.value.expiresAt {
        DeleteCode(row.value, e, code);
        return Fail(OtpExpired);
      }
      r := OK;
    }

    /** `.from('otp_verifications').delete().eq('id', row.id)` for a row found by its
        email and code: exactly that row goes, and with it the only match. */
    method DeleteCode(row: OtpRow, e: string, code: string)
      requires Valid()
      requires OtpFor(e, code) == Some(row)
      modifies this
      ensures Valid()
      ensures otps == Reject(old(otps), OtpId, row.id) && |otps| == |old(otps)| - 1
      ensures OtpFor(e, code).None?
      ensures forall other, c :: other != e ==> OtpFor(other, c) == old(OtpFor(other, c))
      ensures event == old(event) && registrations == old(registrations)
      ensures nextRegistrationId == old(nextRegistrationId) && nextOtpId == old(nextOtpId)
    {
      CodeDeleted(otps, nextOtpId, OtpRules.AllowedDomain(env), row, e, code);
      otps := Reject(otps, OtpId, row.id);
    }

    /** The checks `register` makes before its insert, in the handler's order: the row
        it is about to insert, or the error it answers with. A TypeError thrown by
        `.trim()` or `.replace()` on a non-string is the 500 of the catch block. */
    function Screen(req: RegistrationRules.RegisterRequest, now: int): (c: Checked<Registration>)
      requires Valid()
      reads this
      ensures RegistrationRules.LacksField(req) ==> c == Refused(MissingFields)
      ensures !RegistrationRules.LacksField(req) && !req.email.Str? ==> c == Refused(ServerError)
      ensures !RegistrationRules.LacksField(req) && req.email.Str?
              && !DomainAccepted(Normalize(req.email.s), RegistrationRules.AllowedDomain(env))
        ==> c == Refused(InvalidDomain)
      ensures RegistrationRules.EmailPassed(req, RegistrationRules.AllowedDomain(env)) && !req.phone.Str?
        ==> c == Refused(ServerError)
      ensures RegistrationRules.EmailPassed(req, RegistrationRules.AllowedDomain(env)) && req.phone.Str?
              && !RegistrationRules.PhoneAccepted(req.phone.s)
        ==> c == Refused(InvalidPhone)
      ensures RegistrationRules.FormPassed(req, RegistrationRules.AllowedDomain(env)) && !req.otp.Str?
        ==> c == Refused(ServerError)
      ensures RegistrationRules.FormPassed(req, RegistrationRules.AllowedDomain(env)) && req.otp.Str? ==>
        var e := Normalize(req.email.s);
        var row := OtpFor(e, Trim(req.otp.s));
        && (row.None? ==> c == Refused(OtpNotVerified))
        && (row.Some? && now > row.value.expiresAt ==> c == Refused(OtpExpired))
        && (row.Some? && now <= row.value.expiresAt && HasRegistration(e) ==> c == Refused(AlreadyRegistered))
        && (row.Some? && now <= row.value.expiresAt && !HasRegistration(e) && event.None?
            ==> c == Refused(EventNotFound))
        && (row.Some? && now <= row.value.expiresAt && !HasRegistration(e) && event.Some? && !SeatAvailable()
            ==> c == Refused(EventFull))
        && (row.Some? && now <= row.value.expiresAt && !HasRegistration(e) && SeatAvailable()
            && (!req.name.Str? || RegistrationRules.CourseValue(req.course).TypeError?)
            ==> c == Refused(ServerError))
      ensures c.Passed? <==>
        && RegistrationRules.FormPassed(req, RegistrationRules.AllowedDomain(env)) && req.otp.Str?
        && OtpFor(Normalize(req.email.s), Trim(req.otp.s)).Some?
        && now <= OtpFor(Normalize(req.email.s), Trim(req.otp.s)).value.expiresAt
        && !HasRegistration(Normalize(req.email.s))
        && SeatAvailable()
        && req.name.Str? && RegistrationRules.CourseValue(req.course).Value?
      ensures c.Passed? ==>
        && RegistrationRules.FormPassed(req, RegistrationRules.AllowedDomain(env)) && req.otp.Str? && req.name.Str?
        && c.value == Registration(nextRegistrationId, Trim(req.name.s), Normalize(req.email.s),
             DigitsOf(req.phone.s), RegistrationRules.CourseValue(req.course).value, now)
        && OtpFor(c.value.email, Trim(req.otp.s)).Some?
        && now <= OtpFor(c.value.email, Trim(req.otp.s)).value.expiresAt
        && !HasRegistration(c.value.email)
        && SeatAvailable()
        && RegistrationRules.IsStoredPhone(c.value.phone)
        && OtpRules.AllowedDomain(env) == RegistrationRules.AllowedDomain(env)
    {
      if RegistrationRules.LacksField(req) then Refused(MissingFields)
      else if !req.email.Str? then Refused(ServerError)
      else
        var e := Normalize(req.email.s);
        if !DomainAccepted(e, RegistrationRules.AllowedDomain(env)) then Refused(InvalidDomain)
        else if !req.phone.Str? then Refused(ServerError)
        else if !RegistrationRules.PhoneAccepted(req.phone.s) then Refused(InvalidPhone)
        else if !req.otp.Str? then Refused(ServerError)
        else
          var row := OtpFor(e, Trim(req.otp.s));
          if row.None? then Refused(OtpNotVerified)
          else if now > row.value.expiresAt then Refused(OtpExpired)
          else
            assert HasRegistration(e) <==> Lookup(registrations, RegistrationEmail, e).Some? by {
              RegisteredIffFound(e);
            }
            if Lookup(registrations, RegistrationEmail, e).Some? then Refused(AlreadyRegistered)
            else if event.None? then Refused(EventNotFound)
            else if !SeatAvailable() then Refused(EventFull)
            else if !req.name.Str? || RegistrationRules.CourseValue(req.course).TypeError? then Refused(ServerError)
            else
              RegistrationRules.PhoneCheckUsesDigits(req.phone.s);
              NoRegistrationAcrossDomains(row.value);
              Passed(Registration(nextRegistrationId, Trim(req.name.s), e, DigitsOf(req.phone.s),
                RegistrationRules.CourseValue(req.course).value, now))
    }

    /** `POST /register`: the checks of `Screen`, then the insert, the seat increment
        and the OTP cleanup. `insert` is what the store answers to the insert; the seat
        increment succeeds if either the RPC or the direct update does. */
    method Register(req: RegistrationRules.RegisterRequest, now: int, insert: InsertOutcome,
                    rpcSucceeded: bool, updateSucceeded: bool) returns (r: Response)
      requires Valid()
      modifies this
      ensures Valid()
      ensures nextOtpId == old(nextOtpId)
      ensures old(Screen(req, now)).Refused? ==> r == Fail(old(Screen(req, now)).error)
      ensures old(Screen(req, now)).Passed? ==>
        r == (match insert
              case Inserted => CREATED
              case UniqueViolation => Fail(AlreadyRegistered)
              case InsertFailed => Fail(ServerError))
      ensures r != CREATED ==>
        && event == old(event) && registrations == old(registrations) && otps == old(otps)
        && nextRegistrationId == old(nextRegistrationId)
      ensures r == CREATED ==>
        && var reg := old(Screen(req, now)).value;
        && registrations == old(registrations) + [reg]
        && nextRegistrationId == old(nextRegistrationId) + 1
        && event == Some(old(event).value.(bookedSeats :=
             old(event).value.bookedSeats + if rpcSucceeded || updateSucceeded then 1 else 0))
        && otps == Reject(old(otps), OtpEmail, reg.email)
        && HasRegistration(reg.email)
        && (forall x :: HasRegistration(x) <==> old(HasRegistration(x)) || x == reg.email)
        && (forall code :: OtpFor(reg.email, code).None?)
      ensures req.email.Str? ==>
        forall other, code :: other != Normalize(req.email.s) ==> OtpFor(other, code) == old(OtpFor(other, code))
      ensures OtpRules.AllowedDomain(env) != RegistrationRules.AllowedDomain(env) ==> r != CREATED
      ensures old(SeatsMatchRegistrations()) && (rpcSucceeded || updateSucceeded) ==> SeatsMatchRegistrations()
    {
      var screened := Screen(req, now);
      r := Conclude(screened, insert, rpcSucceeded || updateSucceeded);
    }

    /** What `register` does once its checks are decided: answer the refusal, or try the
        insert and, when it goes through, make the writes of `Admit`. */
    method Conclude(screened: Checked<Registration>, insert: InsertOutcome, ledgerWritten: bool)
      returns (r: Response)
      requires Valid()
      requires screened.Passed? ==>
        && screened.value.id == nextRegistrationId && !HasRegistration(screened.value.email) && SeatAvailable()
        && IsNormalized(screened.value.email)
        && DomainAccepted(screened.value.email, RegistrationRules.AllowedDomain(env))
        && RegistrationRules.IsStoredPhone(screened.value.phone)
      modifies this
      ensures Valid()
      ensures nextOtpId == old(nextOtpId)
      ensures screened.Refused? ==> r == Fail(screened.error)
      ensures screened.Passed? ==>
        r == (match insert
              case Inserted => CREATED
              case UniqueViolation => Fail(AlreadyRegistered)
              case InsertFailed => Fail(ServerError))
      ensures r != CREATED ==>
        && event == old(event) && registrations == old(registrations) && otps == old(otps)
        && nextRegistrationId == old(nextRegistrationId)
      ensures r == CREATED ==>
        && screened.Passed?
        && registrations == old(registrations) + [screened.value]
        && nextRegistrationId == old(nextRegistrationId) + 1
        && event == Some(old(event).value.(bookedSeats :=
             old(event).value.bookedSeats + if ledgerWritten then 1 else 0))
        && otps == Reject(old(otps), OtpEmail, screened.value.email)
        && HasRegistration(screened.value.email)
        && (forall x :: HasRegistration(x) <==> old(HasRegistration(x)) || x == screened.value.email)
        && (forall code :: OtpFor(screened.value.email, code).None?)
        && (forall other, code :: other != screened.value.email ==> OtpFor(other, code) == old(OtpFor(other, code)))
      ensures old(SeatsMatchRegistrations()) && ledgerWritten ==> SeatsMatchRegistrations()
    {
      if screened.Refused? {
        return Fail(screened.error);
      }
      match insert {
        case UniqueViolation => return Fail(AlreadyRegistered);
        case InsertFailed => return Fail(ServerError);
        case Inserted =>
      }
      Admit(screened.value, ledgerWritten);
      r := CREATED;
    }

    /** The writes of a successful `register`: the new row, the seat increment when the
        ledger write succeeds (`booked_seats + 1` of the value read before), and the
        deletion of the email's OTP rows. */
    method Admit(reg: Registration, ledgerWritten: bool)
      requires Valid()
      requires reg.id == nextRegistrationId && !HasRegistration(reg.email) && SeatAvailable()
      requires IsNormalized(reg.email) && DomainAccepted(reg.email, RegistrationRules.AllowedDomain(env))
      requires RegistrationRules.IsStoredPhone(reg.phone)
      modifies this
      ensures Valid()
      ensures registrations == old(registrations) + [reg]
      ensures nextRegistrationId == old(nextRegistrationId) + 1 && nextOtpId == old(nextOtpId)
      ensures event == Some(old(event).value.(bookedSeats := old(event).value.bookedSeats + if ledgerWritten then 1 else 0))
      ensures otps == Reject(old(otps), OtpEmail, reg.email)
      ensures HasRegistration(reg.email)
      ensures forall x :: HasRegistration(x) <==> old(HasRegistration(x)) || x == reg.email
      ensures forall code :: OtpFor(reg.email, code).None?
      ensures forall other, code :: other != reg.email ==> OtpFor(other, code) == old(OtpFor(other, code))
      ensures old(SeatsMatchRegistrations()) && ledgerWritten ==> SeatsMatchRegistrations()
    {
      Enrol(reg, ledgerWritten);
      ClearCodes(reg.email);
      forall code ensures OtpFor(reg.email, code).None? {
        SelectAbsentOfPair(otps, reg.email, code);
      }
    }

    /** The registration insert followed by the seat-ledger write. */
    method Enrol(reg: Registration, ledgerWritten: bool)
      requires Valid()
      requires reg.id == nextRegistrationId && !HasRegistration(reg.email) && SeatAvailable()
      requires IsNormalized(reg.email) && DomainAccepted(reg.email, RegistrationRules.AllowedDomain(env))
      requires RegistrationRules.IsStoredPhone(reg.phone)
      modifies this
      ensures Valid()
      ensures registrations == old(registrations) + [reg]
      ensures nextRegistrationId == old(nextRegistrationId) + 1 && nextOtpId == old(nextOtpId)
      ensures event == Some(old(event).value.(bookedSeats := old(event).value.bookedSeats + if ledgerWritten then 1 else 0))
      ensures otps == old(otps)
      ensures forall x :: HasRegistration(x) <==> old(HasRegistration(x)) || x == reg.email
      ensures old(SeatsMatchRegistrations()) && ledgerWritten ==> SeatsMatchRegistrations()
    {
      InsertRegistration(reg);
      TakeSeat(ledgerWritten);
    }

    /** The seat-ledger write of `register`: one more booked seat when it goes through,
        nothing changed when it fails. */
    method TakeSeat(ledgerWritten: bool)
      requires Valid() && SeatAvailable()
      modifies this
      ensures Valid()
      ensures event == Some(old(event).value.(bookedSeats := old(event).value.bookedSeats + if ledgerWritten then 1 else 0))
      ensures registrations == old(registrations) && otps == old(otps)
      ensures nextRegistrationId == old(nextRegistrationId) && nextOtpId == old(nextOtpId)
    {
      if ledgerWritten {
        var ev := event.value;
        event := Some(ev.(bookedSeats := ev.bookedSeats + 1));
      }
    }

    /** `.from('registrations').insert(reg)` for an email nobody has. */
    method InsertRegistration(reg: Registration)
      requires Valid()
      requires reg.id == nextRegistrationId && !HasRegistration(reg.email)
      requires IsNormalized(reg.email) && DomainAccepted(reg.email, RegistrationRules.AllowedDomain(env))
      requires RegistrationRules.IsStoredPhone(reg.phone)
      modifies this
      ensures Valid()
      ensures registrations == old(registrations) + [reg]
      ensures nextRegistrationId == old(nextRegistrationId) + 1 && nextOtpId == old(nextOtpId)
      ensures event == old(event) && otps == old(otps)
      ensures forall x :: HasRegistration(x) <==> old(HasRegistration(x)) || x == reg.email
    {
      forall x | x in registrations ensures x.email != reg.email {
        var i :| 0 <= i < |registrations| && registrations[i] == x;
      }
      RegistrationsAfterInsert(registrations, nextRegistrationId, RegistrationRules.AllowedDomain(env), reg);
      ghost var before := registrations;
      registrations := registrations + [reg];
      nextRegistrationId := nextRegistrationId + 1;
      forall x ensures HasRegistration(x) <==> old(HasRegistration(x)) || x == reg.email {
        RegisteredAfterAppend(before, reg, x);
      }
    }

    /** An OTP row exists only for the OTP domain, so it matches a request that passed
        the registration domain check only when the two domains are the same. */
    lemma NoRegistrationAcrossDomains(row: OtpRow)
      requires Valid() && row in otps
      requires DomainAccepted(row.email, RegistrationRules.AllowedDomain(env))
      ensures OtpRules.AllowedDomain(env) == RegistrationRules.AllowedDomain(env)
    {
      DomainsExclusive(row.email, OtpRules.AllowedDomain(env), RegistrationRules.AllowedDomain(env));
    }

    /** `DELETE /admin/registrations/:id`. `ledgerWritten` says whether the read and the
        update of `booked_seats` that follow the delete succeed; when they fail the
        delete still answers 200. */
    method DeleteRegistration(id: Option<nat>, ledgerWritten: bool) returns (r: Response)
      requires Valid()
      modifies this
      ensures Valid()
      ensures otps == old(otps) && nextRegistrationId == old(nextRegistrationId) && nextOtpId == old(nextOtpId)
      ensures id.None? ==> r == Fail(MissingFields) && registrations == old(registrations) && event == old(event)
      ensures id.Some? && !old(HasRegistrationId(id.value))
        ==> r == Fail(RegistrationNotFound) && registrations == old(registrations) && event == old(event)
      ensures id.Some? && old(HasRegistrationId(id.value)) ==>
        && r == OK
        && registrations == Reject(old(registrations), RegistrationId, id.value)
        && |registrations| == |old(registrations)| - 1
        && !HasRegistrationId(id.value)
        && event == (if old(event).Some? && ledgerWritten
                     then Some(old(event).value.(bookedSeats := Max(0, old(event).value.bookedSeats - 1)))
                     else old(event))
      ensures event.Some? ==> event.value.bookedSeats >= 0
      ensures old(SeatsMatchRegistrations()) && (r != OK || ledgerWritten) ==> SeatsMatchRegistrations()
    {
      if id.None? {
        return Fail(MissingFields);
      }
      RegisteredIdIffFound(id.value);
      if Lookup(registrations, RegistrationId, id.value).None? {
        return Fail(RegistrationNotFound);
      }
      RemoveRegistration(id.value);
      if event.Some? && ledgerWritten {
        event := Some(event.value.(bookedSeats := Max(0, event.value.bookedSeats - 1)));
      }
      r := OK;
    }

    /** `.from('registrations').delete().eq('id', id)` for an id that exists. */
    method RemoveRegistration(id: nat)
      requires Valid() && HasRegistrationId(id)
      modifies this
      ensures Valid()
      ensures registrations == Reject(old(registrations), RegistrationId, id)
      ensures |registrations| == |old(registrations)| - 1 && !HasRegistrationId(id)
      ensures event == old(event) && otps == old(otps)
      ensures nextRegistrationId == old(nextRegistrationId) && nextOtpId == old(nextOtpId)
    {
      var i :| 0 <= i < |registrations| && registrations[i].id == id;
      assert RegistrationId(registrations[i]) == id;
      RejectUniqueSize(registrations, RegistrationId, id);
      RegistrationsAfterDelete(registrations, nextRegistrationId, RegistrationRules.AllowedDomain(env), id);
      registrations := Reject(registrations, RegistrationId, id);
      forall k | 0 <= k < |registrations| ensures registrations[k].id != id {
        assert registrations[k] in registrations;
      }
    }

    /** `PUT /admin/event`. On success only the title, description, date, time, venue
        and total columns change; the row is also returned, as the handler does. */
    method UpdateEvent(req: AdminRules.EventUpdate) returns (r: Response, updated: Option<Event>)
      requires Valid()
      modifies this
      ensures Valid()
      ensures registrations == old(registrations) && otps == old(otps)
      ensures nextRegistrationId == old(nextRegistrationId) && nextOtpId == old(nextOtpId)
      ensures r != OK ==> event == old(event) && updated.None?
      ensures AdminRules.RequestedSeats(req).Refused? ==> r == Fail(AdminRules.RequestedSeats(req).error)
      ensures AdminRules.RequestedSeats(req).Passed? && old(event).None? ==> r == Fail(EventNotFound)
      ensures AdminRules.RequestedSeats(req).Passed? && old(event).Some?
              && AdminRules.RequestedSeats(req).value < old(event).value.bookedSeats
        ==> r == Fail(SeatsBelowBooked)
      ensures AdminRules.RequestedSeats(req).Passed? && old(event).Some?
              && AdminRules.RequestedSeats(req).value >= old(event).value.bookedSeats
              && AdminRules.UpdatedText(req).TypeError?
        ==> r == Fail(ServerError)
      ensures r == OK <==>
        && AdminRules.RequestedSeats(req).Passed? && old(event).Some?
        && AdminRules.RequestedSeats(req).value >= old(event).value.bookedSeats
        && AdminRules.UpdatedText(req).Value?
      ensures r == OK ==>
        var text := AdminRules.UpdatedText(req).value;
        && updated == event
        && event == Some(old(event).value.(
             title := text.title, description := text.description, date := req.date,
             time := text.time, venue := text.venue, totalSeats := AdminRules.RequestedSeats(req).value))
      ensures event.Some? ==>
        && old(event).Some?
        && event.value.id == old(event).value.id
        && event.value.bookedSeats == old(event).value.bookedSeats
        && 1 <= event.value.totalSeats && event.value.bookedSeats <= event.value.totalSeats
    {
      updated := None;
      var seats := AdminRules.RequestedSeats(req);
      if seats.Refused? {
        return Fail(seats.error), updated;
      }
      if event.None? {
        return Fail(EventNotFound), updated;
      }
      var ev := event.value;
      if seats.value < ev.bookedSeats {
        return Fail(SeatsBelowBooked), updated;
      }
      var text := AdminRules.UpdatedText(req);
      if text.TypeError? {
        return Fail(ServerError), updated;
      }
      var t := text.value;
      event := Some(ev.(title := t.title, description := t.description, date := req.date,
                        time := t.time, venue := t.venue, totalSeats := seats.value));
      updated := event;
      r := OK;
    }

    /** `GET /admin/stats`: the seat figures of the event row and the row count of the
        registrations table. */
    method GetStats() returns (r: Response, stats: AdminRules.Stats)
      ensures r == OK
      ensures stats == AdminRules.SeatStats(event, Some(|registrations|))
      ensures stats.totalRegistrations == |registrations|
      ensures EventConsistent(event) ==> 0 <= stats.remainingSeats <= stats.totalSeats
      ensures SeatsMatchRegistrations() && event.Some? ==> stats.bookedSeats == stats.totalRegistrations
    {
      stats := AdminRules.SeatStats(event, Some(|registrations|));
      r := OK;
    }

    /** `GET /admin/registrations`: every row, newest first. */
    method GetRegistrations() returns (r: Response, rows: seq<Registration>)
      ensures r == OK
      ensures multiset(rows) == multiset(registrations)
      ensures SortedDescBy(rows, RegistrationCreatedAt)
    {
      rows := SortDescBy(registrations, RegistrationCreatedAt);
      r := OK;
    }

    /** `POST /admin/login`, against the `ADMIN_SECRET_KEY` of the store's environment:
        the admin gets in, and gets the secret as token, exactly with the configured
        non-empty secret; the tables play no part. */
    function AdminLogin(password: Json): (r: AdminRules.LoginReply)
      ensures r.response == OK <==>
        env.adminSecretKey.Some? && env.adminSecretKey.value != "" && password == Str(env.adminSecretKey.value)
      ensures r.token.Some? <==> r.response == OK
      ensures r.token.Some? ==> r.token == env.adminSecretKey
      ensures !Truthy(password) ==> r.response == Fail(MissingFields)
      ensures Truthy(password) && OrDefault(env.adminSecretKey, "") == "" ==> r.response == Fail(AdminNotConfigured)
    {
      AdminRules.AdminLogin(password, env.adminSecretKey)
    }

    /** `GET /admin/event`. */
    method GetEvent() returns (r: Response, row: Option<Event>)
      ensures event.None? ==> r == Fail(EventNotFound) && row.None?
      ensures event.Some? ==> r == OK && row == event
    {
      if event.None? {
        return Fail(EventNotFound), None;
      }
      r, row := OK, event;
    }
  }
}
