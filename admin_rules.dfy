/** The pure parts of the admin controller: the stats summary, the login compare, and
    the validation of an event update. */
module AdminRules {
  import opened Wrappers
  import opened JsText
  import opened JsNumbers
  import opened JsValues
  import opened Records

  datatype Stats = Stats(totalSeats: int, bookedSeats: int, remainingSeats: int, totalRegistrations: int)

  /** The `stats` object of `GET /admin/stats`: `x ?? 0` for a missing event or count. */
  function SeatStats(event: Option<Event>, count: Option<int>): (s: Stats)
    ensures s.remainingSeats == s.totalSeats - s.bookedSeats
    ensures event.None? ==> s.totalSeats == 0 && s.bookedSeats == 0 && s.remainingSeats == 0
    ensures event.Some? ==> s.totalSeats == event.value.totalSeats && s.bookedSeats == event.value.bookedSeats
    ensures count.None? ==> s.totalRegistrations == 0
    ensures count.Some? ==> s.totalRegistrations == count.value
  {
    var total := if event.Some? then event.value.totalSeats else 0;
    var booked := if event.Some? then event.value.bookedSeats else 0;
    Stats(total, booked, total - booked, if count.Some? then count.value else 0)
  }

  /** The reply of `POST /admin/login`, with the token it hands out on success. */
  datatype LoginReply = LoginReply(response: Response, token: Option<string>)

  /** `adminLogin`: 400 without a password, 500 without a configured secret, 401 unless
      the password is exactly the secret, and on success the secret itself as token. */
  function AdminLogin(password: Json, secret: Option<string>): (r: LoginReply)
    ensures !Truthy(password) ==> r.response == Fail(MissingFields)
    ensures Truthy(password) && (secret.None? || secret.value == "") ==> r.response == Fail(AdminNotConfigured)
    ensures Truthy(password) && secret.Some? && secret.value != "" && password != Str(secret.value)
      ==> r.response == Fail(InvalidPassword)
    ensures r.response == OK <==> secret.Some? && secret.value != "" && password == Str(secret.value)
    ensures r.token.Some? <==> r.response == OK
    ensures r.token.Some? ==> r.token == secret
  {
    if !Truthy(password) then LoginReply(Fail(MissingFields), None)
    else if secret.None? || secret.value == "" then LoginReply(Fail(AdminNotConfigured), None)
    else if password != Str(secret.value) then LoginReply(Fail(InvalidPassword), None)
    else LoginReply(OK, secret)
  }

  /** The body of `PUT /admin/event`. */
  datatype EventUpdate = EventUpdate(title: Json, description: Json, date: Json, time: Json, venue: Json, totalSeats: Json)

  /** `!title || !date || !venue || !total_seats`. */
  predicate LacksField(req: EventUpdate) {
    !Truthy(req.title) || !Truthy(req.date) || !Truthy(req.venue) || !Truthy(req.totalSeats)
  }

  /** The first two checks of `updateEvent`: the required fields, then
      `isNaN(parseInt(total_seats)) || parseInt(total_seats) < 1`. */
  function RequestedSeats(req: EventUpdate): (r: Checked<int>)
    ensures LacksField(req) ==> r == Refused(MissingFields)
    ensures !LacksField(req) && (ParseIntField(req.totalSeats).None? || ParseIntField(req.totalSeats).value < 1)
      ==> r == Refused(InvalidTotalSeats)
    ensures r.Passed? <==> !LacksField(req) && ParseIntField(req.totalSeats).Some? && ParseIntField(req.totalSeats).value >= 1
    ensures r.Passed? ==> r.value == ParseIntField(req.totalSeats).value
  {
    if LacksField(req) then Refused(MissingFields)
    else
      var n := ParseIntField(req.totalSeats);
      if n.None? || n.value < 1 then Refused(InvalidTotalSeats) else Passed(n.value)
  }

  /** A seat count of 0 is refused whatever its form, but for different reasons: the
      number 0 is falsy and so counts as a missing field, while the string "0" is truthy
      and is refused as not positive once the other fields are present. */
  lemma ZeroSeatsRefused(req: EventUpdate)
    requires req.totalSeats == Num(0) || req.totalSeats == Str("0")
    ensures req.totalSeats == Num(0) ==> RequestedSeats(req) == Refused(MissingFields)
    ensures req.totalSeats == Str("0") && !LacksField(req) ==> RequestedSeats(req) == Refused(InvalidTotalSeats)
  {
    if req.totalSeats == Str("0") && !LacksField(req) {
      IntStringRoundTrip(0);
      assert ToJsString(req.totalSeats) == IntString(0);
    }
  }

  /** The new text columns: `title.trim()`, `description?.trim() || null`,
      `time?.trim() || null` and `venue.trim()`. */
  datatype EventText = EventText(title: string, description: Option<string>, time: Option<string>, venue: string)

  /** Computes the new text columns, or the TypeError one of the `.trim()` calls throws. */
  function UpdatedText(req: EventUpdate): (r: Eval<EventText>)
    ensures r.Value? <==>
      (req.title.Str? && req.venue.Str? && OptionalTrim(req.description).Value? && OptionalTrim(req.time).Value?)
    ensures r.Value? ==>
      (r.value.title == Trim(req.title.s) && r.value.venue == Trim(req.venue.s)
       && r.value.description == OptionalTrim(req.description).value
       && r.value.time == OptionalTrim(req.time).value)
  {
    match (TrimField(req.title), OptionalTrim(req.description), OptionalTrim(req.time), TrimField(req.venue))
    case (Value(t), Value(d), Value(tm), Value(v)) => Value(EventText(t, d, tm, v))
    case _ => TypeError
  }
}
