# CuSoc event registration backend, modelled in Dafny

The backend sells the seats of one event to students of one university. A registration takes two steps:

1. `POST /send-otp` checks the email. It must be present and a string, and after trimming and
   lower-casing, the domain after its first `@` must be the allowed one. The handler then refuses
   an email that is already registered and refuses when the event is full. Otherwise it replaces
   any earlier code for the email with a fresh six-digit code and an expiry time, and mails the code.
   `POST /verify-otp` accepts an exact (email, code) match up to its expiry and deletes an expired match.
2. `POST /register` repeats the field, domain and phone checks and looks the code up again without
   consuming it. It then refuses duplicates and a full or missing event, inserts the registration,
   increments `booked_seats` (through an RPC, or a direct update of the earlier read value), and
   deletes the email's codes.

The admin endpoints are:
- read the seat statistics, the registrations (newest first) and the event;
- delete a registration, which decrements `booked_seats` with a floor at 0;
- update the event, refusing a seat total below 1 or below the booked seats;
- log in by comparing a password with the configured secret.

The model is one class, `Backend.Store`, whose fields are the three tables: the single `event` row,
`registrations` and `otp_verifications`. Each HTTP handler is a member of it: a method for
every handler that reads or writes the tables, and the function `AdminLogin` for the login,
which reads only the configured secret. The class invariant `Valid()` says:
- the event keeps `1 <= total_seats` and `0 <= booked_seats <= total_seats`;
- ids and emails are unique in `registrations`;
- there is at most one code row per email;
- every stored email is normalised and of its controller's domain;
- every stored phone is digits only;
- every stored code has six digits.

Request bodies are JSON values (`JsValues.Json`). This makes JavaScript truthiness, the
`typeof` check and the TypeError that `.trim()` throws on a non-string explicit; such a TypeError
is the handler's 500.

Inputs and what stays outside the model:
- The clock is the `now` parameter, in milliseconds.
- The store faults the handlers branch on are boolean or enumerated inputs:
  - the code insert and the mail delivery of `send-otp`;
  - the registration insert outcome, including the unique violation 23505;
  - the RPC and the fallback update of `register`;
  - the seat-ledger write of the delete.
- The configuration (`ALLOWED_EMAIL_DOMAIN`, `OTP_EXPIRY_MINUTES`, `ADMIN_SECRET_KEY`) is the
  store's constant `env`.
- The random draw of `generateOTP` is a choice of any integer in [100000, 999999].

Points where the code and the documented behaviour of the system differ, or where the code is easy to misread:
- The code is modelled as written.
- The two controllers fall back to different default domains. The OTP controller uses
  `cu.edu.in` and the registration controller `cuchd.in`. With `ALLOWED_EMAIL_DOMAIN` unset, no
  registration can succeed: every code row belongs to the other domain (`Backend.Store.Register`,
  last-but-one ensures, and `Backend.Store.NoRegistrationAcrossDomains`).
- A second registration with the same form fails with "OTP not verified", not with "already
  registered". The first success deleted the email's codes, and the code check comes before the
  duplicate check (`Scenarios.RegisterTwice`).
- `split('@')[1]` looks only between the first and the second `@`, so
  `x@cu.edu.in@elsewhere.org` passes (`Emails.SecondAtIgnored`).
- A code is still valid at the instant it expires (`now > expires_at` is the test).
- `register` refuses an expired code without deleting it, unlike `verify-otp`.
- `register` answers 201 even when both the seat RPC and the direct update fail
  (registrationController.js:266-281). `booked_seats` then stays as it was, the next request can be
  admitted to the same seat, and registrations can outnumber `total_seats` (`Scenarios.LastSeat`).
- A seat total of `0` in the update request is refused as a missing field rather than as a
  non-positive number, because `!0` is true. The string `"0"` is refused as non-positive
  (`AdminRules.ZeroSeatsRefused`).

## Model

| member | source | states |
|---|---|---|
| Records.OrDefault | backend/controllers/otpController.js:4 | `process.env.X \|\| fallback`: a set, non-empty variable is used as it is; an unset or empty one gives the fallback |
| JsText.Trim | backend/controllers/otpController.js:26 | `trim()` yields a slice of its input that neither starts nor ends with an ECMAScript space, having cut only spaces from both ends |
| JsText.TrimIdempotent | backend/controllers/otpController.js:26 | trimming twice is trimming once |
| JsText.Lower | backend/controllers/otpController.js:26 | `toLowerCase()` keeps the length, turns each capital A to Z into its lower-case letter (32 code points on) and keeps every other character |
| JsText.LowerIdempotent | backend/controllers/otpController.js:26 | lower-casing twice is lower-casing once |
| JsText.TrimLower | backend/controllers/otpController.js:26 | trimming and lower-casing commute: lower-casing moves no space |
| JsText.TrimLeadingSpace | backend/controllers/otpController.js:26 | a space in front of a string does not change its trim |
| JsText.TrimTrailingSpace | backend/controllers/otpController.js:26 | a space after a string does not change its trim |
| JsText.DigitsOf | backend/controllers/registrationController.js:200 | `replace(/\D/g, '')` yields only digits, each digit as many times as the input holds it, and no other character |
| JsText.DigitsOfAppend | backend/controllers/registrationController.js:200 | the digits of `a + b` are the digits of `a` followed by those of `b`, so the filter keeps the digits' order |
| JsText.DigitsOfDigits | backend/controllers/registrationController.js:200 | a string made only of digits is unchanged by the digit filter |
| JsText.SecondPiece | backend/controllers/otpController.js:29 | `split(c)[1]` is undefined exactly when the string holds no `c`, and never contains `c` |
| JsText.SecondPieceIff | backend/controllers/otpController.js:29 | `split(c)[1]` is a given piece if and only if that piece runs from the first `c` to the next `c` or the end |
| JsNumbers.DecimalString | backend/controllers/otpController.js:11 | `toString()` of a non-negative integer is a non-empty run of digits with no leading zero |
| JsNumbers.IntStringRoundTrip | backend/controllers/adminController.js:124 | `parseInt(String(n))` gives back `n` for every integer `n` |
| JsValues.TrimField | backend/controllers/adminController.js:146 | `v.trim()` succeeds exactly on strings and then gives their trim; anything else throws |
| JsValues.OptionalTrim | backend/controllers/adminController.js:147-149 | `v?.trim() \|\| null` is null for undefined, null and blank strings, the non-empty trimmed string otherwise, and a TypeError for other values |
| JsNumbers.ParseInt | backend/controllers/otpController.js:5 | `parseInt(s)`, as used here and at adminController.js:124, skips the leading ECMAScript spaces, takes an optional sign and reads the digits; it gives a number only when a decimal digit follows the spaces and the sign |
| JsValues.Truthy | backend/controllers/adminController.js:120 | the `!x` guards: exactly `undefined`, `null`, `false`, `0` and `""` are falsy |
| JsValues.ToJsString | backend/controllers/adminController.js:124 | the ToString step of `parseInt(v)`: a string is itself, a number's text parses back to the number, and the text of `undefined`, `null`, a boolean or an object starts with neither a space, a digit nor a sign, so it parses to NaN |
| JsValues.ParseIntFieldOfNonStrings | backend/controllers/adminController.js:124 | `parseInt` of a number gives the number back; of a boolean, null, undefined or object it gives NaN |
| Emails.Normalize | backend/controllers/otpController.js:26 | a normalised email has no surrounding space and no upper-case letter, and is no longer than the input |
| Emails.NormalizeIgnoresCase | backend/controllers/registrationController.js:189 | an address and its lower-cased form normalise alike, so `X@CU.EDU.IN` and `x@cu.edu.in` are the same student |
| Emails.NormalizeIgnoresSpaces | backend/controllers/otpController.js:26 | a space before or after an address does not change its normal form |
| Emails.DomainIgnoresCase | backend/controllers/otpController.js:26-30 | an address and its lower-cased form pass or fail the domain check together |
| Emails.NormalizeIdempotent | backend/controllers/registrationController.js:189 | normalising an already normalised email, as `register` does with the address `send-otp` stored, changes nothing |
| Emails.Domain | backend/controllers/otpController.js:29 | `email.split('@')[1]` is undefined exactly when the address has no `@`, and otherwise the text from the first `@` up to the next `@` or the end |
| Emails.DomainAccepted | backend/controllers/otpController.js:29-30 | `!emailDomain \|\| emailDomain !== ALLOWED_DOMAIN` fails; an accepted address holds an `@`, and the domain it matched is non-empty and holds no `@` |
| Emails.DomainAcceptedIff | backend/controllers/otpController.js:29-30 | an email passes the domain check if and only if the allowed domain is non-empty and is exactly the text between its first `@` and the next `@` or the end |
| Emails.DomainOf | backend/controllers/otpController.js:29 | the domain piece of `local@domain` followed by nothing or by another `@` is `domain` |
| Emails.SecondAtIgnored | backend/controllers/otpController.js:29-30 | whatever follows a second `@` is never checked: `local@allowed@anything` passes |
| Emails.SubdomainRejected | backend/controllers/registrationController.js:192-193 | the match is exact, so an address of a subdomain of the allowed domain fails |
| Emails.DomainsExclusive | backend/controllers/registrationController.js:192-193 | no email passes the check for two different domains |
| Tables.Select | backend/controllers/registrationController.js:206-210 | `.eq(column, k)` returns exactly the rows whose column is `k` |
| Tables.Reject | backend/controllers/registrationController.js:286 | `.delete().eq(column, k)` keeps exactly the rows whose column is not `k` |
| Tables.Single | backend/controllers/registrationController.js:211 | `.single()` yields a row exactly when one row matched |
| Tables.Lookup | backend/controllers/otpController.js:140-145 | a row found by `.eq(...).single()` is in the table and has the key looked for |
| Tables.SelectUnique | backend/controllers/registrationController.js:223-227 | on a uniquely indexed column, at most one row matches |
| Tables.LookupUnique | backend/controllers/registrationController.js:223-227 | on a uniquely indexed column, the lookup finds a row if and only if some row has the key |
| Tables.RejectKeepsUnique | backend/controllers/otpController.js:66 | deleting rows keeps every unique index unique |
| Tables.RejectUniqueSize | backend/controllers/adminController.js:65-68 | deleting by a unique key that some row has removes exactly one row |
| Tables.InsertDescBy | backend/controllers/adminController.js:38 | inserting a row into a newest-first sequence keeps it newest-first and adds exactly that row |
| Tables.SortDescBy | backend/controllers/adminController.js:38 | `.order(column, { ascending: false })` returns a permutation of the rows, ordered from largest to smallest |
| OtpRules.ExpiryMinutes | backend/controllers/otpController.js:5 | the expiry is never 0 minutes; it is 10 when the variable is unset or parses to NaN or 0, and the parsed number otherwise |
| OtpRules.ExpiryMinutesOfNonNumbers | backend/controllers/otpController.js:5 | any variable whose text, after its leading spaces and an optional sign, is empty or does not start with a decimal digit gives 10 minutes |
| OtpRules.ExpiryMinutesOfEmptyAndWords | backend/controllers/otpController.js:5 | in particular the empty string and `"ten"` give 10 minutes |
| OtpRules.ExpiryMinutesAsWritten | backend/controllers/otpController.js:5 | a non-zero number of minutes written in the variable, negative ones included, is the expiry used |
| OtpRules.CodeOfNumber | backend/controllers/otpController.js:10-12 | every integer in [100000, 999999] is written with exactly six digits, the first not zero, and parses back to itself |
| OtpRules.GenerateOtp | backend/controllers/otpController.js:10-12 | a generated code has six digits, the first not zero, and its value lies in [100000, 999999] |
| RegistrationRules.PhoneCheckUsesDigits | backend/controllers/registrationController.js:199-203 | a phone passes if and only if its digits form a storable phone; formatting characters neither help nor hurt |
| RegistrationRules.CourseValue | backend/controllers/registrationController.js:253 | a falsy course is stored as null, a string course trimmed, and any other value throws |
| AdminRules.SeatStats | backend/controllers/adminController.js:17-24 | remaining seats are total minus booked; with no event all three are 0; with no count the registration total is 0 |
| AdminRules.AdminLogin | backend/controllers/adminController.js:167-179 | 400 without a password, 500 without a configured secret, 401 unless the password is the secret, and on success the secret itself as token |
| AdminRules.RequestedSeats | backend/controllers/adminController.js:120-126 | a missing title, date, venue or total is refused first; then a total that is NaN or below 1; otherwise the parsed total passes |
| AdminRules.ZeroSeatsRefused | backend/controllers/adminController.js:120-126 | the number 0 is refused as a missing field; the string "0" with the other fields present is refused as not positive |
| AdminRules.UpdatedText | backend/controllers/adminController.js:143-150 | the new title and venue are trimmed, description and time trimmed or null; any `.trim()` on a non-string throws |
| Backend.EmailKeyCoversCode | backend/controllers/otpController.js:140-145 | with one code row per email, an (email, code) lookup matches at most one row |
| Backend.OtpsAfterDelete | backend/controllers/otpController.js:66 | deleting an email's codes keeps the code table consistent and leaves no row for that email |
| Backend.OtpsAfterDeleteById | backend/controllers/otpController.js:155 | deleting a code row by id keeps the code table consistent |
| Backend.OtpsAfterInsert | backend/controllers/otpController.js:69-75 | inserting a fresh code for an email that has none keeps the table consistent and makes that row the email's only one |
| Backend.SelectAppend | backend/controllers/otpController.js:69-75 | a row appended for a key no row had is then the only row with that key |
| Backend.RegistrationsAfterInsert | backend/controllers/registrationController.js:249-254 | inserting a registration with a fresh id and an unused email keeps ids and emails unique |
| Backend.RegistrationsAfterDelete | backend/controllers/adminController.js:65-68 | deleting a registration by id keeps the table consistent |
| Backend.Max | backend/controllers/adminController.js:82 | `Math.max(a, b)` is at least both arguments and is one of them |
| Backend.OtherCodesKept | backend/controllers/otpController.js:66 | two code tables that agree on every other email answer every lookup of another email the same |
| Backend.RowOfItsKeys | backend/controllers/otpController.js:155 | in the code table, a row is the only one with its id and the only one with its email |
| Backend.CodeDeleted | backend/controllers/otpController.js:155 | deleting by id the row an (email, code) lookup found removes exactly one row, ends that match and leaves every other email's codes as they were |
| Backend.SelectAbsentOfPair | backend/controllers/registrationController.js:286 | once an email has no code row, no (email, code) pair matches |
| Backend.RegisteredAfterAppend | backend/controllers/registrationController.js:249-254 | after the insert, the registered emails are exactly those before plus the new one |
| Backend.Store.RegisteredIffFound | backend/controllers/otpController.js:37-47 | the registration lookup by email finds a row if and only if some registration carries that email |
| Backend.Store.RegisteredIdIffFound | backend/controllers/adminController.js:55-62 | the registration lookup by id finds a row if and only if some registration carries that id |
| Backend.Store.ClearCodes | backend/controllers/otpController.js:66 | the delete removes exactly the email's code rows, keeps the invariant and leaves every other email's codes and every other table unchanged |
| Backend.Store.StoreCode | backend/controllers/otpController.js:69-75 | the inserted row is the email's only one, matches exactly its own code, and nothing else changes |
| Backend.Store.SendOtp | backend/controllers/otpController.js:18-124 | each refusal (missing or non-string email 400, wrong domain 400, registered 409, no event 500, full 409) leaves the code table unchanged; a failed insert is a 500 after the old codes are gone; otherwise the email's codes are replaced by exactly one fresh six-digit code expiring at `now + minutes*60000`, the mail carries it, and the reply is 200 if and only if the mail is delivered, with the row kept either way |
| Backend.Store.VerifyOtp | backend/controllers/otpController.js:130-164 | missing fields 400 and non-strings 500 with nothing changed; no exact (email, trimmed code) row 400 with nothing changed; an expired row (`now > expires_at`) deleted by id with 400; otherwise 200 with nothing changed |
| Backend.Store.DeleteCode | backend/controllers/otpController.js:155 | the expired row and only it is removed; no code of the email then matches; other emails and tables are untouched |
| Backend.Store.Screen | backend/controllers/registrationController.js:184-254 | the register checks in the handler's order (fields, email type, domain, phone type, phone digits, code type, code match, expiry with no delete, duplicate, no event 404, full 409, name/course type), each with its error; it passes exactly when all hold, with trimmed name, normalised email, digit phone and course value |
| Backend.Store.Register | backend/controllers/registrationController.js:180-306 | every refusal leaves all tables unchanged; the unique violation gives 409 and any other insert error 500; on 201 exactly one registration is appended, `booked_seats` is the pre-read value plus 1 unless both ledger writes fail, the email's codes are gone, other emails' codes are kept and the invariant, including `booked_seats <= total_seats`, holds; with differing domain settings it never answers 201 |
| Backend.Store.Conclude | backend/controllers/registrationController.js:249-301 | a refusal is answered as is; the insert outcome decides 201, 409 or 500; only 201 changes the tables, and then as `Admit` states |
| Backend.Store.Admit | backend/controllers/registrationController.js:249-286 | the new row appended, the seat count raised by one when the ledger write succeeds, the email's codes deleted, other emails' codes kept |
| Backend.Store.Enrol | backend/controllers/registrationController.js:249-281 | the insert and then the seat write: the row appended with a fresh id, the seat count raised by one exactly when the ledger write succeeds, the codes untouched, and the seat count still matching the registrations when it did before and the write succeeded |
| Backend.Store.TakeSeat | backend/controllers/registrationController.js:264-281 | the RPC or the fallback update adds one booked seat when it goes through and changes nothing when both fail; the tables are otherwise unchanged |
| Backend.Store.InsertRegistration | backend/controllers/registrationController.js:249-254 | the row is appended with a fresh id and the registered emails grow by exactly its email |
| Backend.Store.NoRegistrationAcrossDomains | backend/controllers/registrationController.js:189-215 | a stored code row can satisfy the registration domain check only when both controllers allow the same domain |
| Backend.Store.DeleteRegistration | backend/controllers/adminController.js:49-100 | no id 400 and an unknown id 404, both with nothing changed; otherwise exactly that registration is removed, `booked_seats` becomes `max(0, booked_seats - 1)` when the ledger write succeeds and stays as it was when it fails, and the reply is 200 either way |
| Backend.Store.RemoveRegistration | backend/controllers/adminController.js:65-70 | the delete by id removes exactly one row, the one with that id |
| Backend.Store.UpdateEvent | backend/controllers/adminController.js:116-164 | missing fields and a bad total 400, no event 404, a total below the booked seats 400, a `.trim()` TypeError 500, each with nothing changed; on 200 only title, description, date, time, venue and total change, id and `booked_seats` are kept and `1 <= total_seats`, `booked_seats <= total_seats` hold |
| Backend.Store.GetStats | backend/controllers/adminController.js:4-30 | the statistics of the event row and the registration count; remaining seats lie between 0 and the total; booked equals registrations while the ledger agrees |
| Backend.Store.GetRegistrations | backend/controllers/adminController.js:33-46 | all registrations, no more and no fewer, newest first |
| Backend.Store.AdminLogin | backend/controllers/adminController.js:167-179 | against the configured `ADMIN_SECRET_KEY`: 200 with the secret as token exactly when the password is that non-empty secret; 400 without a password; 500 without a secret |
| Backend.Store.GetEvent | backend/controllers/adminController.js:103-113 | the event row with 200, or 404 when there is none |
| Scenarios.IssueThenVerify | backend/controllers/otpController.js:62-159 | there is a code to type back exactly when issuing succeeded; typed back at `later` it is accepted if and only if `later <= now + expiry`, and refused as expired after |
| Scenarios.VerifyTwice | backend/controllers/otpController.js:140-159 | a successful verify consumes nothing, so the same code verifies again at any time up to its row's expiry; an expired code is unknown the next time |
| Scenarios.RegisterTwice | backend/controllers/registrationController.js:206-286 | after a 201 the same form is refused with "OTP not verified", and exactly one registration was added |
| Scenarios.LastSeat | backend/controllers/registrationController.js:244-283 | with one seat left, a 201 whose seat update succeeded, by the RPC or by the direct update, fills the event and the next request cannot get a 201; a 201 leaves the seat free exactly when both updates failed, a second 201 can only follow such a one, and after it the event holds one registration more than its seats |
| Scenarios.DeleteTwice | backend/controllers/adminController.js:55-95 | after a successful delete the same id is not found, and the seat count was lowered by one, floored at 0 |

## Left out

- JsText.Lower: only the letters A to Z are lower-cased; the non-ASCII mappings of `toLowerCase` are not modelled.
- JsValues.Json: numbers are integers. Fractional numbers, and the exponent forms `String` gives numbers from 1e21 up (which `parseInt` reads differently), are not modelled.
- JsValues.ToJsString: arrays are converted as plain objects; `String([5])` is `"5"` in JavaScript.
- Backend.Store.DeleteRegistration: the path parameter is a number or absent; a non-numeric id, which makes the store lookup fail with a 500, is not modelled.
- Store errors the handlers do not branch on specially are left out:
  - the failure of the registration lookup in `sendOTP` and `register`;
  - the `eventError` of `register`;
  - the delete errors of `verifyOTP` and the code cleanup;
  - the fetch and delete errors of `deleteRegistration`;
  - the fetch error and the update error of `updateEvent` (adminController.js:133, a 500);
  - the 500 paths of `getStats`, `getRegistrations` and `getEvent`.

  A missing event where `sendOTP` uses `.single()` is its 500.
- Backend.Store.SendOtp: the delete of the email's earlier codes (otpController.js:66) is taken to
  succeed. Its error is never checked, so in the source a failed delete is followed by the insert,
  the email then has two code rows and the old code still passes the lookup at
  otpController.js:140-145. The model's one-row-per-email invariant in `Valid()` and `SendOtp`'s
  "replaced by exactly one fresh code" rest on this delete succeeding.
- The body of the `increment_booked_seats` RPC is not in the repository; a successful RPC is taken to add one seat.
- Concurrency: the model is sequential. Two requests racing between the capacity check and the increment, which can overbook, are not modelled.
- Dates are integer milliseconds. The ISO strings, `toISOString`'s range error for huge expiry settings and locale formatting are not modelled.
- `Math.random` and its floating-point arithmetic are replaced by a choice of any integer in [100000, 999999].
- The mail contents are out. `sendMail` is modelled only as delivered or not, and the confirmation email of `register` not at all, since its failure never changes the reply.
- Tables.SortDescBy: rows with equal `created_at` come back in table order, one of the orders the store may return.
- Out as framework plumbing: the Express wiring, the routes, CORS, the `adminAuth` middleware and the server's 404/500 handlers.
- The Supabase client, and the frontend, which only mirrors the backend's checks.
- backend/controllers/eventController.js is not part of this model.
