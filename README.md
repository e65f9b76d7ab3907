# Event registration backend: a Dafny model

This project models the core of a small event-registration backend. Users
authenticate with a bearer token. They create events, list their own events
and everybody else's, delete events they own, and register for other events.
Each event has a capacity, and its price rises on every registration.
Reminder and feedback emails are put on a timer relative to the event's times.

The model has seven modules: five for the source's components and two helpers.

- `Wrappers` (wrappers.dfy): `Option` and `Result`.
- `Text` (text.dfy): the JavaScript string operations the source relies on.
  These are the `\s` whitespace class, `trim`, `toLowerCase`, `startsWith` and
  `split(' ')`.
- `UserModel` (user_model.dfy): the user schema. It covers roles, email
  normalisation and its pattern, the phone pattern, password length, defaults,
  and the pre-save email-uniqueness hook over the user collection.
- `EventModel` (event_model.dfy): the event schema. It covers the field
  validators, the `remainingCapacity` virtual, the pre-save capacity hook and
  the price step `Bump(p) = ceil(11p/10)`.
- `EventRoute` (event_route.dfy): the five event handlers. Each is a function
  from the store to a reply and a new store (`CreateResult`, `DeleteResult`,
  `RegisterResult`, and the filters `Mine`, `Others`, `RegisteredFor`).
  The class `EventStore` holds the collection as a `map<EventId, Event>` field.
  Its methods update that field in place, and each method's `ensures` ties it
  to the matching function.
- `Auth` (auth.dfy): the authorization middleware as a decision function,
  `Authenticate`. Token verification and the user lookup are passed in as
  functions. The class `AuthGate` holds the process-wide blacklist, which it
  only reads.
- `Scheduler` (scheduler.dfy): reminder and feedback fire times, and the rule
  that a job is scheduled only when its time is strictly in the future. The
  class `Timeline` holds the pending-jobs sequence that each call may append to.

Ids are natural numbers that are only compared for equality. Prices and
capacities are integers. The clock (`new Date()`) is a parameter in
milliseconds.

Two behaviours of the code are worth stating up front:

- A create request that fails validation is answered with 500. The route's
  catch calls `handleError` with its default status (routes/eventRoute.js:19, 79).
- As written, the middleware never gets past the user lookup (see Findings).

## Model

| member | source | states |
|---|---|---|
| `Text.TrimSpec` | models/userModel.js:15 | `trim` keeps a contiguous piece of the string whose ends are not whitespace, and drops only whitespace on either side |
| `Text.TrimIdempotent` | models/eventModel.js:8 | trimming a trimmed name or email changes nothing |
| `Text.ToLowerProperties` | models/userModel.js:16 | lower-casing is idempotent and leaves whitespace where it was |
| `Text.Split` | middleware/auth.js:21 | `split(' ')` yields at least one piece, and no piece contains a space |
| `Text.JoinSplit` | middleware/auth.js:21 | joining the pieces of `split` with the separator gives back the header |
| `Text.SplitJoin` | middleware/auth.js:21 | splitting the join of separator-free pieces gives back the pieces |
| `Text.SplitFirst` | middleware/auth.js:21 | the first piece is the text before the first separator, and the remaining pieces are the split of the text after it |
| `UserModel.ParseRole` | models/userModel.js:33-37 | the role enum accepts exactly the names Admin, Organizer and User |
| `UserModel.NormalizeEmailIdempotent` | models/userModel.js:15-16 | trimming and then lower-casing a normalised email changes nothing |
| `UserModel.NormalizedIsLowercase` | models/userModel.js:16 | a normalised email has no upper-case letter |
| `UserModel.NormalizedFixpoint` | models/userModel.js:15-16 | a string with no whitespace and no upper-case letter is already normalised |
| `UserModel.MatchesEmailIff` | models/userModel.js:17 | the matcher accepts exactly the strings of `^\S+@\S+\.\S+$`: no whitespace, non-empty text before the `@`, between it and a later `.`, and after that `.` |
| `UserModel.MatchesPhoneIff` | models/userModel.js:27 | the matcher accepts exactly the strings of `^\+?[1-9]\d{1,14}$`: an optional `+`, a non-zero digit, then 1 to 14 digits |
| `UserModel.BuildUserErrors` | models/userModel.js:10-38 | a rejected save request names at least one field, and names exactly the fields whose validators fail (email missing or malformed after normalisation, password missing or under 8 characters, phone missing or malformed, unknown role) |
| `UserModel.BuildUserValid` | models/userModel.js:10-38 | an accepted request yields a record with the normalised, pattern-matching, lower-case email, and with the password and phone as given. Activity defaults to true and role to User; a given role is stored as named |
| `UserModel.FindOneByEmail` | models/userModel.js:44 | `findOne({ email })` returns the first user in collection order with that email, or none when no user has it |
| `UserModel.PreSaveRejectsIff` | models/userModel.js:43-49 | on a collection with unique emails, the hook rejects exactly when another user (different id) holds the email |
| `UserModel.ResavePasses` | models/userModel.js:43-49 | re-saving a user already in the collection passes the hook |
| `UserModel.WriteKeepsUnique` | models/userModel.js:43-49 | a write that passed the hook stores the record, keeps every user with another id and adds no one else. Ids and emails stay unique |
| `UserModel.SaveUserKeepsUnique` | models/userModel.js:10-49 | a save fails exactly when validation or the hook rejects; a passing save is the write of the validated record: ids and emails stay unique, every user with another id stays, and no one else is added |
| `EventModel.PreSaveIff` | models/eventModel.js:37-47 | the pre-save hook rejects exactly when `remainingCapacity` is negative; a full event (count equal to capacity) is accepted |
| `EventModel.SavedRemainingCapacity` | models/eventModel.js:37-47 | for every saveable event, `0 <= remainingCapacity <= capacity` and `|registeredUsers| <= capacity` |
| `EventModel.NewEventSpec` | models/eventModel.js:4-29 | a create request is accepted iff the trimmed name is non-empty, price is present and >= 0, and capacity is present and >= 1. The new event is saveable, owned by the caller, has the trimmed name and has no registrations. A rejection names a field |
| `EventModel.BumpSpec` | routes/eventRoute.js:187 | the new price is the least integer at or above 1.1 times the price; it never decreases, and grows when the price is positive |
| `EventModel.BumpTimesMonotone` | routes/eventRoute.js:187 | over successive registrations the price never falls below the start price and never decreases |
| `EventRoute.ListingsPartition` | routes/eventRoute.js:35-145 | the caller's events and everybody else's are disjoint and together make up the store. Each listing holds only events of the right owner, unchanged |
| `EventRoute.EventStore.ListMine` | routes/eventRoute.js:35-44 | answers 200 with exactly the events the caller owns |
| `EventRoute.EventStore.ListAll` | routes/eventRoute.js:136-145 | answers 200 with exactly the events the caller does not own |
| `EventRoute.CreateSpec` | routes/eventRoute.js:64-81 | create succeeds (201) iff the request is valid and the id is unused. It adds one saveable event owned by the caller, with the request's trimmed name, its price and its capacity and no registrations, and changes no other event. A failure answers 500 and leaves the store unchanged |
| `EventRoute.EventStore.Create` | routes/eventRoute.js:64-81 | the in-place create gives the reply and store of `CreateResult` and keeps the collection invariant |
| `EventRoute.DeleteSpec` | routes/eventRoute.js:104-122 | 404 iff the id is unknown; 403 iff the caller is not the owner; both leave the store unchanged. The owner's delete removes exactly that event and leaves all others untouched |
| `EventRoute.EventStore.Delete` | routes/eventRoute.js:104-122 | the in-place delete gives the reply and store of `DeleteResult` and keeps the collection invariant |
| `EventRoute.RegisterGuards` | routes/eventRoute.js:173-184 | 404 iff the event is unknown. "Already registered" iff the caller is listed, even on a full event. "Full" iff the caller is new and no seat is left. Every failure leaves the store unchanged |
| `EventRoute.RegisterSucceedsPastGuards` | routes/eventRoute.js:178-188 | on a valid store, registration succeeds exactly when the event exists, the caller is new and a seat is free; the save never rejects |
| `EventRoute.RegisterSuccess` | routes/eventRoute.js:186-192 | on success the caller is appended at the end and appears once; the list grows by one and stays within capacity; the price becomes `Bump(price)`; other fields and events are unchanged; the reply holds exactly the stored documents of the events the caller is registered for, this one included |
| `EventRoute.CreateKeepsStoreValid` | routes/eventRoute.js:67-75 | creating keeps every event saveable and free of duplicate registrations |
| `EventRoute.DeleteKeepsStoreValid` | routes/eventRoute.js:116 | deleting keeps the collection invariant |
| `EventRoute.RegisterKeepsStoreValid` | routes/eventRoute.js:178-188 | registering keeps `|registeredUsers| <= capacity` and no duplicates in every event |
| `EventRoute.LastSeatScenario` | routes/eventRoute.js:170-197 | capacity 1 and price 5: the first user gets the seat and the price becomes 6; the second user is told the event is full and nothing changes |
| `EventRoute.RegisterStep` | routes/eventRoute.js:186-188 | on a valid store, a registration past the guards appends the caller, bumps the price, keeps the collection valid and changes no other event |
| `EventRoute.SuccessiveRegistrations` | routes/eventRoute.js:170-197 | n distinct new users registering in turn for an event with n free seats all get in, in order; the price is `Bump` applied n times, the collection stays valid and no other event changes |
| `EventRoute.EventStore.Register` | routes/eventRoute.js:170-197 | the in-place register (push, price reassignment, save, query) gives the reply and store of `RegisterResult` and keeps the collection invariant |
| `Auth.TokenAfterPrefix` | middleware/auth.js:21-26 | for a header starting with "Bearer ", the token is the text after the prefix up to the next space; it is empty iff nothing follows the prefix or a second space does |
| `Auth.MalformedHeaderStopsFirst` | middleware/auth.js:17-19 | a missing header, or one not starting with "Bearer ", gets 401, whatever the blacklist, verifier and lookup would do |
| `Auth.EmptyTokenRejected` | middleware/auth.js:21-26 | "Bearer " alone or "Bearer " followed by a space gets 401 "Token is missing" |
| `Auth.BlacklistBeforeVerify` | middleware/auth.js:28-32 | a blacklisted token gets 403, whatever the verifier and lookup would do |
| `Auth.VerificationOutcomes` | middleware/auth.js:32-48 | an expired token gets 401 "Token has expired", a malformed one 401 "Invalid token", any other error 500. A verified email that no user holds gets 401, and an error thrown by the lookup is answered by the same catch mapping |
| `Auth.NextOnlyWhenAllPass` | middleware/auth.js:32-39 | `next()` is reached with user `u` iff every check passes and the lookup of the verified email finds `u` |
| `Auth.AsWrittenNeverAdmits` | middleware/auth.js:33 | with the lookup as written, no request ever reaches `next()` |
| `Auth.AsWrittenValidTokenGets500` | middleware/auth.js:33-48 | a valid, unlisted token for an existing user gets 500 as written, and is let through with the intended lookup |
| `Auth.ValidTokenOutcomes` | middleware/auth.js:28-48 | on a collection with unique emails, any well-formed header whose token is not blacklisted and verifies to a stored user's email gets 500 with the lookup as written, and passes that user on with the intended lookup |
| `Auth.IntendedAdmitsStoredUser` | middleware/auth.js:33-37 | with the intended lookup, the admitted user is stored and has exactly the verified email; when no stored user has it, the answer is 401 |
| `Auth.AuthGate.Handle` | middleware/auth.js:12-50 | one request through the middleware gives the decision of the guard chain with the intended lookup, and the blacklist is only read |
| `Scheduler.ReminderScheduledIff` | email/scheduler.js:5-25 | a reminder is scheduled iff the start time exists and start − 86,400,000 ms is strictly after now (within the Date range). The job is a reminder to the given address at exactly that time |
| `Scheduler.FeedbackScheduledIff` | email/scheduler.js:33-53 | a feedback request is scheduled iff the end time exists and end + 86,400,000 ms is strictly after now (within the Date range). The job fires at exactly that time |
| `Scheduler.ReminderSkippedWhenTooLate` | email/scheduler.js:7-25 | an event starting less than a day from now gets no reminder |
| `Scheduler.NoTimesNoJobs` | email/scheduler.js:7-39 | an event without start and end times (the event schema has neither) never gets a job |
| `Scheduler.Timeline.ScheduleReminder` | email/scheduler.js:5-30 | appends the reminder job when one is due and nothing otherwise. At most one job is added, only of the reminder kind, and no error reaches the caller |
| `Scheduler.Timeline.ScheduleFeedbackRequest` | email/scheduler.js:33-58 | appends the feedback job when one is due and nothing otherwise. At most one job is added, only of the feedback kind, and no error reaches the caller |

## Findings

| source | as written | input that shows it | evidently intended | confidence | as-written member | corrected member |
|---|---|---|---|---|---|---|
| middleware/auth.js:33 | `userModel.findOne(...)`, where `userModel` (line 2) is the user module's export object `{ ROLES, User }` (models/userModel.js:53-56). That object has no `findOne`, so the call throws a `TypeError`, which the catch answers with 500 | header `Bearer abc`, token not blacklisted, verified to the email of an existing user: answered 500 | `User.findOne({ email })`, passing the request on with that user | high, not executed | `Auth.AsWrittenNeverAdmits` | `Auth.IntendedAdmitsStoredUser` |

The lookup as written is `Auth.LookupAsWritten`; `Auth.AsWrittenValidTokenGets500`
shows the concrete input. The corrected lookup is `Auth.LookupIntended`, and
`Auth.AuthGate.Handle` uses it.

## Left out

- `EventModel.BumpSpec`: states the integer `ceil(11p/10)`, not the IEEE-double value of `Math.ceil(price * 1.1)`. In doubles that value is larger for some prices: 100 gives 111, not 110. Prices and capacities are integers; fractional values are not modelled.
- The registration rate limiter (routes/eventRoute.js:11-16) is configuration of an outside library whose windowing is not part of this model.
- `jwt.verify` is a parameter returning a payload email or a thrown error's name. A payload without an email claim is not modelled.
- Persistence is an abstract map or sequence: connections, ObjectId allocation (the new id is an input) and casting of request bodies are not modelled. The one store failure modelled is a create under an id already in use, answered with 500; other store failures (500) are not. The lookup compares the verified email verbatim, without any query casting.
- `populate` of the owner's profile fields into listed events is not modelled. Listings are maps keyed by id, so their order is not modelled either.
- Concurrency is not modelled. Requests run one at a time; the non-atomic read-check-push-save of registration and the last-seat race are not captured.
- `req.user` being set to null before the 401 for an unknown user is not modelled; only the decision is.
- What a scheduled job does when it fires (`sendEmail`, logging its result) and node-schedule's timer are not modelled. The scheduling methods have no error path: none of the modelled steps can throw, and the source catches and logs any error anyway. Event times are milliseconds or absent; date-string parsing is not modelled.
- Nothing in the routes calls the scheduler, and the event schema has no start or end time. The scheduler is modelled on its own, over an event value with optional times.
- `toLowerCase` is modelled for ASCII letters only. Password length counts Unicode scalar values, not UTF-16 code units.
- The user collection's database-level `unique` index is not modelled; only the pre-save hook is.
- `timestamps` (createdAt/updatedAt) are not modelled.
- Ids are natural numbers, so a malformed `:id` path parameter cannot be expressed. In the source, `findById` then throws a CastError, and the catch answers 500, not 404 (routes/eventRoute.js:107, 120 and 173, 195).
- Console logging (middleware/auth.js:15, 22, 46 and every route's catch) is not modelled.
- email/email.js (SMTP transport), log/logger.js, swagger/swagger.js and configs/db.js are not part of this model.
