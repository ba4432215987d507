# Band rehearsal scheduler — a Dafny model of its core

The band rehearsal scheduler is an Express and Sequelize server with a Redux client. Bands have members, and members are either `admin` or `member`. A band schedules rehearsals, and every member answers each rehearsal with an attendance status.

This project models three parts of it:

- **The server's data.** One store holds users, bands, band memberships, venues, rehearsals and attendance rows. Each table is a `seq` of rows. `Schema.Valid` collects the constraints the migrations declare:
  - primary keys;
  - the unique email, which the `User` model declares (server/src/models/user.js:48);
  - unique (band, user) memberships;
  - unique (rehearsal, user) attendance rows;
  - every foreign key;
  - the 255-character limit of the VARCHAR columns. `Sequelize.STRING` is VARCHAR(255) on PostgreSQL, and the modelled ones are a rehearsal's title and recurrence pattern and a membership's instruments.

  The cascades the migrations attach to deleting a rehearsal, a venue, a user and a band are modelled too.
- **The two controllers.** Every action of the rehearsal and band controllers is a pure function from a store, the calling user and the request body to a `Step`. A `Step` is the HTTP outcome plus the store afterwards. Every mutating action is proved to preserve `Valid`. Each action checks its errors in the order the code does: 404 before 403, then 400, then the catch-all 500.
- **The client's two slices.** The `rehearsals` and `bands` reducers are pure functions over `{list, current, loading, error}`. Both share one generic `Slice` module.

How the model reads the source:

- **Request bodies.** Each property of a JSON body is a `Field`: absent, `null` or a value. `Domain.Or` and `Domain.IfDefined` spell out JavaScript's `x || old` and `x !== undefined ? x : old`.
- **Outcomes.** `Outcome` has `ServerError` for the controllers' catch-all 500. The model reaches it in these cases:
  - Sequelize refuses a NOT NULL column, an ENUM value, a value longer than its VARCHAR(255) column, or a foreign key.
  - A generated id collides with an existing one.
  - A `WHERE` is given an `undefined` value. This assumes Sequelize 6, which refuses `undefined` in a WHERE clause; `addMember` with no `email` is modelled as a 500 on that basis.
- **Inputs.** Fresh ids and the clock are parameters.
- **Authentication.** The `protect` middleware is replaced by the precondition that the calling user exists.

Modules:

- `domain.dfy`: ids, times, body fields, the two ENUMs and `Outcome`.
- `seqs.dfy`: the uniqueness predicate, filtering, `findIndex`, replacing the first match, and sorting.
- `schema.dfy`: the rows, the store, `Valid`, the lookups and the cascades.
- `rehearsals.dfy`: the rehearsal controller.
- `bands.dfy`: the band controller.
- `slice.dfy`, `rehearsals_slice.dfy`, `bands_slice.dfy`: the reducers.
- `scenarios.dfy`: properties that relate several actions.

## Model

| member | source | states |
|---|---|---|
| Domain.ParseStatus | database/migrations/20250623000006-create-attendance.js:31-35 | a status string is accepted only as the name of one of the three ENUM values |
| Domain.StatusRoundTrip | database/migrations/20250623000006-create-attendance.js:31-35 | exactly `attending`, `maybe` and `not_attending` are accepted, and each stored status reads back as itself |
| Domain.RoleRoundTrip | database/migrations/20250623000003-create-band-members.js:31-35 | exactly `admin` and `member` are accepted as roles, and each stored role reads back as itself |
| Schema.OneRowPerPair | database/migrations/20250623000006-create-attendance.js:55-60 | in a store that satisfies the unique constraints, a (rehearsal, user) pair has at most one attendance row and a (band, user) pair at most one membership row |
| Schema.RoleOfUnique | database/migrations/20250623000003-create-band-members.js:55-60 | because (band, user) is unique, the role lookup returns the role of the one membership row of that pair |
| Schema.DeleteRehearsalsWhereValid | database/migrations/20250623000006-create-attendance.js:11-20 | deleting rehearsals keeps the store valid; an attendance row survives exactly when its rehearsal does; no other table changes |
| Schema.DeleteVenueSetsNull | database/migrations/20250623000005-create-rehearsals.js:21-30 | deleting a venue removes exactly that venue, keeps every rehearsal, sets venueId to null on exactly those that used it, changes no other table, and keeps the store valid |
| Schema.DeleteUserCascades | database/migrations/20250623000006-create-attendance.js:21-30 | deleting a user removes exactly that user, the user's memberships, attendance rows and created rehearsals (with their attendance), keeps bands and venues, and keeps the store valid |
| Schema.DeleteBandCascadeValid | database/migrations/20250623000005-create-rehearsals.js:11-30 | deleting a band removes its memberships, venues and rehearsals and keeps the store valid; exactly the other bands, memberships and venues and all users remain; every other band's rehearsal survives, with venueId nulled when it used one of the deleted band's venues, and no other rehearsal does; an attendance row survives exactly when its rehearsal belongs to another band |
| Schema.DeleteBandSurvivors | database/migrations/20250623000005-create-rehearsals.js:11-30 | the rehearsals left after a band's deletion are exactly the other bands' rehearsals with the deleted venues cleared, and an attendance row survives exactly when its rehearsal belongs to another band |
| Rehearsals.GetBandRehearsals | server/src/controllers/rehearsalsController.js:9-37 | 403 exactly for a non-member; otherwise a permutation of exactly the band's rehearsals, in non-decreasing startTime, each with its venue and its attendance roster |
| Rehearsals.GetRehearsalById | server/src/controllers/rehearsalsController.js:49-86 | 404 exactly when the id is unknown, whoever asks; then 403 exactly for a non-member of the rehearsal's band; otherwise the stored rehearsal with its venue and roster |
| Rehearsals.CreateRehearsal | server/src/controllers/rehearsalsController.js:96-157 | 403 exactly for a non-admin; 500 exactly for a missing title or time, a title or recurrence pattern longer than 255 characters, an unknown venue or an id collision; no change unless Ok; on success the rehearsals table gains exactly the new row and the attendance table exactly the new roster; the row carries the body's title, times and venue with createdBy = the caller, description and recurrencePattern are the given values and null otherwise, isRecurring defaults to false when absent and is null when sent as null, and the roster is one `maybe` row per member at that moment, the caller's included; the reply carries the stored venue and the roster |
| Rehearsals.CreateRehearsalValid | server/src/controllers/rehearsalsController.js:108-134 | inserting the rehearsal and its fan-out keeps every constraint and makes the new rehearsal's roster exactly the fan-out |
| Rehearsals.FanOutRows | server/src/controllers/rehearsalsController.js:121-132 | the fan-out has a `maybe` row without comment for every member of the band, only for members, and one for the creator |
| Rehearsals.UpdateRehearsal | server/src/controllers/rehearsalsController.js:167-215 | 404 then 403 for a non-admin; a 500 exactly when a truthy new venue id is unknown, a truthy new title or a given recurrence pattern is longer than 255 characters; title, venue and both times change only on a truthy value, so venueId can never be cleared; description, isRecurring and recurrencePattern change whenever the property is present, null clearing them; no other row or table changes; the reply carries the row's venue and its roster |
| Rehearsals.PatchFits | database/migrations/20250623000005-create-rehearsals.js:31-54 | a stored rehearsal still fits its VARCHAR(255) columns after an update exactly when the update brings no over-long title or recurrence pattern |
| Rehearsals.UpdateRehearsalValid | server/src/controllers/rehearsalsController.js:184-192 | overwriting one rehearsal with the same id, band and creator keeps every constraint and leaves its roster alone |
| Rehearsals.DeleteRehearsal | server/src/controllers/rehearsalsController.js:225-241 | 404 then 403 for a non-admin, with no change; on success the rehearsal is gone, its roster is empty, and every other rehearsal and attendance row survives |
| Rehearsals.StatusOnSave | server/src/controllers/rehearsalsController.js:278-283 | saving an existing row accepts only a given ENUM name; an absent or null status is refused by NOT NULL |
| Rehearsals.StatusOnCreate | database/migrations/20250623000006-create-attendance.js:31-35 | an insert without a status takes the default `maybe`; null is refused; a given value must be an ENUM name |
| Rehearsals.Upsert | server/src/controllers/rehearsalsController.js:273-307 | the caller's own row is saved when it exists and created otherwise; a 500 exactly when the status is refused; on success that key has one row holding the new status and comment, a row was added only if none existed, every other row is unchanged, and the reply is the whole roster |
| Rehearsals.UpdateAttendance | server/src/controllers/rehearsalsController.js:253-307 | 404 then 403 for a non-member, then the upsert; the store stays valid and only the attendance table can change |
| Rehearsals.UpsertExisting | server/src/controllers/rehearsalsController.js:278-283 | rewriting the found row keeps the constraints, keeps its position and leaves every other key's rows as they were |
| Rehearsals.UpsertNew | server/src/controllers/rehearsalsController.js:284-292 | inserting the caller's first row keeps the constraints, places it last and leaves every other key's rows as they were |
| Bands.GetUserBands | server/src/controllers/bandsController.js:6-15 | every band in the store whoever asks, a permutation of the bands table, newest createdAt first, each with its membership rows |
| Bands.GetUserBandsIgnoresCaller | server/src/controllers/bandsController.js:4-13 | the listing does not depend on the caller: any two callers get the same bands |
| Bands.GetUserBandsComplete | server/src/controllers/bandsController.js:6-13 | each stored band appears in the listing together with its members |
| Bands.GetBandById | server/src/controllers/bandsController.js:25-43 | 404 exactly for an unknown id, then 403 exactly when the caller is not among the band's members; otherwise the band with its members, the caller among them |
| Bands.CreateBand | server/src/controllers/bandsController.js:53-69 | the band is stored with createdBy = caller and the given name and description, and the caller's `admin` membership is its only membership; an id collision is a 500 with no change |
| Bands.CreateBandValid | server/src/controllers/bandsController.js:56-67 | inserting the band and the creator's membership keeps every constraint |
| Bands.UpdateBand | server/src/controllers/bandsController.js:79-100 | 404 then 403 for a non-admin, with no change; name and description change only on a truthy value, so a description is never cleared; no other band or table changes |
| Bands.UpdateBandValid | server/src/controllers/bandsController.js:95-98 | overwriting a band with the same id keeps every constraint |
| Bands.DeleteBand | server/src/controllers/bandsController.js:110-128 | 404 then 403 for a non-admin, with no change; on success the band, its memberships, its venues and its rehearsals are gone, exactly the other bands, memberships and venues remain, and all users; every other band's rehearsal survives, its venueId nulled when it used one of the deleted band's venues, and no other rehearsal does; an attendance row survives exactly when its rehearsal belongs to another band |
| Bands.RoleOnCreate | server/src/controllers/bandsController.js:170-175 | a falsy role becomes `member`; a truthy one must be an ENUM name and is stored as itself |
| Bands.AddMember | server/src/controllers/bandsController.js:138-177 | 404 for an unknown band, 403 for a non-admin, 404 when no user has the email, 400 when the user is already a member, 500 for an absent email, a refused role or instruments longer than 255 characters; otherwise exactly one membership is appended for that user with the role defaulting to `member`, and nothing else changes |
| Bands.AddMemberValid | server/src/controllers/bandsController.js:169-175 | appending a membership for a user who is not yet a member keeps the constraints and gives the user that role |
| Slice.Initial | client/src/redux/slices/rehearsalsSlice.js:61-66 | the initial state has an empty list, nothing viewed, no loading and no error |
| Slice.Pending | client/src/redux/slices/rehearsalsSlice.js:83-86 | a pending case sets loading and clears the error, leaving the list and the viewed record alone |
| Slice.Rejected | client/src/redux/slices/rehearsalsSlice.js:91-94 | a rejected case stores the message as the error and stops loading, leaving the list and the viewed record alone |
| Slice.Loaded | client/src/redux/slices/rehearsalsSlice.js:87-90 | a fetched list replaces the list wholesale; the viewed record and the error stay |
| Slice.Opened | client/src/redux/slices/rehearsalsSlice.js:100-103 | fetched details become the viewed record; the list and the error stay |
| Slice.Appended | client/src/redux/slices/rehearsalsSlice.js:113-116 | the list grows by exactly one, the old list is its prefix and the created record is last |
| Slice.Replaced | client/src/redux/slices/rehearsalsSlice.js:126-133 | the update becomes the viewed record and replaces only the first list entry with its id; the list is unchanged when no id matches |
| Slice.ClearError | client/src/redux/slices/rehearsalsSlice.js:73-75 | only the error is nulled |
| Slice.ClearCurrent | client/src/redux/slices/rehearsalsSlice.js:76-78 | only the viewed record is nulled |
| Slice.PendingThenRejected | client/src/redux/slices/rehearsalsSlice.js:83-94 | a failed request leaves the list and the viewed record as before it started and reports its message |
| RehearsalsSlice.AttendanceSet | client/src/redux/slices/rehearsalsSlice.js:143-153 | the roster replaces the viewed rehearsal's attendance only when its id is the reply's, and only the first list entry with that id; everything else is unchanged |
| RehearsalsSlice.Reduce | client/src/redux/slices/rehearsalsSlice.js:72-158 | what each action changes and everything it leaves alone: pending, rejected, each fulfilled case and the two clearing actions |
| RehearsalsSlice.ClearingIdempotent | client/src/redux/slices/rehearsalsSlice.js:73-78 | clearing the error or the viewed rehearsal twice is the same as once |
| RehearsalsSlice.ViewFollowsServer | client/src/redux/slices/rehearsalsSlice.js:143-153 | after a successful attendance answer, a client that was viewing the rehearsal now views exactly what the server serves for it |
| BandsSlice.Listing | client/src/redux/slices/bandsSlice.js:87-90 | a fetched listing is stored entry for entry |
| BandsSlice.Reduce | client/src/redux/slices/bandsSlice.js:72-150 | what each action changes and everything it leaves alone; an invitation only stops loading |
| BandsSlice.ClearingIdempotent | client/src/redux/slices/bandsSlice.js:73-78 | clearing the error or the viewed band twice is the same as once |
| BandsSlice.ListFollowsServer | client/src/redux/slices/bandsSlice.js:113-116 | after fetching the listing and then creating a band, the client's list holds exactly the server's bands |
| Scenarios.CreateThenRead | server/src/controllers/rehearsalsController.js:137-157 | an admin with a title, both times and a known or absent venue creates successfully, and what createRehearsal answers is what getRehearsalById then serves the creator |
| Scenarios.AttendanceRepeat | server/src/controllers/rehearsalsController.js:273-292 | repeating an attendance answer that carries a status changes neither the store nor the reply |
| Scenarios.AttendanceWithoutStatus | server/src/controllers/rehearsalsController.js:278-291 | without a status, the first answer inserts a `maybe` row and the second fails on save |
| Scenarios.AddMemberTwice | server/src/controllers/bandsController.js:160-167 | inviting the same email twice answers 400 the second time and adds nothing |
| Scenarios.CreateBandThenRead | server/src/controllers/bandsController.js:56-67 | the creator can read the new band at once, as its admin and only member |
| Scenarios.TimesUnordered | database/migrations/20250623000005-create-rehearsals.js:39-46 | a rehearsal that ends before it starts is accepted and stored as given |
| Scenarios.DeleteThenRead | server/src/controllers/bandsController.js:110-128 | after a successful delete of a band or a rehearsal, reading it answers 404 to anyone |

## Left out

- **Authentication.** JWT, bcrypt and the `protect` middleware are not modelled. The caller is a trusted user id that exists in the users table.
- **Asynchrony.** Sequelize's asynchrony and the missing transactions are not modelled. `createBand` and `createRehearsal`, with its `Promise.all` fan-out, are each one atomic step. Concurrent requests are not modelled.
- **Failures outside the constraints.** Database and connection failures other than constraint violations are not modelled. Neither are malformed UUIDs. Ids are compared as opaque strings.
- **Time.** `respondedAt`, `joinedAt` and every `createdAt`/`updatedAt` except the band's `createdAt` are dropped. Times are integers, and 0 stands for a falsy time in an update. Date parsing of JSON strings is not modelled.
- **Includes.** The user columns of the `user` and `members` includes (first and last name, email) are not modelled: a band's members appear as their membership rows. The `band` include of `getRehearsalById` is also left out.
- **Unmodelled tables.** The Bands table definition is not part of this model. Band name and description are therefore stored as given, with no constraint, and a band's `createdBy` is not treated as a foreign key. The own UUID ids of membership and attendance rows are not modelled either, because rows are keyed by their unique pair.
- **Row order.** PostgreSQL fixes no order for `findAll` without ORDER BY, which is how rosters and member lists are read. The model assumes table order: rows in insertion order, and a row that `save()` rewrites keeps its place. The roster of `getRehearsalById`, `createRehearsal` and `updateAttendance` and the members of a band are stated as sequences in that order. The contracts below state an exact order that the program does not promise. Up to the order of the roster, what they state is what the program does.
- Rehearsals.Upsert: the reply is stated as the roster in table order.
- Rehearsals.UpsertExisting: the rewritten row is stated to keep its position in the table.
- Scenarios.CreateThenRead: the roster served by the later `getRehearsalById` is stated equal, as a sequence, to the one the create answered. In the program, the fan-out goes through `Promise.all`, and the two reads may list the same rows in different orders.
- Scenarios.AttendanceRepeat: the repeated reply is stated equal as a sequence. In the program the second roster may list the same rows in another order.
- RehearsalsSlice.ViewFollowsServer: the client's view and the next `getRehearsalById` are stated equal as sequences. In the program their attendance lists may differ in order.
- **Ties in ORDER BY.** When several rehearsals share a start time, or several bands a `createdAt`, the order among them is not fixed. Those contracts state only the ordering and the permutation.
- Rehearsals.CreateRehearsal: takes the body's `bandId` as a given string. An absent `bandId`, which makes the membership lookup fail, is not modelled.
- **Client thunks.** The thunks and their axios services are left out, including how a rejection builds its message. The reducers take payloads as given.
- **Other parts of the system.** Resources, the venue controller, server wiring, routes and configuration are left out. Venues exist only as rows that rehearsals may point to.
