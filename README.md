# Reservation backend — a Dafny model

This project models the core of a small Express/Mongoose reservation backend for a salon.

- **Appointments.** Guests and members book appointments for a day and an `"HH:MM"` time label. A unique index on `(date, time)` keeps two bookings out of the same slot.
  - Members list their own appointments, newest first.
  - Admins list every appointment with the owner's contact details filled in.
  - Anyone can ask which days are fully booked (ten or more appointments) and which labels are taken on a given day.
  - An appointment's status moves among `Beklemede`, `Onaylandı` and `Tamamlandı`.
- **Accounts.** Registration checks the fields, the e-mail shape, the phone shape and that the e-mail is unused. Login answers alike for an unknown e-mail and a wrong password. Deleting an account deletes its appointments first.
- **The `protect` gate.** It reads a bearer token from the `Authorization` header and resolves it to a user. `admin` then lets only admins through.
- **Products.** The product handlers keep an in-memory cache of two maps: the cached listings and their pending expiry timers. Adding or deleting a product invalidates the cache; updating one does not.

The database is an in-memory collection:

- `AppointmentStore.Store` for appointments;
- `Accounts.UserTable` for users;
- `ProductCatalog.ProductService` for products and the cache.

Each of these is a class whose methods update its fields in place. Two handlers are methods outside these classes: `Accounts.DeleteAccount` updates the appointment store and then the user table, and `AuthGate.Protect` takes the token check as a parameter. The rest are pure functions over the stored records.

The modules:

- `Common` holds `Option`, `Result` and JavaScript truthiness for optional strings.
- `Strings` holds the string built-ins the handlers rely on: `split` on one character, `startsWith`, and `parseInt(_, 10)` with its whitespace skipping, sign and longest digit prefix. `Split` and `Join` are proved inverse to each other.
- `UserModel` holds the user record and the `findById` / `findOne({ email })` lookups.
- `AppointmentModel` holds the schema: status labels, owner, the `Date` value, `setHours` and the unique-slot invariant.
- `AppointmentQueries` holds the read-only handlers.
- `AppointmentStore` holds create, update, delete and delete-by-owner.
- `Accounts` holds the registration validators, register, login and account deletion.
- `AuthGate` holds `protect` and `admin`.
- `ProductCatalog` holds the product handlers and their cache.

A JavaScript `Date` is modelled as a day number plus hour, minute, second and millisecond of that day, all within range. `Instant` gives its position in milliseconds. Days are abstract civil-day numbers: the year/month/day calendar and time zones are not modelled, as listed below.

Every failure the create handler meets ends in its `catch` and answers 500. `Cause` records why:

- a `TypeError` from `time.split` or `req.user._id`;
- a schema validation error;
- a duplicate key on the unique index.

Two consequences of the index comparing whole instants and raw labels are proved as lemmas:

- A second booking of the same day and label escapes the index when its submitted date carries other milliseconds (`setHours(h, m, 0)` keeps them).
- It also escapes under the unpadded label `"9:5"` for the slot `"09:05"`. That label books the very same instant.

## Model

| member | source | states |
|---|---|---|
| Strings.Split | src/controllers/appointmentController.js:30 | `split(':')` yields at least one part and no part contains the separator |
| Strings.JoinSplit | src/middleware/authMiddleware.js:10 | joining the parts of a split with the separator gives back the original string |
| Strings.SplitJoin | src/middleware/authMiddleware.js:10 | splitting a join of separator-free parts gives back exactly those parts |
| Strings.IndexOf | src/controllers/appointmentController.js:30 | the position found holds the separator and is its first occurrence |
| Strings.Field | src/middleware/authMiddleware.js:10 | `split(sep)[i]` is free of the separator; on a string without the separator, field 0 is the whole string and every other field is `undefined` |
| Strings.StartsWith | src/middleware/authMiddleware.js:9 | `startsWith(prefix)` holds exactly when the string is the prefix followed by some rest |
| Strings.TrimStart | src/controllers/appointmentController.js:31 | `parseInt` skips exactly the leading whitespace: everything dropped is whitespace, and what remains is a suffix that does not start with whitespace |
| Strings.DigitRun | src/controllers/appointmentController.js:31 | the digit run `parseInt` reads is all digits and is not followed by a digit |
| Strings.ParseInt | src/controllers/appointmentController.js:31 | `parseInt(_, 10)` is `NaN` unless the string holds a digit; a string starting with a digit reads as the value of its leading digit run |
| Strings.ParseIntDigitsPrefix | src/controllers/appointmentController.js:31 | `parseInt` of a digit string followed by a non-digit is the digits' decimal value |
| Strings.ParseIntDecimal | src/controllers/appointmentController.js:31 | `parseInt` of a number's decimal rendering gives the number back |
| Strings.DecimalValueOfDecimal | src/controllers/appointmentController.js:31 | reading a number's decimal rendering gives the number back |
| Strings.ParseIntPad2 | src/controllers/appointmentController.js:31 | `parseInt` of a two-digit zero-padded rendering gives the number back |
| Strings.Pad2Value | src/controllers/appointmentController.js:31 | a two-digit zero-padded rendering denotes the number rendered |
| UserModel.FindById | src/middleware/authMiddleware.js:21 | the user returned has the id asked for; none is returned exactly when no user has that id |
| UserModel.FindByEmail | src/controllers/authController.js:43 | the user returned has the e-mail asked for; none is returned exactly when no user has that e-mail |
| AppointmentModel.ParseStatus | src/models/Appointment.js:29-33 | a label is accepted exactly when it is one of the three enum values, and maps to the status whose label it is |
| AppointmentModel.StatusLabelRoundTrip | src/models/Appointment.js:29-33 | every status's label is in the enum and reads back as that status |
| AppointmentModel.InstantOrdersDays | src/models/Appointment.js:14-17 | an earlier day is an earlier instant; two dates share an instant only when they are equal |
| AppointmentModel.SetHours | src/controllers/appointmentController.js:29-31 | `setHours(h, m, 0)` moves to `h*60+m` minutes after the day's midnight, seconds 0, milliseconds kept |
| AppointmentModel.SetHoursWithinDay | src/controllers/appointmentController.js:31 | for an in-range hour and minute the date keeps its day and takes that hour and minute |
| AppointmentModel.ParseTime | src/controllers/appointmentController.js:30-31 | an empty label never yields an hour and minute |
| AppointmentModel.SlotLabelParses | src/controllers/appointmentController.js:30-31 | a zero-padded `"HH:MM"` label reads back as its hour and minute |
| AppointmentModel.UnpaddedLabelParses | src/controllers/appointmentController.js:30-31 | a label without zero padding reads back as the same hour and minute |
| AppointmentModel.UserRef | src/models/Appointment.js:4-8 | a record has a user reference exactly when it is not a guest's, and then it is the owning member |
| AppointmentModel.SlotTaken | src/models/Appointment.js:43 | the index lookup finds the key `(date, time)` exactly when some record holds both |
| AppointmentModel.UniqueSlots | src/models/Appointment.js:43 | no two records share `(date, time)`, which is the same as every record having found its key free when inserted in order |
| AppointmentModel.PairwiseIffFreeInsertions | src/models/Appointment.js:43 | pairwise distinct keys and keys free at each insertion are equivalent |
| AppointmentQueries.InsertByDate | src/controllers/appointmentController.js:7 | inserting into a newest-first list keeps it newest first and adds exactly the one record |
| AppointmentQueries.SortNewestFirst | src/controllers/appointmentController.js:7 | `sort({ date: -1 })` yields a newest-first permutation of the records |
| AppointmentQueries.OwnedBy | src/controllers/appointmentController.js:6 | `find({ user })` keeps exactly the records that member owns, each as many times as it is stored, and no other record |
| AppointmentQueries.ListForUser | src/controllers/appointmentController.js:4-21 | without a user the handler fails with 500; otherwise it lists exactly the caller's records, newest first, each as many times as it is stored |
| AppointmentQueries.OrElse | src/controllers/appointmentController.js:100-102 | `value \|\| fallback`: a present, non-empty value is returned as is; a missing or empty one gives the fallback |
| AppointmentQueries.Format | src/controllers/appointmentController.js:79-111 | a row keeps the record's id, date, time, service, notes and status; it is a guest row exactly when the record is a guest's, showing the guest info (absent fields when there is none); a member row shows the user's name, e-mail and phone, each replaced by `Silinmiş Kullanıcı` or `Bilgi Yok` when the user is gone or the field is empty |
| AppointmentQueries.OrphanShowsFallbacks | src/controllers/appointmentController.js:98-102 | a member record whose user is gone shows `Silinmiş Kullanıcı` and `Bilgi Yok` |
| AppointmentQueries.MemberShowsProfile | src/controllers/appointmentController.js:98-102 | a member record whose user has all contact fields shows that user's name, e-mail and phone, as a member row |
| AppointmentQueries.GuestWithoutInfoStaysGuest | src/controllers/appointmentController.js:81-94 | a guest booking sent without `guestInfo` is still listed as a guest row, with no contact fields |
| AppointmentQueries.FormatAll | src/controllers/appointmentController.js:79 | the `map` builds one row per record, row i being the formatted record i |
| AppointmentQueries.ListAll | src/controllers/appointmentController.js:66-124 | only an admin gets the list (no user: 500, non-admin: 403); it has one row per record, every record's row, no other rows, newest first |
| AppointmentQueries.SameMembers | src/controllers/appointmentController.js:75-77 | a permutation of the records has the same length and the same members |
| AppointmentQueries.CountOn | src/controllers/appointmentController.js:197-208 | a day's count never exceeds the number of records |
| AppointmentQueries.Days | src/controllers/appointmentController.js:197-208 | the grouping lists each day once, exactly the days holding a record |
| AppointmentQueries.FullDays | src/controllers/appointmentController.js:211-212 | the filter keeps exactly the grouped days with at least ten records, each once |
| AppointmentQueries.BookedDates | src/controllers/appointmentController.js:194-229 | the answer lists midnights only, each once, and a day's midnight exactly when it holds at least ten appointments |
| AppointmentQueries.BookedTimes | src/controllers/appointmentController.js:232-262 | an invalid date fails with 500; otherwise at most one label per record |
| AppointmentQueries.TimesOn | src/controllers/appointmentController.js:249 | one label per record of that day, and exactly the labels booked on that day |
| AppointmentQueries.InDayWindow | src/controllers/appointmentController.js:238-246 | a stored date falls in the `[00:00:00, 23:59:59]` window exactly when it is on that day |
| AppointmentQueries.TimesBetweenIsTimesOn | src/controllers/appointmentController.js:242-249 | the range query over the day's window returns exactly that day's labels in store order |
| AppointmentQueries.BookedTimesOfDay | src/controllers/appointmentController.js:232-262 | for a valid date the answer is the labels of that day, one per appointment |
| AppointmentQueries.FullyBookedIffTenTimes | src/controllers/appointmentController.js:210-212 | a day is reported fully booked exactly when its booked-times answer has at least ten labels |
| AppointmentQueries.TimesBetween | src/controllers/appointmentController.js:242-249 | at most one label per record, and a label is listed exactly when some record in the date range holds it |
| AppointmentStore.BookedDate | src/controllers/appointmentController.js:29-31 | a date is produced only from a non-empty time label, and has seconds 0 |
| AppointmentStore.CreateFailure | src/controllers/appointmentController.js:24-63 | one if-and-only-if per outcome, in the handler's order: a `TypeError` exactly for a missing time or a member booking without a caller; otherwise a validation failure exactly for an invalid date or a missing service; otherwise a duplicate key exactly when some record holds the slot; otherwise success |
| AppointmentStore.IsBooking | src/controllers/appointmentController.js:33-47 | a booked record is pending, has seconds 0 and a non-empty label, and is a guest's exactly when the request says so |
| AppointmentStore.BookingShape | src/controllers/appointmentController.js:33-47 | a booked record is pending, a guest's exactly when the request says so (with its guest info, no user), else the caller's, which keeps the schema's default `isGuest: false`; for an in-range label it lies on the requested day at that hour and minute |
| AppointmentStore.MillisecondsEscapeUniqueIndex | src/models/Appointment.js:43 | a same-day, same-label request with other milliseconds gets a different stored date, which the unique index does not see as taken |
| AppointmentStore.UnpaddedLabelEscapesUniqueIndex | src/models/Appointment.js:43 | an unpadded label books the very instant of the padded one, and the index does not see it as taken |
| AppointmentStore.IndexOfId | src/controllers/appointmentController.js:140-144 | the index found holds the id; none exactly when no record has it |
| AppointmentStore.RequestedStatus | src/controllers/appointmentController.js:129-138 | a truthy label outside the enum is refused; a falsy one changes nothing; an accepted label is the status's label |
| AppointmentStore.StoredLabelAsWritten | src/controllers/appointmentController.js:129-144 | as written: a truthy label outside the enum is refused; an absent status keeps the current label; `null` stores `null`; any other string, `""` included, is stored as given |
| AppointmentStore.EmptyStatusLeavesEnum | src/controllers/appointmentController.js:133-144 | as written, the status `""` is stored although it is not an enum value, and a `null` status stores `null` |
| AppointmentStore.RequestedStatusKeepsEnum | src/controllers/appointmentController.js:129-144 | the corrected update always leaves an enum status and agrees with the handler on every input but `""` and `null` |
| AppointmentStore.WithoutOwner | src/controllers/authController.js:131 | `deleteMany({ user })` keeps exactly the records not owned by that member, and keeps slots and ids unique |
| AppointmentStore.UniqueTail | src/models/Appointment.js:43 | the tail of a unique collection is unique and does not clash with its head |
| AppointmentStore.UniqueCons | src/models/Appointment.js:43 | adding a record that clashes with no other keeps the collection unique |
| AppointmentStore.RemoveAtKeepsUnique | src/controllers/appointmentController.js:170 | removing one record keeps slots and ids unique and drops exactly that id |
| AppointmentStore.AppendKeepsUnique | src/models/Appointment.js:43 | inserting a record into a free slot with a fresh id keeps the index unique |
| AppointmentStore.SetStatusKeepsUnique | src/controllers/appointmentController.js:140-144 | changing one record's status keeps slots and ids unique and brings in no other record |
| AppointmentStore.Store.constructor | src/models/Appointment.js:1-45 | an empty collection satisfies the invariant |
| AppointmentStore.Store.Create | src/controllers/appointmentController.js:24-63 | fails with 500 exactly when the handler throws or the store refuses (missing time, no caller, invalid date, missing service, slot taken), changing nothing; otherwise appends the booking and keeps slots unique |
| AppointmentStore.Store.UpdateStatus | src/controllers/appointmentController.js:127-165 | 400 for a bad label, 404 for an unknown id, otherwise only that record's status changes; a falsy label leaves it, as corrected under Findings |
| AppointmentStore.Store.Delete | src/controllers/appointmentController.js:168-191 | 404 leaves the store alone; otherwise exactly the record with that id is removed |
| AppointmentStore.Store.DeleteOwnedBy | src/controllers/authController.js:131 | afterwards no record belongs to the member and every other record stays |
| Accounts.IsEmail | src/controllers/authController.js:25-26 | the e-mail check accepts exactly the strings of the pattern: non-space non-`@` text, `@`, then text with a dot strictly inside |
| Accounts.ScanEmailMatchesPattern | src/controllers/authController.js:25-26 | the two scans (for the `@`, then for a `.` after it) accept exactly what the pattern matches |
| Accounts.IsPhone | src/controllers/authController.js:34-35 | the phone check accepts exactly ten or eleven ASCII digits |
| Accounts.PhoneExamples | src/controllers/authController.js:34-35 | an eleven-digit and a ten-digit number pass |
| Accounts.NotPhoneExamples | src/controllers/authController.js:34-35 | a `+`, a space or nine digits fail |
| Accounts.RegisterFailure | src/controllers/authController.js:17-49 | registration passes exactly when all fields are truthy, the e-mail and phone are well-formed and the e-mail is unused; each refusal (missing field, bad e-mail, bad phone, e-mail taken) happens exactly when the checks before it pass and its own fails; every refusal is a 400 |
| Accounts.MissingFieldsFirst | src/controllers/authController.js:17-22 | a missing field is reported before any format check |
| Accounts.Login | src/controllers/authController.js:76-125 | an unknown e-mail is refused with 401; with unique e-mails login succeeds exactly when that user's password matches, and returns that user |
| Accounts.LoginFailuresAlike | src/controllers/authController.js:82-96 | an unknown e-mail and a wrong password get the same answer |
| Accounts.WithoutUser | src/controllers/authController.js:134 | deleting by id keeps exactly the other users and keeps ids and e-mails unique |
| Accounts.UniqueUsersCons | src/controllers/authController.js:134 | re-adding the head to a unique sub-list of its tail keeps users unique |
| Accounts.UserTable.constructor | src/controllers/authController.js:12-73 | an empty table satisfies the invariant |
| Accounts.UserTable.Register | src/controllers/authController.js:12-73 | refuses exactly as the checks say, changing nothing; otherwise appends the user with role `user` and keeps ids and e-mails unique |
| Accounts.DeleteAccount | src/controllers/authController.js:128-146 | without a user, 500 and nothing changes; otherwise the member's appointments go, then the member, and nothing else |
| AuthGate.BearerToken | src/middleware/authMiddleware.js:9-11 | a token exists only under a `Bearer` prefix, is the second space-separated field, non-empty and space-free, and exists whenever that field is truthy |
| AuthGate.BearerTokenOf | src/middleware/authMiddleware.js:9-11 | `"Bearer <t> ..."` yields `t` |
| AuthGate.BareBearerHasNoToken | src/middleware/authMiddleware.js:9-18 | a bare `"Bearer"` header yields no token |
| AuthGate.DoubleSpaceHasNoToken | src/middleware/authMiddleware.js:9-18 | `"Bearer  x"` (two spaces) yields no token, since its second field is empty |
| AuthGate.OtherSchemeHasNoToken | src/middleware/authMiddleware.js:9-18 | a header with another scheme yields no token |
| AuthGate.JoinStartsWithHead | src/middleware/authMiddleware.js:9 | a joined header starts with its first field |
| AuthGate.AllSpaceFree | src/middleware/authMiddleware.js:10 | the fields of a header built from space-free parts are space-free |
| AuthGate.Protect | src/middleware/authMiddleware.js:5-30 | no token: 401; a token that fails to verify: 401; otherwise passes with the looked-up user, possibly none |
| AuthGate.Admin | src/middleware/authMiddleware.js:32-41 | passes exactly a present user with role `admin`; refuses with 403 |
| ProductCatalog.NewestFirst | src/controllers/productController.js:86 | `sort({ createdAt: -1 })` is the reverse of insertion order |
| ProductCatalog.PublicListing | src/controllers/productController.js:84-88 | at most twenty products, and they are the newest, newest first |
| ProductCatalog.AdminListing | src/controllers/productController.js:196-199 | every product, none dropped, newest first: position i holds the i-th newest product |
| ProductCatalog.ReversalSameElements | src/controllers/productController.js:196-199 | reversing keeps exactly the same products |
| ProductCatalog.HasAllFields | src/controllers/productController.js:22-24 | the fields check passes exactly when name, description, price, category and stock are all present and non-empty |
| ProductCatalog.IndexOfProduct | src/controllers/productController.js:129-135 | the index found holds the id; none exactly when no product has it |
| ProductCatalog.RemoveProductAt | src/controllers/productController.js:158 | removing one product keeps ids unique and drops exactly that id |
| ProductCatalog.ProductService.constructor | src/controllers/productController.js:6-9 | both cache maps start empty |
| ProductCatalog.ProductService.ClearCache | src/controllers/productController.js:12-15 | removes the key from both maps and leaves every other entry unchanged |
| ProductCatalog.ProductService.Expire | src/controllers/productController.js:94 | a firing timer clears its key from both maps |
| ProductCatalog.ProductService.InvalidateCache | src/controllers/productController.js:222-227 | every key with a pending timer leaves both maps; both maps end empty, since they always share their keys |
| ProductCatalog.ProductService.Serve | src/controllers/productController.js:75-95 | a hit returns the cached value and changes nothing; a miss stores the fresh listing and a new timer under the same key |
| ProductCatalog.ProductService.GetProducts | src/controllers/productController.js:70-108 | a hit returns the cached list and changes nothing; a miss caches the newest twenty with a five-minute timer under the next timer handle; products and the id counter never change |
| ProductCatalog.ProductService.GetAdminProducts | src/controllers/productController.js:182-219 | a hit returns the cached list and changes nothing; a miss caches every product with a one-minute timer under the next timer handle; products and the id counter never change |
| ProductCatalog.ProductService.AddProduct | src/controllers/productController.js:18-67 | 400 exactly when a field is missing or empty, with nothing saved or invalidated; otherwise appends the product under the next id, advances the id counter and empties the cache; the timer handle counter is untouched |
| ProductCatalog.ProductService.UpdateProduct | src/controllers/productController.js:124-153 | 404 for an unknown id; otherwise only that product's price and stock change, in place; the cache and both counters are left as they were |
| ProductCatalog.ProductService.DeleteProduct | src/controllers/productController.js:156-179 | 404 leaves products and cache alone; otherwise the product with that id is cut out, the others keeping their order, and the cache is emptied; both counters are left as they were |

## Left out

- Time zones and daylight saving: a `Date` is a day number and a local time of day. `new Date(y, m, d)` and `$year`/`$month`/`$dayOfMonth` are assumed to agree on the day.
- The year/month/day calendar: `getFullYear`/`getMonth`/`getDate` and the aggregation's grouping key are the abstract day number.
- Date parsing: `new Date(date)` is given to the handlers as an already valid `Date` or as `None` for an invalid one. The range limits of JavaScript dates are not modelled.
- ObjectId casting: ids are natural numbers. A malformed id, which makes `findById` throw a 500 cast error, is not modelled.
- `populate`: in the per-user listing the populated user fields are not modelled. In the admin listing they are the user lookup used by `Format`.
- Password hashing and JWT: `matchPassword` and `jwt.verify` are parameters (a predicate and a partial function). Token issue and expiry are not modelled. `src/models/User.js` is not part of this model.
- `Number(price)` and `Number(stock)`: price and stock are kept as the submitted text. The cast failure that would end in a 500 is not modelled.
- ProductCatalog.ProductService.UpdateProduct: a missing price or stock fails the schema's required check with a 500. The model takes both as present strings.
- Product images: the base64 encoding of an uploaded file is not modelled.
- `getProductById`: a single lookup with no cache and no state change. It is covered by `IndexOfProduct`, but no handler of its own is modelled.
- Timers and concurrency: `setTimeout` is a `Timer` record and its firing is the explicit `Expire`. Interleavings of concurrent requests are not modelled.
- Request bodies whose fields are not strings (numbers, arrays, objects) are not modelled. Fields are `Option<string>`, with `None` for absent or null. The one place where the handler treats the two differently, the stored status of an update, models them apart (`BodyField`).
- Mongoose 6 and later is assumed: an `undefined` field in an update document is dropped, so an absent status changes nothing.
- Accounts.Login: a body without an e-mail, which the handler looks up as `undefined`, is not modelled. The model takes the e-mail as a string.
- Route wiring and the `admin` gate placement (`src/routes/*.js`) are not modelled. So update and delete of appointments are modelled as allowed to any authenticated caller, as written.
- Timestamps: `timestamps: true` (src/models/Appointment.js:39) adds `createdAt` and `updatedAt`, and the admin listing returns `createdAt` in each row. The model has no clock, so rows carry no `createdAt`.
- Logging (`console.log`/`console.error`) and response bodies beyond the status code and the data returned are not modelled.

## Findings

| source | as written | input that shows it | evidently intended | confidence | as-written member | corrected member |
|---|---|---|---|---|---|---|
| src/controllers/appointmentController.js:133-144 | the status check only runs for a truthy `status`, and `findByIdAndUpdate` runs no validators, so `{ status: "" }` stores `""` and `{ status: null }` stores `null` | body `{ "status": "" }` or `{ "status": null }` on an existing appointment | a falsy status is either refused or leaves the status unchanged, so the stored status stays one of the three enum values | medium, not executed | AppointmentStore.EmptyStatusLeavesEnum | AppointmentStore.RequestedStatusKeepsEnum |
