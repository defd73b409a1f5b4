# Barbershop queue service: a Dafny model of its booking engine

This project models the core of a barbershop queue service written for Node.js with Express and
SQLite. A signed-in user joins today's queue at a barbershop. The service gives them the next
half-hour slot and a queue number. The owner of a barbershop (a barber) lists the day's
bookings, marks them completed, moves them to tomorrow and reads a short history. An admin
creates, edits and deactivates barbershops and manages user roles. Three middleware gates
guard the routes. Dates are Tashkent dates (UTC+05:00) or UTC dates, depending on the route.

Modules, one per part of the program:

- `Text`, `JsValues`: the JavaScript semantics the handlers rely on. This covers truthiness,
  `Number(x)`, `parseInt`, `===`, `??`, `trim`, property lookup with `undefined`, and the
  integer a value matches once it is bound to `WHERE id = ?`.
- `Queries`: `.get()` (the first matching row in rowid order), `.all()` (a filter), `COUNT(*)`,
  `ORDER BY` (a stable sort, proved sorted and a permutation) and `UPDATE ... WHERE id = ?`.
- `Store`: the four tables of `src/db.js`, held in a class `Db` whose route methods update its
  sequence fields in place. `Db.Valid()` says that keys are unique, keys are below the
  AUTOINCREMENT counters, and stored times are times of day.
- `Calendar`: `src/utils/timezone.js`. Day numbers are counted from 1970-01-01. There is a
  proved conversion between day numbers and Gregorian dates. `Date.UTC` is modelled with day
  overflow and with the range of time values, ±8.64e15 ms, beyond which it gives NaN. The
  `formatToParts`/`reduce` fold, `getUzbekistanDate` and `getUzbekistanDateTime` are modelled
  too. Each returns None where `formatToParts` throws a RangeError on an invalid date.
- `Tokens`: `src/utils/token.js`. `cleanToken` is a method with its `while` loop, proved
  against a specification function, and the two candidate searches are modelled.
- `Middleware`: the three gates of `src/middleware/`. `verify` is a parameter.
- `ShopEdit`: the field/value lists both barbershop editors push, one column at a time, and the
  `UPDATE barbershops SET ...` statement they build.
- `Booking`: `src/routes/appointments.js`, which books the next slot and lists a user's own
  bookings.
- `BarberRoutes`, `ShopRoutes`, `AdminRoutes`: `src/routes/barber.js`,
  `src/routes/barbershops.js` and `src/routes/admin.js`.
- `Findings`: the caller id that the barber and admin gates lose (see "## Findings").

**Representation choices.**
- **Dates and times.** A stored `appointment_date` is a day number. `appointment_time` is the
  number of minutes after midnight. Both text orders are proved to agree with the numeric
  orders: `TimeTextOrder` for times. For dates with four-digit years, `ParseIsoDateSpec` covers equality
  and `IsoDateOrder` covers order.
- **Instants.** Instants are integers of milliseconds, passed in as `now`.
- **Identities.** `req.user` is passed to the route methods as the map a gate produced. The
  user id of `POST /appointments` is the `sub` the auth gate supplies.

## Model

| member | source | states |
|---|---|---|
| Calendar.DatePartsInTimeZoneFacts | src/utils/timezone.js:3-21 | Only the year, month and day parts survive the fold, and `formatIsoDate` of them is the Tashkent date of the instant as `YYYY-MM-DD` (year unpadded, month and day two digits) |
| Calendar.CollectPartsDropsUnkept | src/utils/timezone.js:11-16 | A part type the reducer does not keep, such as the literal separators, never reaches the accumulator |
| Calendar.CollectPartsValue | src/utils/timezone.js:55-67 | A kept part type that occurs once gets exactly that part's value |
| Calendar.CollectPartsUntouched | src/utils/timezone.js:11-16 | A part type absent from the parts keeps the value it had |
| Calendar.CivilFromDays | src/utils/timezone.js:29-38 | Every day number is the day number of a valid Gregorian date |
| Calendar.DaysFromCivilInjective | src/utils/timezone.js:29-38 | Distinct valid dates have distinct day numbers |
| Calendar.DaysFromCivilInverse | src/utils/timezone.js:29-38 | Every valid date is the date of its own day number |
| Calendar.ShiftCompose | src/utils/timezone.js:29-38 | Shifting a date by a days and then by b days is shifting it by a + b days |
| Calendar.ShiftInverse | src/utils/timezone.js:29-38 | Shifting a valid date by n days and back by n days returns it |
| Calendar.ShiftByOneIsSuccessor | src/utils/timezone.js:29-38 | A one-day shift rolls day, month and year over by month lengths and Gregorian leap years |
| Calendar.DateUtcNoon | src/utils/timezone.js:29-38 | `Date.UTC(y, m-1, d+n, 12, 0, 0)` of a valid date with year >= 100 is 12:00 UTC of the day n days later, and NaN when that instant lies beyond ±8.64e15 ms |
| Calendar.ShiftedInstantNoon | src/utils/timezone.js:27-38 | The instant `getUzbekistanDate` builds is 12:00 UTC of the Tashkent day of `baseDate` plus n, or NaN outside the range of time values |
| Calendar.NoonDate | src/utils/timezone.js:34-40 | Re-reading an instant anchored at 12:00 UTC (17:00 in Tashkent) gives the date of the day that was constructed |
| Calendar.TashkentDayVersusUtcDay | src/utils/timezone.js:1 | The Tashkent day is the UTC day, or the next day from 19:00 UTC on |
| Calendar.GetUzbekistanDateToday | src/utils/timezone.js:27-41 | `getUzbekistanDate(0, t)` is the Tashkent date of t when t and noon of that day are valid dates, and throws otherwise (for Tashkent years from 100 on) |
| Calendar.GetUzbekistanDateShifts | src/utils/timezone.js:27-41 | `getUzbekistanDate(n, t)` answers exactly when t and 12:00 UTC of the Tashkent day of t plus n lie within ±8.64e15 ms, and throws a RangeError otherwise. When it answers, it is the date exactly n days after the Tashkent date of t |
| Calendar.PresentDayInRange | src/utils/timezone.js:27-41 | For an instant in a four-digit Tashkent year, `getUzbekistanDate(n, t)` answers for every shift of at most a million days |
| Calendar.GetUzbekistanDateTomorrow | src/utils/timezone.js:27-41 | `getUzbekistanDate(1, t)` is the calendar successor of the Tashkent date of t when that noon is a valid date, and throws otherwise (for Tashkent years from 100 on) |
| Calendar.GetUzbekistanDateTimeShape | src/utils/timezone.js:43-70 | `getUzbekistanDateTime(t)` answers exactly for valid dates and is then the Tashkent date, `T`, the Tashkent wall-clock `HH:MM:SS` and `+05:00` |
| Calendar.GetUzbekistanDateTimeDatePart | src/utils/timezone.js:43-70 | The date part of that timestamp is `getUzbekistanDate(0, t)` whenever that answers (for Tashkent years from 100 on) |
| Calendar.IsoDateLayout | src/utils/timezone.js:19-21 | For four-digit years the date text is ten characters, with dashes at positions 4 and 7, digits elsewhere, and fields that read back as the date |
| Calendar.ParseIsoDateSpec | src/routes/barber.js:231 | A `YYYY-MM-DD` text matches a day exactly when it is that day's date text, so the text comparison with `DATE(appointment_date)` compares days |
| Calendar.IsoDateOrder | src/routes/barber.js:418-419 | For four-digit years, one date text is at most another in text order exactly when its day number is at most the other's. So `DATE(appointment_date) >= ?` and `ORDER BY appointment_date` compare day numbers |
| Calendar.IsoDateTextOrder | src/routes/barber.js:418-419 | For valid dates with four-digit years, the text order of `YYYY-MM-DD` is calendar order: year, then month, then day |
| Calendar.DateOrderIsDayOrder | src/routes/barber.js:418-419 | Calendar order of two dates is the order of their day numbers, in both directions |
| Tokens.Clean | src/utils/token.js:1-20 | The loop that trims, strips `Bearer` prefixes while one is left and unquotes computes `CleanToken` |
| Tokens.CleanTokenEmpty | src/utils/token.js:2-9 | A value that is not a string, or a string of white space only, cleans to "" |
| Tokens.CleanTokenIsTrimmed | src/utils/token.js:6-19 | The cleaned token has no white space at either end |
| Tokens.StripBearersLeavesNoPrefix | src/utils/token.js:13-15 | No `Bearer` prefix, in any letter case, is left after stripping |
| Tokens.CleanTokenIgnoresBearer | src/utils/token.js:11-15 | Removing one leading `Bearer` by hand does not change the cleaned token |
| Tokens.CleanTokenOfBearerToken | src/utils/token.js:11-15 | A `Bearer` word glued to the token (`Bearerabc`) or followed by spaces is removed |
| Tokens.CleanTokenOfPlainToken | src/utils/token.js:1-20 | A trimmed token with no prefix and no wrapping quotes comes out unchanged |
| Tokens.CleanTokenUnquotesOnce | src/utils/token.js:17-18 | One pair of wrapping quotes is removed and the inside is trimmed |
| Tokens.CleanTokenKeepsQuotesAroundLineBreak | src/utils/token.js:17-18 | Quotes around a text with a line terminator are not removed |
| Tokens.FirstTokenChoice | src/utils/token.js:34-41 | The search yields "" exactly when every candidate cleans to "", and otherwise yields the first candidate that cleans to a non-empty token |
| Tokens.PickToken | src/utils/token.js:34-41 | The loop over the candidates returns what the first-usable-candidate search yields |
| Tokens.FirstTokenPicksEarliest | src/utils/token.js:34-41 | A usable candidate wins over every later candidate |
| Tokens.AccessTokenPrefersAuthorization | src/utils/token.js:22-32 | For access tokens, a usable `authorization` header is taken before everything else |
| Tokens.RefreshTokenPrefersBody | src/utils/token.js:44-52 | For refresh tokens, a usable `refreshToken` in the body wins |
| Tokens.RefreshTokenUsesAuthorizationLast | src/utils/token.js:44-61 | For refresh tokens, the Authorization header is used when the five earlier candidates clean to "". When one of them cleans to a token, the result is the first such token |
| Middleware.SplitJoin | src/middleware/auth.js:7 | `split(" ")` loses nothing, and none of its pieces holds a space |
| Middleware.HeaderTokenOf | src/middleware/auth.js:6-7 | The token is the piece after the first space, whatever scheme word comes before it |
| Middleware.HeaderTokenIgnoresRest | src/middleware/auth.js:7 | Anything after a second space is ignored |
| Middleware.HeaderTokenMissing | src/middleware/auth.js:6-13 | A missing header or one without a space gives no token, and a double space gives the empty token |
| Middleware.AuthGateSpec | src/middleware/auth.js:5-36 | The auth gate passes iff the token is non-empty, verifies and yields a truthy `sub ?? id`, and otherwise rejects with 401. On a pass, `req.user` is the payload with `sub`, `id` and `userId` all set to that id |
| Middleware.AuthGateSubFirst | src/middleware/auth.js:17 | `sub` wins over `id` unless it is null or undefined |
| Middleware.RoleGateSpec | src/middleware/barber.js:5-31 | The result is 401 iff there is no verified non-empty token, and 403 iff the role is outside the allowed ones. On a pass, `req.user` is the raw payload |
| Middleware.AdminGateImpliesBarberGate | src/middleware/admin.js:18-22 | Whatever the admin gate lets through, the barber gate lets through too |
| Queries.SortBy | src/routes/barbershops.js:137 | `ORDER BY` gives a sorted permutation of the rows |
| Queries.FilterMembers | src/routes/barbershops.js:134-136 | A row is kept iff it is in the table and satisfies the condition |
| Queries.UpdateOneRow | src/routes/barber.js:295-297 | With unique keys, `UPDATE ... WHERE id = ?` rewrites exactly the row that holds the key |
| Booking.TimeTextOrder | src/db.js:77 | The text order of `HH:MM` times is the order of the minutes |
| Booking.TimeTextReadBack | src/routes/appointments.js:76-78 | `split(":")` and `parseInt` read a stored time back as its hours and minutes |
| Booking.LatestTime | src/routes/appointments.js:62-71 | The latest time among the day's non-cancelled bookings of the shop, or None when there are none |
| Booking.NextTimeSpec | src/routes/appointments.js:74-83 | The slot is 09:00 on an empty day, otherwise the latest time + 30 minutes, wrapping to 00:00 after 23:30 |
| Booking.PickEmployee | src/routes/appointments.js:49-53 | The employee is an active employee of the shop the key designates, or None iff there is none |
| Booking.Book | src/routes/appointments.js:35-130 | A falsy `barbershopId` gives 400 and a shop without an active employee gives 404, with nothing inserted in either case. Otherwise one `confirmed` row is appended for the UTC day of `now`, with the picked employee and the next slot, and the queue number is counted after the insert. Other tables are unchanged |
| Booking.QueueNumberAtMost | src/routes/appointments.js:100-108 | The queue number never exceeds the number of the day's live bookings |
| Booking.NewBookingJoinsBack | src/routes/appointments.js:100-108 | Before the midnight wrap, the new booking's number is the count of the day's live bookings including itself, so it is at least 1, and it becomes the latest |
| Booking.MidnightWrap | src/routes/appointments.js:75-79 | After a 23:30 booking the next slot is 00:00 and reads as number 1 |
| Booking.WrapRepeats | src/routes/appointments.js:75-79 | Once the latest time is 23:30, every further booking of the day takes 00:00 and the latest stays 23:30, so the numbers at 00:00 run 1, 2, 3, ... |
| Booking.QueueNumberPositive | src/routes/appointments.js:100-108 | For every day state, the number counted after the insert includes the new booking, so it is at least 1 |
| Booking.EmptyDaySlots | src/routes/appointments.js:74-108 | From an empty day, the k-th of up to 30 bookings gets 09:00 + 30(k-1) minutes and number k |
| Booking.SeedDay | src/seed.js:95-104 | With the seeded 10:00, 11:30 and 14:00 bookings, the next one takes 14:30 and is number 4 |
| Booking.MyAppointmentsSpec | src/routes/appointments.js:150-170 | `/my` lists exactly the caller's non-cancelled bookings whose barbershop row exists, latest date first and latest time first within a date |
| ShopEdit.BuildUpdate | src/routes/barber.js:111-145 | The pushed columns are exactly the ones the editor takes, in the fixed column order, each paired with its bound value |
| ShopEdit.PushedSpec | src/routes/admin.js:134-168 | After the n-th test the lists hold the columns of rank below n that the editor takes, in order |
| ShopEdit.OwnerPriceIsPositive | src/routes/barber.js:97-101 | A `narx` the owner's check lets through is bound as a positive number |
| ShopEdit.PriceFromText | src/routes/barber.js:134-137 | A decimal-text price is bound as its number by the owner's editor and as the text by the admin's |
| ShopEdit.PriceInArray | src/routes/barber.js:97-101 | A one-element array `[n]` with n > 0 passes the owner's check and is bound as the number n, as `Number([n])` is n |
| ShopEdit.PriceOfOtherArrays | src/routes/barber.js:97-101 | An empty array (`Number([])` is 0) and an array of two or more elements (NaN) are refused by the owner's check |
| ShopEdit.ZeroPrice | src/routes/admin.js:157-160 | A zero `narx` is refused by the owner and skipped by the admin |
| ShopEdit.SetColumnsSpec | src/routes/barber.js:152-153 | `SET f1 = ?, ...` gives each listed column its value and keeps the rest |
| ShopEdit.UpdateShopsSpec | src/routes/admin.js:174-176 | With the id bound last, each row the id designates is edited by exactly the taken columns and the other rows are kept |
| ShopEdit.UpdateOneShop | src/routes/barber.js:151-153 | Bound to the numeric id of row k, the UPDATE edits row k only |
| ShopRoutes.ActiveShopsSpec | src/routes/barbershops.js:25-43 | The list holds exactly the active barbershops |
| ShopRoutes.ShopPage | src/routes/barbershops.js:70-89 | The page is None (404) iff no active barbershop has the requested id |
| ShopRoutes.ShopPageSpec | src/routes/barbershops.js:67-155 | The page shows the active shop with that id and counts its active employees. It lists exactly its non-cancelled bookings of the UTC day whose user and employee exist, in ascending time, numbered 1..n in list order |
| ShopRoutes.NumberingIsOneToN | src/routes/barbershops.js:142-145 | The numbers start at 1, rise by one, end at n, and keep the rows in order |
| BarberRoutes.OwnShopDetails | src/routes/barber.js:28-53 | The caller's first active barbershop, or None (404) iff the caller owns no active barbershop |
| BarberRoutes.EditOwnShop | src/routes/barber.js:93-175 | A bad `narx` gives 400, no own shop gives 404 and nothing to update gives 400, with no change in any of these cases. Otherwise only the caller's shop is edited, by exactly the taken columns |
| BarberRoutes.DayAppointmentsSpec | src/routes/barber.js:204-237 | The listing exists iff the caller has an active shop. It holds exactly that shop's bookings, of any status, on the target day whose user and employee exist, ascending by time |
| BarberRoutes.TargetDayMatchesText | src/routes/barber.js:207 | For four-digit years, the day selected is the day whose date text equals the given date, or today's Tashkent date, which then always answers |
| BarberRoutes.CompletionTarget | src/routes/barber.js:273-280 | The booking the id designates, joined with its active barbershop, or None iff there is no such pair |
| BarberRoutes.Complete | src/routes/barber.js:268-300 | 404 without a booking of an active shop; 403 unless the caller is an admin or `Number(owner_id) === Number(req.user.id)`; 400 if it is already completed. Otherwise that one booking, of any other status, becomes completed at `now`, and nothing else changes |
| BarberRoutes.CompletionIsFinal | src/routes/barber.js:290-292 | Completing keeps the booking findable and completed, so the same request again is refused |
| BarberRoutes.MoveTomorrow | src/routes/barber.js:332-363 | 403 without an own active shop and 404 for a booking outside it. Otherwise the booking, of any status, moves to the Tashkent day after `now` and becomes rescheduled, keeping its time and completion stamp, and nothing else changes |
| BarberRoutes.TomorrowText | src/routes/barber.js:353 | The date written is the text of the calendar day after today's Tashkent date, whenever tomorrow's noon is a valid date (for Tashkent years from 100 on) |
| BarberRoutes.HistoryDaysSpec | src/routes/barber.js:394-396 | The window is n days for a text starting with the digits of n, whatever follows them, and 0 days for `-n` |
| BarberRoutes.HistoryDaysDefault | src/routes/barber.js:394-396 | The window is 7 days without the parameter or when it does not start with a digit, a sign or white space |
| BarberRoutes.History | src/routes/barber.js:398-404 | The history is 404 iff the caller has no active barbershop |
| BarberRoutes.HistoryFirstDay | src/routes/barber.js:405-423 | With an active barbershop, the route fails (500) exactly when `getUzbekistanDate(-n)` throws. Otherwise the window starts on the day whose date that call gives (for Tashkent years from 100 on) |
| BarberRoutes.HistoryRows | src/routes/barber.js:405-423 | The rows returned are the recent bookings of the caller's barbershop from n days before today on |
| BarberRoutes.HistoryAnswers | src/routes/barber.js:392-423 | At an instant in a four-digit Tashkent year, a window of at most a million days gives rows, not a 500 |
| BarberRoutes.RecentBookingsSpec | src/routes/barber.js:406-424 | The history holds exactly the shop's bookings from the window's first day on whose user exists, latest date first and latest time first |
| AdminRoutes.CreateShop | src/routes/admin.js:38-102 | A falsy required field gives 400 and an `ownerId` not designating a barber gives 400, with nothing inserted. Otherwise the row is appended under the next rowid, with NULL for a falsy `rasm`/`malumot`, the owner's key and the active flag |
| AdminRoutes.CreatedShopIsShown | src/routes/admin.js:65-80 | A created shop is in the public list, opens under its id and is found by its owner's routes |
| AdminRoutes.EditShop | src/routes/admin.js:130-198 | No taken field gives 400 and no change. Otherwise each row the id designates is edited and the others are kept, with 200 even when no row has the id |
| AdminRoutes.DeleteShop | src/routes/admin.js:220-227 | Always 200. The table becomes `Deactivate` of the old one, and no other table changes |
| AdminRoutes.DeactivateSpec | src/routes/admin.js:224 | No row is removed, and only the active flag of the designated rows changes. They leave the list, the page and the owners' routes, and a second delete changes nothing |
| AdminRoutes.ListUsersSpec | src/routes/admin.js:272-309 | Exactly the users of the requested role (all of them without a filter or with an empty one), newest first, with `jami` equal to the list length |
| AdminRoutes.ChangeRole | src/routes/admin.js:371-432 | Guards in order: a role outside user/barber/admin, an unknown user (404), the caller's own id, and the same role. No change on any failure; on success only that user's role changes, and the old and new roles are reported |
| AdminRoutes.RoleChangedSpec | src/routes/admin.js:412-423 | After a change, keys stay unique, the user is found at the same row with the new role, and nothing else in the row differs |
| AdminRoutes.ToggleStatus | src/routes/admin.js:471-520 | A non-boolean `faol` gives 400, an unknown user 404 and the caller's own id 400. Otherwise the user is reported `faol` iff `faol` is true. No row is written |
| Findings.GateLosesCaller | src/middleware/barber.js:24 | Behind either role gate, an issued barber or admin token leaves `req.user.id` undefined |
| Findings.UndefinedCallerLocksOut | src/routes/barber.js:29 | With `req.user.id` undefined, no barber has a shop. Barbershop, listing and history give 404, completion is refused to non-admins, and the admin self-check never matches |
| Findings.IdRoleGate | src/middleware/admin.js:24 | The corrected gate rejects exactly what the role gate rejects, and otherwise sets `req.user.id` to `sub ?? id` |
| Findings.IdRoleGateRestoresCaller | src/routes/auth.js:11-16 | Behind the corrected gate, an issued token's `sub` is the caller. The owner's shop is found, the owner may complete its bookings, and the admin's own id is recognised |

## Left out

- HTTP wiring, response JSON shapes and messages, Swagger, `src/server.js`, `src/routes/profile.js`, `src/routes/auth.js` registration and login, bcrypt and `console` logging: plumbing with no decision in them. All that remains of the responses is the status code and the data a route returns.
- `jwt.verify` and `jwt.sign`: `verify` is a parameter, and token expiry is part of what `verify` decides.
- Concurrency: the model is single-threaded, so the race between reading the last slot and inserting the booking is not represented.
- Intl time-zone data is not modelled. Tashkent is a fixed UTC+05:00 with no daylight saving. Engines that render midnight as `24` under `hour12: false` are not modelled.
- `Date.setHours` with the server's local time zone is out. The slot arithmetic is the wall-clock arithmetic modulo 1440 minutes.
- Binary64 arithmetic is not modelled: numbers are exact reals, so rounding, `-0` and the overflow of a long digit run to `Infinity` are absent. `Number(text)` covers decimal texts with an optional sign, fraction and exponent, `Infinity` with an optional sign, and `0x`, `0o` and `0b` integers. A `days` text of more than 309 digits parses to `Infinity` in the source and to a huge integer here; the history route answers 500 for both.
- SQLite affinity and storage classes are not modelled. A bound value matches an INTEGER key when it is an integral number or an integer text. Editable barbershop columns keep the JavaScript value that was bound. better-sqlite3's errors for values it cannot bind (booleans, objects, arrays) and NOT NULL violations are not modelled.
- `LIMIT 1` without `ORDER BY` and `.get()` are modelled as the first row in rowid order. Rows with equal `ORDER BY` keys keep their table order, which SQLite does not promise.
- `working_hours` (`src/routes/barbershops.js:101-121`) is read by the shop page only and written by no route, so it is not part of this model; the page carries no working hours.
- `created_at` of users is an integer ordered as the `datetime('now')` text is. `completed_at` is the instant whose Tashkent timestamp is stored.
- `DATE(appointment_date) = ?` and `>= ?` compare texts. The model compares day numbers, which agree with the texts for years 1000-9999. `Calendar.ParseIsoDateSpec` covers `=`, `Calendar.IsoDateOrder` covers `>=` and `ORDER BY appointment_date`, and `Booking.TimeTextOrder` covers the times.
- JsValues.StrictEquals: arrays compare by their elements, not by identity. Its only use compares a number with the caller's id, so no route depends on this.
- The `date` and `days` query parameters are modelled as strings or absent. Express can also deliver arrays and objects for them, which is not modelled.
- `ParseIsoDate` rejects years below 1000, which cannot be the four-digit text of a stored date.
- AdminRoutes.ChangeRole and AdminRoutes.ToggleStatus take `req.body` as an object. A request without a parsed body, on which destructuring `req.body` throws, is not modelled.
- BarberRoutes.EditOwnShop returns the status only. The row it re-reads for the response is the edited row, which its contract names. AdminRoutes.EditShop returns that row as `shown`, the first row with the key after the update.
- BarberRoutes.History: the window starts on day `TashkentDay(now) - n`, and rows are kept by comparing day numbers. The source compares the text `getUzbekistanDate(-n)`, which `Calendar.GetUzbekistanDateShifts` ties to that day. The two agree while the first day's year has four digits, that is for windows of up to about 375,000 days from the present. A longer window that still lies within the Date range starts before year 1000. Its first date then has a shorter year, such as `931-03-15`, and the source's text comparison keeps only bookings whose date sorts after that text, typically none. The model keeps every booking from that day on instead. Windows beyond the Date range give a 500 in both.
- Calendar.GetUzbekistanDateShifts, Calendar.ShiftedInstantNoon, Calendar.DateUtcNoon, Calendar.GetUzbekistanDateToday, Calendar.GetUzbekistanDateTomorrow, Calendar.GetUzbekistanDateTimeDatePart, BarberRoutes.TomorrowText, BarberRoutes.HistoryFirstDay: these hold for base instants whose Tashkent year is 100 or later. For earlier years, `Number` reads the formatted year as 1900 plus the year, or as the year of the era before year 1. The lemmas do not describe what `getUzbekistanDate` then returns.
- BarberRoutes.DayAppointments, BarberRoutes.MoveTomorrow, BarberRoutes.Complete: these use today's and tomorrow's Tashkent day numbers and the instant `now` directly. They do not model the RangeError that `getUzbekistanDate()`, `getUzbekistanDate(1)` and `getUzbekistanDateTime()` throw when the clock is within a day of the end of the Date range, or outside it. `BarberRoutes.TargetDayMatchesText` and `BarberRoutes.TomorrowText` state when those calls do answer.
- Cancelling a booking: no route writes `cancelled`. Bookings with that status are allowed in every table state but created by no operation.

## Findings

| source | as written | input that shows it | evidently intended | confidence | as-written member | corrected member |
|---|---|---|---|---|---|---|
| src/middleware/barber.js:24 | `req.user = payload`. Issued tokens carry the user id as `sub` only (src/routes/auth.js:12), while every barber route reads `req.user.id` (src/routes/barber.js:29) | A barber with an active barbershop whose token is `{sub: 2, phone, role: "barber"}`. GET /barber/barbershop finds `owner_id = undefined` and answers 404. Move-tomorrow answers 403. Complete answers 403, because `Number(undefined)` is NaN | `req.user.id` is the token's `sub`, as the auth gate sets it (src/middleware/auth.js:17-29). The barber then reaches their own barbershop | not executed | Findings.UndefinedCallerLocksOut | Findings.IdRoleGateRestoresCaller |
| src/routes/admin.js:395 | `parseInt(id) === req.user.id` with `req.user` the raw payload (src/middleware/admin.js:24). The comparison is with `undefined` and is never true | An admin with user id 1 whose token is `{sub: 1, role: "admin"}` sends PUT /admin/users/1/change-role with `{yangiRole: "user"}`. The self-check does not fire and the admin demotes themself. The same holds for toggle-status at line 493 | An admin cannot change their own role or block themself | not executed | Findings.GateLosesCaller | Findings.IdRoleGate |

The route methods take `req.user` as a parameter. With the corrected gate they receive
`Findings.IdRoleGate`'s user, and the lemmas above show what changes.
