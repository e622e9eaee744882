# Restaurant table reservations — a Dafny model

This project models the domain logic of a restaurant table-reservation web
application (Django). Restaurants own tables. Signed-in users reserve a table
for a day and a time. A reservation is `pending`, `confirmed` or `cancelled`.
One business rule matters: a table, day and time ("slot") has at most one
pending or confirmed reservation.

The model is functional. The reservation table of the database is a sequence
of immutable records. Booking and cancelling return a new store or an error
outcome. Days are integers (day numbers) and times are minutes since midnight.

Modules:

- `Models` (`models.dfy`): statuses and their stored codes, users, restaurants,
  tables and reservations, and the permission predicates.
- `Booking` (`booking.dfy`): the admission check of the booking view, the
  owner-guarded cancellation, and the invariants both preserve.
- `Availability` (`availability.dfy`): the home page's "free tables today"
  list.
- `RestaurantExtras` (`restaurant_extras.dfy`): the phone-number template filter.
- `Admin` (`admin.dfy`): the shortened address column of the admin site.
- `Wrappers` (`wrappers.dfy`): an `Option` type.

Three facts about the code shape what the model contains:

- `make_reservation` has no past-date or opening-hours check. The opening
  hours are a free-text field that no booking check reads (it is only displayed
  and edited), so a booking has no schedule error outcome here.
- A taken slot is reported as a conflict even when the party is also too large
  for the table, because the conflict check runs first
  (`Booking.ConflictBeforeCapacity`).
- The only availability query is the home-page widget: today only, largest
  tables first, at most six. There is no query by minimum party size.

## Model

| member | source | states |
|---|---|---|
| Models.ParseStatus | restaurant/models.py:79-83 | only the three declared status codes parse, and each parses to the status whose code it is |
| Models.StatusCodeRoundTrip | restaurant/models.py:79-83 | every status is read back unchanged from its stored code |
| Models.StatusCodesAreTheChoices | restaurant/models.py:79-83 | a code parses exactly when it is one of "confirmed", "pending", "cancelled", and no two statuses share a code |
| Models.ActiveIsConfirmedOrPendingCode | restaurant/views.py:263 | the statuses that count as holding a slot are exactly those whose code is in the query's list ["confirmed", "pending"] |
| Models.RestaurantCanEdit | restaurant/models.py:33-38 | false for an absent or signed-out user; for a signed-in user, true exactly when the user is staff |
| Models.RestaurantCanDelete | restaurant/models.py:40-45 | false for an absent or signed-out user; for a signed-in user, true exactly when the user is staff |
| Models.RestaurantCanCreate | restaurant/models.py:47-52 | false for an absent or signed-out user; for a signed-in user, true exactly when the user is staff |
| Models.RestaurantPermissionsCoincide | restaurant/models.py:33-52 | the edit, delete and create permissions always agree for every user |
| Models.ButtonsFollowPermissions | restaurant/models.py:54-64 | the edit, delete and create buttons are shown exactly when the matching permission holds |
| Models.ReservationCanEdit | restaurant/models.py:97-100 | true exactly when the user is present, signed in, and either staff or the reservation's owner |
| Models.ReservationEditRights | restaurant/models.py:97-100 | anyone allowed to edit restaurants may edit every reservation; a signed-in owner may edit their own; a non-staff editor must be the owner |
| Booking.NextId | restaurant/views.py:271 | the key given to a newly saved reservation is positive and larger than every key already in the store |
| Booking.Book | restaurant/views.py:254-271 | conflict exactly when an active reservation holds the same table, day and time; otherwise over-capacity exactly when guests exceed the table's capacity; otherwise exactly one record is appended, with the requesting user, the table, day, time, party size and wishes, status pending and a fresh key; the existing records are kept unchanged |
| Booking.FindTable | restaurant/views.py:249 | a found table is in the catalogue and has the key asked for; no table is found only when no table has that key |
| Booking.MakeReservation | restaurant/views.py:246-273 | an unknown table key is a lookup failure; otherwise the outcome is the admission check against the table with that key, and a booking only succeeds for a party that fits that table |
| Booking.FindOwned | restaurant/views.py:302 | a found index holds a reservation with the given key and owner; nothing is found only when no reservation has both |
| Booking.Cancel | restaurant/views.py:302-306 | not found exactly when no reservation has both the key and the requesting owner; on success that reservation's status becomes cancelled, its other fields are kept, and every other record is unchanged |
| Booking.BookKeepsOneActivePerSlot | restaurant/views.py:259-271 | if at most one active reservation holds each slot before a successful booking, the same holds afterwards |
| Booking.BookKeepsIdsUnique | restaurant/views.py:271 | a successful booking keeps the reservation keys distinct |
| Booking.CancelKeepsInvariants | restaurant/views.py:302-306 | cancelling keeps the keys distinct and keeps at most one active reservation per slot |
| Booking.CancelIdempotent | restaurant/views.py:302-306 | cancelling the same reservation a second time leaves the store as the first cancellation did |
| Booking.CancelledNeverBlock | restaurant/views.py:259-270 | a slot whose reservations are all cancelled accepts any party that fits the table |
| Booking.CancelFreesSlot | restaurant/views.py:259-306 | in a store obeying the slot rule, after an active reservation is cancelled, any user can book its slot with a party that fits the table |
| Booking.ConflictBeforeCapacity | restaurant/views.py:266-269 | when the slot is taken and the party is also too large, the outcome is the conflict |
| Booking.BookCancelRebookScenario | restaurant/views.py:246-306 | for a table for four: a first booking is pending, a second for the same slot conflicts, and after cancelling the first the slot books again |
| Booking.OverCapacityScenario | restaurant/views.py:268-269 | a party of five at a free table for two is rejected for capacity |
| Availability.BusyIsOrmExcluded | restaurant/views.py:23-25 | a table with an active reservation today is excluded under the ORM's reading of the query as well |
| Availability.FreeTables | restaurant/views.py:23-25 | keeps exactly the tables with no pending or confirmed reservation dated today, each no more often than in the input |
| Availability.Insert | restaurant/views.py:26 | inserting into a largest-first list keeps it largest-first and adds exactly the inserted table |
| Availability.SortByCapacityDesc | restaurant/views.py:26 | the result is a permutation of the input with capacities non-increasing |
| Availability.PrefixDominates | restaurant/views.py:26 | in a largest-first list, every table in front of an element left out of a prefix is at least as large |
| Availability.TopSixFacts | restaurant/views.py:26 | the first six of a largest-first arrangement of the candidates hold no candidate more often than the candidates do, and leave a candidate out only behind six at least as large |
| Availability.TopSix | restaurant/views.py:26 | at most six candidates, largest first, each taken no more often than it occurs among the candidates; a candidate is left out only if six at least as large are kept |
| Availability.AvailableTables | restaurant/views.py:23-26 | at most six tables, largest first, none busy today, each shown no more often than it occurs in the catalogue; a free table is left out only if six tables at least as large are shown |
| Availability.OrmFreeTables | restaurant/views.py:23-25 | keeps exactly the tables the ORM's multi-valued exclusion does not remove |
| Availability.OrmAvailableTables | restaurant/views.py:23-26 | the list as written: at most six tables, largest first, none busy today, none repeated beyond the catalogue |
| Availability.OrmHidesFreeTable | restaurant/views.py:23-25 | a table free today, whose cancelled reservation is today and whose active one is tomorrow, is shown by the intended list and missing from the list as written |
| RestaurantExtras.FormatPhone | restaurant/templatetags/restaurant_extras.py:34-39 | an eleven-digit value becomes "+7 (" + v[1..4] + ") " + v[4..7] + "-" + v[7..9] + "-" + v[9..11], 18 characters long; any other value is returned unchanged |
| RestaurantExtras.FormatPhoneDigits | restaurant/templatetags/restaurant_extras.py:38 | the digits of a formatted number are 7 followed by exactly the last ten input digits, in order |
| RestaurantExtras.FormatPhoneIgnoresLeadingDigit | restaurant/templatetags/restaurant_extras.py:38 | the first digit is discarded: two numbers differing only there format alike |
| RestaurantExtras.FormatPhoneFixpoints | restaurant/templatetags/restaurant_extras.py:37-39 | a value comes back unchanged exactly when it is not eleven digits |
| RestaurantExtras.FormatPhoneIdempotent | restaurant/templatetags/restaurant_extras.py:37-39 | formatting a formatted value changes nothing |
| Admin.AddressPreview | restaurant/admin.py:32-33 | the restaurant's address is kept when it has at most 50 characters; a longer one becomes its first 50 characters and "..."; the result is at most 53 long and starts with the first min(length, 50) characters of the address |
| Admin.AddressPreviewIdempotent | restaurant/admin.py:33 | shortening a restaurant's already shortened address changes nothing |
| Admin.AddressPreviewFixpoints | restaurant/admin.py:33 | the preview equals the restaurant's address exactly when it is at most 50 long, or 53 long and already ending in "..." |

## Findings

| source | as written | input that shows it | evidently intended | confidence | as-written member | corrected member |
|---|---|---|---|---|---|---|
| restaurant/views.py:23-25 | `exclude(reservation__reservation_date=today, reservation__status__in=[...])` across the multi-valued reservation relation removes a table that has some reservation dated today and some active reservation, not necessarily the same one | a table whose only reservation today is cancelled and which has a pending reservation tomorrow: free today, but not listed | list every table without a pending or confirmed reservation dated today | medium: depends on the ORM's documented exclude semantics for multi-valued relations; not executed | Availability.OrmAvailableTables, Availability.OrmHidesFreeTable | Availability.AvailableTables |

## Left out

- Concurrency: the view reads for conflicts and then saves, and the two steps are not atomic. The model is sequential and claims nothing about simultaneous requests.
- Other write paths: the REST viewsets (restaurant/views_api.py) and the admin's editable status column change reservations without the admission check. The slot invariant is proved only for `Book` and `Cancel`.
- The GET branches of the booking and cancel views only render forms and are not modelled. The login-required decorator is reflected by passing the signed-in user's key.
- Form validation: the booking form class is not part of this model. `Request` stands for its cleaned data, and no bounds on party size, dates or times are assumed.
- Booking.NextId: the database's auto-increment sequence is modelled only as "larger than every key in use". The model does not follow key reuse or gaps.
- Reservation creation timestamps, the restaurant image, table prices and the popularity, price and capacity aggregates of the home and detail pages use the clock, files or decimal aggregation and are not modelled.
- Search, authentication views, rendering, messages, redirects, URL routing, serializers and the PDF export are framework plumbing and are not modelled. The other template tags read the clock or the database and are not modelled either.
- Availability.AvailableTables: the database's order among tables of equal capacity is unspecified. The model keeps catalogue order for ties.
- RestaurantExtras.FormatPhone: only ASCII digits count as digits. Python's `str.isdigit` also accepts other Unicode digit characters. The model returns such values unchanged, but the source would format them.
- RestaurantExtras.FormatPhone: the value is a string because the phone field is a non-null text column. The `None` input that the filter's falsy test also passes through is not modelled.
- Reservation times are whole minutes. The source's time field also keeps seconds and microseconds, so two bookings a few seconds apart are different slots there. The model cannot express such times. Only equality of times matters to the proofs.
