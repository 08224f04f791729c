# Villactiva reservation slot checks in Dafny

Villactiva is an Android app for booking one-hour slots at places. Its only real
decision logic is the check that runs before a slot is booked or moved. That
check exists twice:

- **Edit path:** the reservations screen (`ReservationsFragment`) moves one of
  the user's reservations to a new slot.
- **Create path:** the place detail screen (`DetailActivity`) books a new slot.

Both paths apply four business rules to a proposed half-open slot `[start, end)`
in epoch milliseconds:

- the start is not on a Saturday or Sunday;
- the start hour is in `[9, 21)`;
- the start is not in the past;
- the end is after the start.

Both then scan the place's existing reservations for an overlap. The two copies
differ in three ways:

- The edit path always scans. The create path scans only when the rules held.
- The edit path skips the document of the reservation being edited.
- The edit path ends by requesting an update of the user's copy. The create
  path ends by showing or hiding its save button.

This project models that logic and proves what it promises.

- `ReservationModel` (`reservation.dfy`): the `Reservation` data class, the
  Firebase `Timestamp` its dates hold, and the millisecond accessors that read a
  missing date as 0.
- `Firestore` (`firestore.dfy`): the stored document fields, query results, the
  `whereEqualTo("idPlace", …)` filter, `toObject`, and the requests the app
  issues. The requests are values. `Apply` says what a request does to the
  documents of one collection.
- `SlotRules` (`slot_rules.dfy`): the calendar fields of the start, the four
  rules (`CheckRules`, specified by `RuleNotices`), the overlap test, the
  flag-and-break conflict scan (`ScanForConflict`, specified by `FindConflict`),
  the Kotlin `Long` wrap-around of `start + 3600000`, and the non-overlap
  invariant of a collection.
- `ReservationsScreen` (`reservations_fragment.dfy`): class
  `ReservationsFragment`. Its `reservationsList` is rebuilt on fetch and loses an
  entry on delete. `ValidateAndUpdateReservation` is the edit path.
- `DetailScreen` (`detail_activity.dfy`): class `DetailActivity`. It holds the
  picked slot and the save button's visibility, and has the create path
  `ValidateDates` and `SaveReservation` with its two ordered writes.
- `PathAgreement` (`path_agreement.dfy`): when the two paths agree and when they
  differ, the round trip from a saved record to what both paths read back, and
  worked scenarios.
- `SourceFindings` (`findings.dfy`): what the writes as written do to the
  collection the scans read, next to the intended writes and what they keep
  (see "## Findings").

Inputs the app takes from its environment are parameters:

- The current time (`System.currentTimeMillis()`) is `now`.
- `Calendar.get(DAY_OF_WEEK)` and `Calendar.get(HOUR_OF_DAY)` depend on the
  device time zone. They are a function `cal: int -> CalendarFields`, applied
  only to `start`.
- Each Firestore success callback is a method over the snapshot it receives.
  Whether an asynchronous write succeeded is a boolean input, and a write is a
  `Request` value in the method's result.
- The generated document id is a parameter.
- Toasts are `Notice` values, one kind per message.

The duration rule's message says a reservation must last at least one hour.
The code refuses only `end <= start` (ReservationsFragment.kt:235,
DetailActivity.kt:130), and the model follows the code.
`AllRuleFailuresCollectedScenario` shows a ten-minute slot passing the duration
rule. Both pickers always set the end one hour after the start, so the rule
can only fire when that addition wraps.

Edits and deletes write only the user's copy, while both scans read the global
collection, so neither keeps the global collection in step. The create path's
two writes are separate, and a failed validation query leaves the save button
as it was. The screen classes model this code as written. "## Findings" lists
each case with the lemma that shows its effect and the intended definition
with its property.

## Model

| member | source | states |
|---|---|---|
| ReservationModel.FromMillis | app/src/main/java/com/example/villactiva/DetailActivity.kt:169-170 | `Timestamp(Date(ms))` splits the instant into floored seconds and a non-negative nanosecond part that is a whole number of milliseconds |
| ReservationModel.MillisRoundTrip | app/src/main/java/com/example/villactiva/DetailActivity.kt:169-170 | writing an instant as a timestamp and reading it back with `toDate().time` gives the same millisecond |
| ReservationModel.ToMillis | app/src/main/java/com/example/villactiva/model/Reservation.kt:15-16 | `toDate().time` of a timestamp with a nanosecond part in range lies in the millisecond interval of its second |
| ReservationModel.MillisOrZero | app/src/main/java/com/example/villactiva/model/Reservation.kt:15-16 | a missing timestamp reads as 0, a present one as its milliseconds, and a timestamp written from `m` reads as `m` |
| ReservationModel.DateStartMillis | app/src/main/java/com/example/villactiva/model/Reservation.kt:15 | `getDateStartMillis` is 0 when `dateStart` is null, and otherwise the milliseconds the timestamp was written from |
| ReservationModel.DateEndMillis | app/src/main/java/com/example/villactiva/model/Reservation.kt:16 | `getDateEndMillis` is 0 when `dateEnd` is null, and otherwise the milliseconds the timestamp was written from |
| ReservationModel.WithId | app/src/main/java/com/example/villactiva/model/Reservation.kt:6-12 | assigning the one `var` field `id` changes only the id: restoring the old id gives the original record, and both dates read the same |
| ReservationModel.DefaultReservationFields | app/src/main/java/com/example/villactiva/model/Reservation.kt:6-12 | the defaults are "" for id, name, description, image and idPlace, null for both dates, so both accessors return 0 |
| Firestore.ToObject | app/src/main/java/com/example/villactiva/ReservationsFragment.kt:123 | `toObject` copies the fields by name, leaves `id` at its default and drops `userId` |
| Firestore.WhereIdPlace | app/src/main/java/com/example/villactiva/DetailActivity.kt:100-102 | the place query returns exactly the documents whose `idPlace` is the place |
| Firestore.WithNewDates | app/src/main/java/com/example/villactiva/ReservationsFragment.kt:268-273 | `update` of both dates gives the document with that id the new timestamps and keeps its other fields; every other document and the length stay the same |
| Firestore.Apply | app/src/main/java/com/example/villactiva/ReservationsFragment.kt:156-160 | a request leaves a collection it does not name unchanged; `set` replaces or adds the document, `update` keeps the number of documents, `delete` removes exactly the documents with that id |
| Firestore.ApplyAll | app/src/main/java/com/example/villactiva/DetailActivity.kt:179-188 | requests carried out in order; when none names the collection it is unchanged |
| SlotRules.PlusOneHour | app/src/main/java/com/example/villactiva/DetailActivity.kt:80 | `start + 3600000` on a `Long` is exact below `Long.MAX_VALUE - 3600000` and wraps by 2^64 above it |
| SlotRules.RulesPass | app/src/main/java/com/example/villactiva/ReservationsFragment.kt:214-238 | the four rules hold iff the start is not Saturday or Sunday, its hour is in `[9, 21)`, and `now <= start < end` |
| SlotRules.PickedSlotIsNotTooShort | app/src/main/java/com/example/villactiva/DetailActivity.kt:79-80 | a picked slot (end = start + 1 h, no wrap) never raises the duration notice, so only day, hour and past can refuse it |
| SlotRules.PickedSlotWrapsNearLongMax | app/src/main/java/com/example/villactiva/ReservationsFragment.kt:186-187 | for every start in the last hour of the `Long` range the one-hour end wraps below the start, the duration rule fires and the slot is refused |
| SlotRules.RuleNotices | app/src/main/java/com/example/villactiva/ReservationsFragment.kt:215-238 | each rule's notice is present iff that rule fails (Saturday/Sunday; hour < 9 or >= 21; start < now; end <= start), independently of the others, in check order; none at all iff all rules pass |
| SlotRules.CheckRules | app/src/main/java/com/example/villactiva/DetailActivity.kt:104-133 | the flag starting true and cleared by each failing check ends true iff all four rules pass, and the notices raised are exactly `RuleNotices` |
| SlotRules.Overlaps | app/src/main/java/com/example/villactiva/ReservationsFragment.kt:245 | `!(end <= otherStart \|\| start >= otherEnd)` holds iff each slot starts before the other ends |
| SlotRules.DocStartMillis | app/src/main/java/com/example/villactiva/ReservationsFragment.kt:242 | a missing `dateStart` reads as 0; one written from `m` milliseconds reads as `m` |
| SlotRules.DocEndMillis | app/src/main/java/com/example/villactiva/ReservationsFragment.kt:243 | a missing `dateEnd` reads as 0; one written from `m` milliseconds reads as `m` |
| SlotRules.IsConflict | app/src/main/java/com/example/villactiva/ReservationsFragment.kt:245 | a conflict is an overlap with the document's slot; the excluded document never conflicts; with nothing excluded it is exactly the create path's overlap test |
| SlotRules.OverlapsSymmetric | app/src/main/java/com/example/villactiva/ReservationsFragment.kt:245 | the overlap test gives the same answer with the two slots swapped |
| SlotRules.TouchingSlotsDoNotOverlap | app/src/main/java/com/example/villactiva/DetailActivity.kt:141 | a slot ending where another begins does not overlap it, in either order |
| SlotRules.OverlapsIffSharedInstant | app/src/main/java/com/example/villactiva/ReservationsFragment.kt:245 | for non-empty slots the test holds iff some instant lies in both |
| SlotRules.FindConflict | app/src/main/java/com/example/villactiva/ReservationsFragment.kt:241-250 | the result is the first position of a conflicting document (none before it), or none iff no document conflicts |
| SlotRules.HasConflict | app/src/main/java/com/example/villactiva/ReservationsFragment.kt:241-250 | some document of the snapshot conflicts with the slot |
| SlotRules.ScanForConflict | app/src/main/java/com/example/villactiva/DetailActivity.kt:137-146 | the flag-and-break loop finds a conflict iff one exists, and stops right after the first conflicting document |
| SlotRules.OnlyThePlaceBlocks | app/src/main/java/com/example/villactiva/DetailActivity.kt:100-102 | after the place query, a slot is blocked iff some document of that place in the whole collection conflicts, so another place's reservation never blocks it |
| SlotRules.ExcludedDocumentNeverConflicts | app/src/main/java/com/example/villactiva/ReservationsFragment.kt:245 | a document whose id is the edited reservation's id is never a conflict |
| SlotRules.MissingEndNeverConflicts | app/src/main/java/com/example/villactiva/ReservationsFragment.kt:242-243 | a document without `dateEnd` reads as ending at 0 and never blocks a slot starting at or after 0 (so neither does the empty `[0, 0)`) |
| Firestore.WithoutId | app/src/main/java/com/example/villactiva/ReservationsFragment.kt:245 | the documents whose id differs from the given one |
| SlotRules.ExclusionIsRemoval | app/src/main/java/com/example/villactiva/ReservationsFragment.kt:245 | scanning with the own id excluded finds a conflict iff scanning the snapshot without the own documents does |
| SlotRules.ExclusionOfAbsentId | app/src/main/java/com/example/villactiva/ReservationsFragment.kt:245 | when no document has the id, excluding it changes nothing |
| ReservationsScreen.Decode | app/src/main/java/com/example/villactiva/ReservationsFragment.kt:123-124 | a list entry carries its document's id, place and dates |
| ReservationsScreen.FromSnapshot | app/src/main/java/com/example/villactiva/ReservationsFragment.kt:121-126 | the rebuilt list has one entry per document of the snapshot |
| ReservationsScreen.FromSnapshotAt | app/src/main/java/com/example/villactiva/ReservationsFragment.kt:121-126 | the rebuilt list has one entry per document, and entry i is document i with that document's id |
| ReservationsScreen.RemoveFirst | app/src/main/java/com/example/villactiva/ReservationsFragment.kt:162 | `remove` shortens the list by at most one and adds no element |
| ReservationsScreen.RemoveFirstAbsent | app/src/main/java/com/example/villactiva/ReservationsFragment.kt:162 | removing a reservation that is not in the list leaves the list unchanged |
| ReservationsScreen.RemoveFirstPresent | app/src/main/java/com/example/villactiva/ReservationsFragment.kt:162 | removing a present reservation takes out its first occurrence and keeps every other entry in order |
| ReservationsScreen.RemoveFirstSpec | app/src/main/java/com/example/villactiva/ReservationsFragment.kt:162 | removal takes one copy out of the list's multiset and shortens the list by one iff the reservation was present |
| ReservationsScreen.EditNotices | app/src/main/java/com/example/villactiva/ReservationsFragment.kt:214-250 | the edit toasts are the failing rules' notices plus at most one conflict notice, never a "dates valid" notice |
| ReservationsScreen.EditAccepted | app/src/main/java/com/example/villactiva/ReservationsFragment.kt:252-254 | an accepted edit starts no earlier than now, ends after it starts, and overlaps no document but its own |
| ReservationsScreen.EditNoticesSpec | app/src/main/java/com/example/villactiva/ReservationsFragment.kt:209-255 | the edit path raises no notice iff the edit goes ahead; it reports a conflict iff a non-self document overlaps, whether or not the rules held |
| ReservationsScreen.UpdateRequest | app/src/main/java/com/example/villactiva/ReservationsFragment.kt:264-273 | the update goes to the reservation's document in the user's collection only, and carries the new instants exactly |
| ReservationsScreen.WithDates | app/src/main/java/com/example/villactiva/ReservationsFragment.kt:268-272 | a document whose two dates are rewritten keeps its id and place and reads back the new slot |
| ReservationsScreen.MoveReservation | app/src/main/java/com/example/villactiva/ReservationsFragment.kt:262-273 | the documents with the edited reservation's dates rewritten to the new slot, every other document unchanged; the intended edit does this to the global copy |
| ReservationsScreen.IntendedUpdateRequests | app/src/main/java/com/example/villactiva/ReservationsFragment.kt:264-273 | the intended edit writes the new instants to the global copy and then makes the written user-copy update |
| ReservationsScreen.IntendedDeleteRequests | app/src/main/java/com/example/villactiva/ReservationsFragment.kt:155-160 | the intended removal deletes the global copy and then the user's copy |
| ReservationsScreen.ReservationsFragment.constructor | app/src/main/java/com/example/villactiva/ReservationsFragment.kt:26-32 | the screen starts with the user from its arguments and an empty list |
| ReservationsScreen.ReservationsFragment.FetchReservations | app/src/main/java/com/example/villactiva/ReservationsFragment.kt:114-143 | with a user it reads the user's collection; on success the list equals the snapshot in order, each entry with its document id, and the empty message is shown iff the list is empty; otherwise nothing changes |
| ReservationsScreen.ReservationsFragment.DeleteReservation | app/src/main/java/com/example/villactiva/ReservationsFragment.kt:154-170 | with a user it deletes the user's document; on success the reservation is removed from the list, otherwise the list is unchanged |
| ReservationsScreen.ReservationsFragment.UpdateReservation | app/src/main/java/com/example/villactiva/ReservationsFragment.kt:262-282 | with a user it requests the update of the user's copy; without one it requests nothing |
| ReservationsScreen.ReservationsFragment.ValidateAndUpdateReservation | app/src/main/java/com/example/villactiva/ReservationsFragment.kt:204-260 | the place query keeps the documents of the reservation's place; `updateReservation` is called iff all four rules pass and no document of that place except the reservation's own overlaps the slot; the notices are every failing rule plus one conflict notice when a non-self conflict exists |
| ReservationsScreen.ReservationsFragment.OnTimePicked | app/src/main/java/com/example/villactiva/ReservationsFragment.kt:186-189 | the picked instant and one hour later are validated; a failed query only shows its message; without wrap-around the duration rule never fires, and with it the edit is never made |
| DetailScreen.CreateNotices | app/src/main/java/com/example/villactiva/DetailActivity.kt:104-155 | the create toasts start with the failing rules' notices and hold at least one notice; when the rules pass there is exactly one more |
| DetailScreen.CreateAccepted | app/src/main/java/com/example/villactiva/DetailActivity.kt:150-152 | an accepted booking starts no earlier than now, ends after it starts, and overlaps no document of the snapshot |
| DetailScreen.CreateNoticesSpec | app/src/main/java/com/example/villactiva/DetailActivity.kt:104-155 | the create path shows "dates valid" iff the slot is accepted, reports a conflict only when the rules held and a reservation overlaps, and otherwise reports only the failing rules |
| DetailScreen.NewRecord | app/src/main/java/com/example/villactiva/DetailActivity.kt:165-173 | the saved record reads back exactly the selected start and end, and carries the place and the user |
| DetailScreen.AcceptedBookingKeepsDisjoint | app/src/main/java/com/example/villactiva/DetailActivity.kt:136-155 | adding a slot the create path accepted to a non-overlapping collection keeps it non-overlapping |
| DetailScreen.DetailActivity.constructor | app/src/main/java/com/example/villactiva/DetailActivity.kt:40-57 | the screen starts with the place from the intent, no slot selected, and the save button hidden |
| DetailScreen.DetailActivity.PickSlot | app/src/main/java/com/example/villactiva/DetailActivity.kt:79-80 | the picked instant becomes the start, and the end is the start plus one hour (wrapping only at the top of the `Long` range) |
| DetailScreen.DetailActivity.ValidateDates | app/src/main/java/com/example/villactiva/DetailActivity.kt:98-160 | the place query keeps the documents of `idPlace`; the save button ends visible iff all four rules pass and no document of that place overlaps; the scan reads nothing when a rule failed |
| DetailScreen.DetailActivity.PickSlotAndValidate | app/src/main/java/com/example/villactiva/DetailActivity.kt:79-82 | the picked slot is validated; on success the button shows iff the slot is accepted; a failed query only shows its message, and the button keeps its previous visibility |
| DetailScreen.DetailActivity.PickSlotAndValidateIntended | app/src/main/java/com/example/villactiva/DetailActivity.kt:157-159 | intended: a failed query also hides the button, so the button is shown iff the query succeeded and the selected slot is accepted |
| DetailScreen.DetailActivity.SaveReservation | app/src/main/java/com/example/villactiva/DetailActivity.kt:162-200 | the record holds the selected start and end, the place's name, description and image, `idPlace` and `userId`; it is written under the generated id to the global collection and, only after that write succeeded, under the same id to the user's collection |
| PathAgreement.PathsAgreeWithoutOwnDocument | app/src/main/java/com/example/villactiva/ReservationsFragment.kt:241-255 | when no document has the edited id, the edit and create paths accept the same slots, and once the rules hold they report a conflict for the same slots |
| PathAgreement.OnlyEditReportsConflictWhenRulesFail | app/src/main/java/com/example/villactiva/DetailActivity.kt:136 | when a rule fails and a conflict exists, only the edit path reports the conflict |
| PathAgreement.OwnDocumentDoesNotBlockEdit | app/src/main/java/com/example/villactiva/ReservationsFragment.kt:245 | keeping a reservation at its own slot passes the edit scan, though the same slot is refused as a new booking |
| PathAgreement.SavedReservationReadsBack | app/src/main/java/com/example/villactiva/DetailActivity.kt:165-188 | a saved record read back as a list entry has the generated id and the picked instants, and the conflict test sees exactly the saved slot |
| PathAgreement.AcceptedBookingScenario | app/src/main/java/com/example/villactiva/DetailActivity.kt:150-152 | a free Monday 10:00 to 11:00 slot in the future is accepted |
| PathAgreement.WeekendRejectionScenario | app/src/test/java/com/example/villactiva/DetailActivityTest.kt:43-56 | a Saturday start raises only the weekend notice |
| PathAgreement.ConflictRejectionScenario | app/src/main/java/com/example/villactiva/DetailActivity.kt:141-144 | 10:30 to 11:30 against a booked 10:00 to 11:00 raises the conflict notice |
| PathAgreement.AdjacentBookingScenario | app/src/main/java/com/example/villactiva/DetailActivity.kt:141 | 11:00 to 12:00 right after a booked 10:00 to 11:00 is accepted |
| PathAgreement.OtherPlaceScenario | app/src/main/java/com/example/villactiva/DetailActivity.kt:100-102 | a booking of the same hour at another place does not block the slot |
| PathAgreement.AllRuleFailuresCollectedScenario | app/src/main/java/com/example/villactiva/DetailActivity.kt:110-133 | a past ten-minute Saturday 22:00 slot raises the weekend, hours and past notices together, and no duration notice |
| SourceFindings.EditLeavesGlobalCollection | app/src/main/java/com/example/villactiva/ReservationsFragment.kt:264-267 | as written, the edit's update leaves the global collection the scans read unchanged |
| SourceFindings.EditedSlotStaysBookable | app/src/main/java/com/example/villactiva/ReservationsFragment.kt:252-273 | as written, after an accepted edit the new slot (where the old one does not overlap it) is still accepted for a new booking |
| SourceFindings.EditKeepsOldSlotBlocked | app/src/main/java/com/example/villactiva/ReservationsFragment.kt:252-273 | as written, after an accepted edit the reservation's old non-empty slot is still refused to every new booking |
| SourceFindings.DoubleBookingAfterEdit | app/src/main/java/com/example/villactiva/ReservationsFragment.kt:262-273 | as written, r1 moved from 10:00-11:00 to 12:00-13:00 is accepted, 12:00-13:00 is then accepted for a new booking, and it overlaps the moved user copy |
| SourceFindings.IntendedEditKeepsDisjoint | app/src/main/java/com/example/villactiva/ReservationsFragment.kt:241-255 | intended: with the global copy moved too, the global documents are the moved collection, and an accepted edit keeps them free of overlap |
| SourceFindings.DeleteLeavesSlotBlocked | app/src/main/java/com/example/villactiva/ReservationsFragment.kt:154-162 | as written, deleting the user's copy leaves the global collection unchanged, and the deleted reservation's non-empty slot is still refused |
| SourceFindings.IntendedDeleteFreesSlot | app/src/main/java/com/example/villactiva/ReservationsFragment.kt:154-162 | intended: with the global copy deleted too, the global documents lose exactly that reservation, and its slot is accepted again whenever the rules allow it |
| SourceFindings.HalfSavedBookingIsUnlisted | app/src/main/java/com/example/villactiva/DetailActivity.kt:179-195 | as written, when only the first write succeeds the global copy blocks the slot, while the user's collection and list have no entry for it |
| SourceFindings.IntendedSaveRequests | app/src/main/java/com/example/villactiva/DetailActivity.kt:179-188 | intended: the two writes as one batch, both or none |
| SourceFindings.IntendedSaveKeepsCopiesInStep | app/src/main/java/com/example/villactiva/DetailActivity.kt:179-188 | intended: with the batch, the booking is in the global collection iff it is in the user's, iff the batch was committed |
| SourceFindings.StaleButtonScenario | app/src/main/java/com/example/villactiva/DetailActivity.kt:157-159 | as written, a validated Monday slot shows the button; picking a Saturday slot whose query fails leaves it shown, and saving writes the Saturday slot, which the rules refuse |
| SourceFindings.HiddenButtonScenario | app/src/main/java/com/example/villactiva/DetailActivity.kt:157-159 | intended: in the same run, the failed query hides the button |

## Left out

- Firestore itself is left out: the server, its listeners and its storage.
  Callbacks take the documents they receive, or None for a failed query, and
  a success flag for a write. Writes are `Request` values. `Apply` gives a
  write's effect on one collection's documents. It does not model document
  order, which Firestore decides; `set` appends.
- The race is not modelled. Another booking can be written between the conflict
  read and the later write. That is a concurrency property outside a sequential
  model.
- After a successful update, `updateReservation` calls `fetchReservations`
  again. That chain is not modelled; `FetchReservations` models the refetch.
- Android UI is left out: toast texts (the two paths word their messages
  differently), dialogs, date and time pickers, Glide, and the RecyclerView
  binding. Views appear only as the `noReservationsShown` and
  `saveButtonVisible` booleans.
- `java.util.Calendar` and the system clock are parameters: `cal` and `now`.
  The pickers' `minDate` restriction is UI and is not modelled.
- In `DetailActivity.onCreate`, the early `finish()` when no user is stored is
  left out, along with reading the session from SharedPreferences. The
  constructor models the path that reaches the place data.
- After the second write succeeds, `saveReservation` calls `finish()`. That step
  is not modelled.
- `toObject` is modelled only for the fields the app writes. A document whose
  fields have other types is not modelled.
- `ToMillis` and `MillisOrZero` return unbounded integers. A timestamp whose
  milliseconds leave the `Long` range cannot come from the app's own writes and
  is not modelled.
- LoginActivity, MainActivity, HomeFragment, the adapter and the build script
  hold no part of the slot logic.
- `Timestamp` is any pair of integers. Firebase's constructor throws for a
  nanosecond part outside `[0, 10^9)` and for seconds outside the years 1 to
  9999. `FromMillis` always gives a nanosecond part in range (its contract),
  but the range of years is not modelled. Instants the pickers produce lie in
  it.
- The `ReservationsFragment` constructor starts with the "no reservations"
  message hidden. Its initial visibility comes from a layout file that is not
  part of this model.

## Findings

| source | as written | input that shows it | evidently intended | confidence | as-written member | corrected member |
|---|---|---|---|---|---|---|
| app/src/main/java/com/example/villactiva/ReservationsFragment.kt:262-273 | an accepted edit updates only `User/{user}/Reservations/{id}`; the global copy the scans read keeps the old slot | r1 at Monday 10:00-11:00, moved to 12:00-13:00; another user's booking of 12:00-13:00 is then accepted and overlaps the moved copy | the edit also moves the global copy, so the place's reservations stay free of overlap | medium, not executed (something outside the repository could sync the copies) | SourceFindings.DoubleBookingAfterEdit | SourceFindings.IntendedEditKeepsDisjoint |
| app/src/main/java/com/example/villactiva/ReservationsFragment.kt:154-162 | `deleteReservation` deletes only the user's copy; the global copy keeps blocking the slot | any deleted reservation with a non-empty slot: a new booking of that slot is refused | the delete also removes the global copy, so the freed slot can be booked again | medium, not executed (something outside the repository could sync the copies) | SourceFindings.DeleteLeavesSlotBlocked | SourceFindings.IntendedDeleteFreesSlot |
| app/src/main/java/com/example/villactiva/DetailActivity.kt:179-195 | the user's copy is written in a second request after the first succeeds; if it fails, the global copy stays | global write succeeds, user write fails: the slot is blocked but never listed for the user | both writes in one batch | low, not executed | SourceFindings.HalfSavedBookingIsUnlisted | SourceFindings.IntendedSaveKeepsCopiesInStep |
| app/src/main/java/com/example/villactiva/DetailActivity.kt:157-159 | the failure listener of `validateDates` leaves the save button as it was | validate a free Monday slot (button shown), pick a Saturday slot, query fails: the button stays shown and saving writes the Saturday slot | a failed query hides the button | medium, not executed | SourceFindings.StaleButtonScenario | DetailScreen.DetailActivity.PickSlotAndValidateIntended |
