/**
 * The place detail screen (app/src/main/java/com/example/villactiva/DetailActivity.kt):
 * picking a one-hour slot, validating it against the business rules and, only
 * when they hold, against every reservation of the place, and saving it to
 * both the global and the user's collection.
 */
module DetailScreen {
  import opened ReservationModel
  import opened Firestore
  import opened SlotRules

  // ---------------------------------------------------------------------------
  // The create path's specification

  /**
   * What the create callback toasts: each failing rule; and, only when all
   * rules hold, either the conflict message or the "dates are valid" message.
   */
  function CreateNotices(f: CalendarFields, start: int, end: int, now: int, docs: seq<Document>): (ns: seq<Notice>)
    ensures |ns| >= 1 && QueryFailed !in ns
    ensures RuleNotices(f, start, end, now) <= ns
    ensures RulesPass(f, start, end, now) ==> |ns| == 1
  {
    RuleNotices(f, start, end, now)
    + (if !RulesPass(f, start, end, now) then []
       else if HasConflict(start, end, docs, None) then [SlotTaken]
       else [DatesValid])
  }

  /** The slot may be saved: every rule holds and no reservation of the place overlaps it. */
  predicate CreateAccepted(f: CalendarFields, start: int, end: int, now: int, docs: seq<Document>)
    ensures CreateAccepted(f, start, end, now, docs) ==>
              now <= start < end && forall j :: 0 <= j < |docs| ==>
                                      !Overlaps(start, end, DocStartMillis(docs[j]), DocEndMillis(docs[j]))
  {
    RulesPass(f, start, end, now) && !HasConflict(start, end, docs, None)
  }

  /**
   * The create toasts end in "dates valid" exactly when the slot is accepted,
   * report a conflict only when the rules held and some reservation overlaps,
   * and otherwise are the failing rules alone.
   */
  lemma CreateNoticesSpec(f: CalendarFields, start: int, end: int, now: int, docs: seq<Document>)
    ensures var ns := CreateNotices(f, start, end, now, docs);
      && (DatesValid in ns <==> CreateAccepted(f, start, end, now, docs))
      && (CreateAccepted(f, start, end, now, docs) ==> ns == [DatesValid])
      && (SlotTaken in ns <==> RulesPass(f, start, end, now)
                               && exists j :: 0 <= j < |docs| && IsConflict(start, end, docs[j], None))
      && (!RulesPass(f, start, end, now) ==> ns == RuleNotices(f, start, end, now))
      && |ns| >= 1
  {
  }

  /** The fields of the document `saveReservation` writes. */
  function NewRecord(name: string, description: string, image: string, start: int, end: int,
                     place: string, user: string): (rec: Record)
    ensures MillisOrZero(rec.dateStart) == start && MillisOrZero(rec.dateEnd) == end
    ensures rec.idPlace == place && rec.userId == user
  {
    Record(name, description, image, Some(FromMillis(start)), Some(FromMillis(end)), place, user)
  }

  /** Adding an accepted booking to a place whose reservations do not overlap keeps them free of overlap. */
  lemma AcceptedBookingKeepsDisjoint(f: CalendarFields, start: int, end: int, now: int,
                                     docs: seq<Document>, newDoc: Document)
    requires PairwiseDisjoint(docs)
    requires CreateAccepted(f, start, end, now, docs)
    requires DocStartMillis(newDoc) == start && DocEndMillis(newDoc) == end
    ensures PairwiseDisjoint(docs + [newDoc])
  {
    var all := docs + [newDoc];
    forall i, j | 0 <= i < j < |all|
      ensures !Overlaps(DocStartMillis(all[i]), DocEndMillis(all[i]), DocStartMillis(all[j]), DocEndMillis(all[j]))
    {
      if j == |docs| {
        assert !IsConflict(start, end, docs[i], None);
        OverlapsSymmetric(start, end, DocStartMillis(docs[i]), DocEndMillis(docs[i]));
      }
    }
  }

  // ---------------------------------------------------------------------------
  // The screen

  class DetailActivity {
    /** The user read from the shared preferences at creation. */
    var loggedInUser: string
    /** The place the screen was opened for, from the intent extras. */
    var idPlace: string
    var placeName: string
    var placeDescription: string
    var placeImage: string
    var selectedStartDate: Long
    var selectedEndDate: Long
    /** Whether the save button is shown. */
    var saveButtonVisible: bool

    /**
     * `onCreate` once a signed-in user is known: the place data from the intent
     * (missing extras already read as ""), no slot picked, save button hidden.
     */
    constructor (storedUser: string, name: string, description: string, image: string, placeId: string)
      ensures loggedInUser == storedUser && idPlace == placeId
      ensures placeName == name && placeDescription == description && placeImage == image
      ensures selectedStartDate == 0 && selectedEndDate == 0
      ensures !saveButtonVisible
    {
      loggedInUser := storedUser;
      idPlace := placeId;
      placeName := name;
      placeDescription := description;
      placeImage := image;
      selectedStartDate := 0;
      selectedEndDate := 0;
      saveButtonVisible := false;
    }

    /** The time picker's callback: the picked instant starts the slot and the slot lasts one hour. */
    method PickSlot(picked: Long)
      modifies this`selectedStartDate, this`selectedEndDate
      ensures selectedStartDate == picked
      ensures selectedEndDate == PlusOneHour(picked)
      ensures picked <= LONG_MAX - ONE_HOUR_MILLIS ==> selectedEndDate == selectedStartDate + ONE_HOUR_MILLIS
    {
      selectedStartDate := picked;
      selectedEndDate := PlusOneHour(selectedStartDate);
    }

    /**
     * The success callback of `validateDates`, given the documents of the
     * global "Reservations" collection (the query keeps those of `idPlace`),
     * the calendar and the current time. The conflict scan runs only when the
     * four rules held, and excludes no document. The save button ends shown
     * exactly when nothing failed.
     */
    method ValidateDates(collection: seq<Document>, now: Long, cal: Calendar)
      returns (notices: seq<Notice>, ghost examined: nat)
      modifies this`saveButtonVisible
      ensures saveButtonVisible <==> CreateAccepted(cal(selectedStartDate), selectedStartDate, selectedEndDate, now,
                                                    WhereIdPlace(collection, idPlace))
      ensures saveButtonVisible <==> RulesPass(cal(selectedStartDate), selectedStartDate, selectedEndDate, now)
                                     && !exists j :: 0 <= j < |collection| && collection[j].fields.idPlace == idPlace
                                                     && IsConflict(selectedStartDate, selectedEndDate, collection[j], None)
      ensures notices == CreateNotices(cal(selectedStartDate), selectedStartDate, selectedEndDate, now,
                                       WhereIdPlace(collection, idPlace))
      ensures !RulesPass(cal(selectedStartDate), selectedStartDate, selectedEndDate, now) ==> examined == 0
      ensures RulesPass(cal(selectedStartDate), selectedStartDate, selectedEndDate, now) ==>
                examined == match FindConflict(selectedStartDate, selectedEndDate, WhereIdPlace(collection, idPlace), None)
                            case Some(k) => k + 1
                            case None => |WhereIdPlace(collection, idPlace)|
    {
      var snapshot := WhereIdPlace(collection, idPlace);
      var isValid, ruleNotices := CheckRules(cal(selectedStartDate), selectedStartDate, selectedEndDate, now);
      notices := ruleNotices;
      examined := 0;
      if isValid {
        var conflict;
        conflict, examined := ScanForConflict(selectedStartDate, selectedEndDate, snapshot, None);
        if conflict {
          isValid := false;
          notices := notices + [SlotTaken];
        }
      }
      if isValid {
        saveButtonVisible := true;
        notices := notices + [DatesValid];
      } else {
        saveButtonVisible := false;
      }
      OnlyThePlaceBlocks(selectedStartDate, selectedEndDate, collection, idPlace, None);
    }

    /**
     * The time picker's callback in `openDatePicker` followed by `validateDates`
     * as written: `response` is the global collection the place query read, or
     * None when the query failed. The failure listener only shows its message,
     * so the save button keeps the visibility it had for the previous slot.
     */
    method PickSlotAndValidate(picked: Long, response: Option<seq<Document>>, now: Long, cal: Calendar)
      returns (notices: seq<Notice>)
      modifies this`selectedStartDate, this`selectedEndDate, this`saveButtonVisible
      ensures selectedStartDate == picked && selectedEndDate == PlusOneHour(picked)
      ensures response.Some? ==>
                && (saveButtonVisible <==> CreateAccepted(cal(picked), picked, PlusOneHour(picked), now,
                                                          WhereIdPlace(response.value, idPlace)))
                && notices == CreateNotices(cal(picked), picked, PlusOneHour(picked), now, WhereIdPlace(response.value, idPlace))
      ensures response.None? ==> saveButtonVisible == old(saveButtonVisible) && notices == [QueryFailed]
    {
      PickSlot(picked);
      if response.Some? {
        ghost var examined;
        notices, examined := ValidateDates(response.value, now, cal);
      } else {
        notices := [QueryFailed];
      }
    }

    /**
     * The same callback with the failure listener evidently intended: a failed
     * query also hides the save button, so the button is shown only while the
     * selected slot is one the create path accepted.
     */
    method PickSlotAndValidateIntended(picked: Long, response: Option<seq<Document>>, now: Long, cal: Calendar)
      returns (notices: seq<Notice>)
      modifies this`selectedStartDate, this`selectedEndDate, this`saveButtonVisible
      ensures selectedStartDate == picked && selectedEndDate == PlusOneHour(picked)
      ensures response.Some? ==>
                notices == CreateNotices(cal(picked), picked, PlusOneHour(picked), now, WhereIdPlace(response.value, idPlace))
      ensures response.None? ==> !saveButtonVisible && notices == [QueryFailed]
      ensures saveButtonVisible <==> response.Some? && CreateAccepted(cal(selectedStartDate), selectedStartDate, selectedEndDate,
                                                                       now, WhereIdPlace(response.value, idPlace))
    {
      PickSlot(picked);
      if response.Some? {
        ghost var examined;
        notices, examined := ValidateDates(response.value, now, cal);
      } else {
        saveButtonVisible := false;
        notices := [QueryFailed];
      }
    }

    /**
     * `saveReservation`, given the generated document id and whether the write
     * to the global collection succeeded: the record is written under that id
     * to the global collection, and only after that write succeeded, to the
     * user's collection.
     */
    method SaveReservation(reservationId: string, globalWriteSucceeded: bool)
      returns (record: Record, requests: seq<Request>)
      ensures record.name == placeName && record.description == placeDescription && record.image == placeImage
      ensures record.idPlace == idPlace && record.userId == loggedInUser
      ensures record.dateStart == Some(FromMillis(selectedStartDate)) && record.dateEnd == Some(FromMillis(selectedEndDate))
      ensures MillisOrZero(record.dateStart) == selectedStartDate && MillisOrZero(record.dateEnd) == selectedEndDate
      ensures |requests| == if globalWriteSucceeded then 2 else 1
      ensures requests[0] == SetDocument(GlobalReservations(), reservationId, record)
      ensures globalWriteSucceeded ==> requests[1] == SetDocument(UserReservations(loggedInUser), reservationId, record)
    {
      record := NewRecord(placeName, placeDescription, placeImage, selectedStartDate, selectedEndDate,
                          idPlace, loggedInUser);
      requests := [SetDocument(GlobalReservations(), reservationId, record)];
      if globalWriteSucceeded {
        requests := requests + [SetDocument(UserReservations(loggedInUser), reservationId, record)];
      }
    }
  }
}
