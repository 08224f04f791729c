/**
 * How the two copies of the slot check relate: the edit path of
 * ReservationsFragment.kt and the create path of DetailActivity.kt, and what a
 * saved reservation looks like when either path reads it back.
 */
module PathAgreement {
  import opened ReservationModel
  import opened Firestore
  import opened SlotRules
  import opened ReservationsScreen
  import opened DetailScreen

  /**
   * When the snapshot holds no document with the edited reservation's id, the
   * two paths accept the same slots; once the rules hold they also report a
   * conflict for the same slots.
   */
  lemma PathsAgreeWithoutOwnDocument(f: CalendarFields, start: int, end: int, now: int,
                                     docs: seq<Document>, ownId: string)
    requires forall j :: 0 <= j < |docs| ==> docs[j].id != ownId
    ensures EditAccepted(f, start, end, now, docs, ownId) <==> CreateAccepted(f, start, end, now, docs)
    ensures RulesPass(f, start, end, now) ==>
              (SlotTaken in EditNotices(f, start, end, now, docs, ownId)
               <==> SlotTaken in CreateNotices(f, start, end, now, docs))
  {
    ExclusionOfAbsentId(start, end, docs, ownId);
    EditNoticesSpec(f, start, end, now, docs, ownId);
    CreateNoticesSpec(f, start, end, now, docs);
  }

  /**
   * The paths differ when a rule fails: the edit path scans anyway and reports
   * the conflict, the create path never reaches its scan.
   */
  lemma OnlyEditReportsConflictWhenRulesFail(f: CalendarFields, start: int, end: int, now: int,
                                             docs: seq<Document>, ownId: string)
    requires !RulesPass(f, start, end, now)
    requires HasConflict(start, end, docs, Some(ownId))
    ensures SlotTaken in EditNotices(f, start, end, now, docs, ownId)
    ensures SlotTaken !in CreateNotices(f, start, end, now, docs)
  {
    CreateNoticesSpec(f, start, end, now, docs);
  }

  /**
   * A reservation's own document never blocks its edit: keeping a reservation
   * at its current non-empty slot is accepted whenever the rules hold, though
   * booking that slot anew is refused.
   */
  lemma OwnDocumentDoesNotBlockEdit(f: CalendarFields, start: int, end: int, now: int, own: Document)
    requires start < end
    requires DocStartMillis(own) == start && DocEndMillis(own) == end
    ensures EditAccepted(f, start, end, now, [own], own.id) <==> RulesPass(f, start, end, now)
    ensures !CreateAccepted(f, start, end, now, [own])
  {
    assert IsConflict(start, end, [own][0], None);
  }

  /**
   * What the create path writes is what both paths read back: the user-list
   * entry carries the generated id and the picked instants, and the conflict
   * test sees exactly the slot that was saved.
   */
  lemma SavedReservationReadsBack(name: string, description: string, image: string, start: int, end: int,
                                  place: string, user: string, docId: string,
                                  otherStart: int, otherEnd: int, exclude: Option<string>)
    ensures var d := Document(docId, NewRecord(name, description, image, start, end, place, user));
      && Decode(d).id == docId && Decode(d).idPlace == place
      && DateStartMillis(Decode(d)) == start && DateEndMillis(Decode(d)) == end
      && (IsConflict(otherStart, otherEnd, d, exclude)
          <==> Overlaps(otherStart, otherEnd, start, end) && exclude != Some(docId))
  {
  }

  // ---------------------------------------------------------------------------
  // Scenarios on the create path (a calendar is given by the fields it yields for the start)

  /** 2025-01-06T10:00Z, a Monday, in epoch milliseconds. */
  const MONDAY_10AM: int := 1_736_157_600_000

  function Slot(docId: string, place: string, start: int, end: int): Document
  {
    Document(docId, NewRecord("", "", "", start, end, place, ""))
  }

  /** A free Monday 10:00 to 11:00 slot, two hours ahead, is accepted with the "dates valid" message. */
  lemma AcceptedBookingScenario()
    ensures CreateNotices(CalendarFields(MONDAY, 10), MONDAY_10AM, MONDAY_10AM + ONE_HOUR_MILLIS,
                          MONDAY_10AM - 2 * ONE_HOUR_MILLIS, []) == [DatesValid]
  {
  }

  /** The same hour on a Saturday raises the weekend message alone, and the scan never runs. */
  lemma WeekendRejectionScenario(docs: seq<Document>)
    ensures CreateNotices(CalendarFields(SATURDAY, 10), MONDAY_10AM + 5 * 24 * ONE_HOUR_MILLIS,
                          MONDAY_10AM + 5 * 24 * ONE_HOUR_MILLIS + ONE_HOUR_MILLIS,
                          MONDAY_10AM - 2 * ONE_HOUR_MILLIS, docs) == [Weekend]
  {
  }

  /** 10:30 to 11:30 against a booked 10:00 to 11:00 of the same place raises the conflict message. */
  lemma ConflictRejectionScenario()
    ensures var booked := [Slot("r1", "R1", MONDAY_10AM, MONDAY_10AM + ONE_HOUR_MILLIS)];
      CreateNotices(CalendarFields(MONDAY, 10), MONDAY_10AM + ONE_HOUR_MILLIS / 2,
                    MONDAY_10AM + ONE_HOUR_MILLIS / 2 + ONE_HOUR_MILLIS,
                    MONDAY_10AM - 2 * ONE_HOUR_MILLIS, booked) == [SlotTaken]
  {
    var booked := [Slot("r1", "R1", MONDAY_10AM, MONDAY_10AM + ONE_HOUR_MILLIS)];
    assert IsConflict(MONDAY_10AM + ONE_HOUR_MILLIS / 2, MONDAY_10AM + ONE_HOUR_MILLIS / 2 + ONE_HOUR_MILLIS,
                      booked[0], None);
  }

  /** 11:00 to 12:00 right after a booked 10:00 to 11:00 is accepted. */
  lemma AdjacentBookingScenario()
    ensures var booked := [Slot("r1", "R1", MONDAY_10AM, MONDAY_10AM + ONE_HOUR_MILLIS)];
      CreateNotices(CalendarFields(MONDAY, 11), MONDAY_10AM + ONE_HOUR_MILLIS, MONDAY_10AM + 2 * ONE_HOUR_MILLIS,
                    MONDAY_10AM - 2 * ONE_HOUR_MILLIS, booked) == [DatesValid]
  {
    var booked := [Slot("r1", "R1", MONDAY_10AM, MONDAY_10AM + ONE_HOUR_MILLIS)];
    assert !IsConflict(MONDAY_10AM + ONE_HOUR_MILLIS, MONDAY_10AM + 2 * ONE_HOUR_MILLIS, booked[0], None);
  }

  /** The query for place R2 leaves out R1's booking of the same hour, so the slot is accepted. */
  lemma OtherPlaceScenario()
    ensures var store := [Slot("r1", "R1", MONDAY_10AM, MONDAY_10AM + ONE_HOUR_MILLIS)];
      CreateNotices(CalendarFields(MONDAY, 10), MONDAY_10AM, MONDAY_10AM + ONE_HOUR_MILLIS,
                    MONDAY_10AM - 2 * ONE_HOUR_MILLIS, WhereIdPlace(store, "R2")) == [DatesValid]
  {
    var store := [Slot("r1", "R1", MONDAY_10AM, MONDAY_10AM + ONE_HOUR_MILLIS)];
    assert WhereIdPlace(store, "R2") == [];
  }

  /**
   * A ten-minute slot on a Saturday at 22:00 in the past raises the weekend,
   * hours and past-date messages together; it is not reported as too short,
   * because the duration rule only refuses an end at or before the start.
   */
  lemma AllRuleFailuresCollectedScenario(docs: seq<Document>)
    ensures CreateNotices(CalendarFields(SATURDAY, 22), MONDAY_10AM - 60 * ONE_HOUR_MILLIS,
                          MONDAY_10AM - 60 * ONE_HOUR_MILLIS + ONE_HOUR_MILLIS / 6,
                          MONDAY_10AM, docs) == [Weekend, OutsideHours, PastDate]
  {
  }
}
