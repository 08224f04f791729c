/**
 * Places where the app's code does something other than what it evidently
 * means to do. Each one comes in two halves: what the code as written leads
 * to, and the intended definition with the property it then has.
 *
 * Collections are given by their documents. `docs` stands for the global
 * "Reservations" documents of one place, which is what both conflict scans
 * read (DetailActivity.kt:100-102, ReservationsFragment.kt:205-207).
 */
module SourceFindings {
  import opened ReservationModel
  import opened Firestore
  import opened SlotRules
  import opened ReservationsScreen
  import opened DetailScreen
  import opened PathAgreement

  // ---------------------------------------------------------------------------
  // An edit moves only the user's copy (ReservationsFragment.kt:262-273)

  /** As written: the edit's one write goes to the user's copy, so the global collection the scans read is unchanged. */
  lemma EditLeavesGlobalCollection(user: string, ownId: string, start: int, end: int, docs: seq<Document>)
    ensures Apply(GlobalReservations(), docs, UpdateRequest(user, ownId, start, end)) == docs
  {
  }

  /**
   * As written: after an accepted edit to a slot its old slot does not
   * overlap, the new slot is still free in the global collection, so another
   * user's booking of it is accepted as well.
   */
  lemma EditedSlotStaysBookable(f: CalendarFields, start: int, end: int, now: int,
                                docs: seq<Document>, ownId: string, user: string)
    requires EditAccepted(f, start, end, now, docs, ownId)
    requires forall j :: 0 <= j < |docs| && docs[j].id == ownId ==>
               !Overlaps(start, end, DocStartMillis(docs[j]), DocEndMillis(docs[j]))
    ensures CreateAccepted(f, start, end, now, Apply(GlobalReservations(), docs, UpdateRequest(user, ownId, start, end)))
  {
    forall j | 0 <= j < |docs|
      ensures !IsConflict(start, end, docs[j], None)
    {
      if docs[j].id != ownId {
        assert !IsConflict(start, end, docs[j], Some(ownId));
      }
    }
  }

  /** As written: after an accepted edit the reservation's old, non-empty slot still blocks every new booking of it. */
  lemma EditKeepsOldSlotBlocked(f: CalendarFields, g: CalendarFields, start: int, end: int, now: int,
                                docs: seq<Document>, k: nat, user: string)
    requires k < |docs| && DocStartMillis(docs[k]) < DocEndMillis(docs[k])
    requires EditAccepted(f, start, end, now, docs, docs[k].id)
    ensures !CreateAccepted(g, DocStartMillis(docs[k]), DocEndMillis(docs[k]), now,
                            Apply(GlobalReservations(), docs, UpdateRequest(user, docs[k].id, start, end)))
  {
    assert IsConflict(DocStartMillis(docs[k]), DocEndMillis(docs[k]), docs[k], None);
  }

  /** 2025-01-06T12:00Z, two hours after MONDAY_10AM. */
  const MONDAY_NOON: int := MONDAY_10AM + 2 * ONE_HOUR_MILLIS

  /**
   * As written, one input: user u1 moves r1 from 10:00-11:00 to 12:00-13:00,
   * which is accepted; the global collection is unchanged, so user u2's
   * booking of 12:00-13:00 is accepted too, and it overlaps u1's moved copy.
   */
  lemma DoubleBookingAfterEdit()
    ensures var r1 := Slot("r1", "R1", MONDAY_10AM, MONDAY_10AM + ONE_HOUR_MILLIS);
      var f := CalendarFields(MONDAY, 12);
      var now := MONDAY_10AM - 2 * ONE_HOUR_MILLIS;
      var edit := UpdateRequest("u1", "r1", MONDAY_NOON, MONDAY_NOON + ONE_HOUR_MILLIS);
      var userCopy := Apply(UserReservations("u1"), [r1], edit);
      var global := Apply(GlobalReservations(), [r1], edit);
      && EditAccepted(f, MONDAY_NOON, MONDAY_NOON + ONE_HOUR_MILLIS, now, [r1], "r1")
      && global == [r1]
      && CreateAccepted(f, MONDAY_NOON, MONDAY_NOON + ONE_HOUR_MILLIS, now, global)
      && |userCopy| == 1 && userCopy[0].id == "r1"
      && Overlaps(DocStartMillis(userCopy[0]), DocEndMillis(userCopy[0]), MONDAY_NOON, MONDAY_NOON + ONE_HOUR_MILLIS)
  {
    var r1 := Slot("r1", "R1", MONDAY_10AM, MONDAY_10AM + ONE_HOUR_MILLIS);
    var edit := UpdateRequest("u1", "r1", MONDAY_NOON, MONDAY_NOON + ONE_HOUR_MILLIS);
    var userCopy := Apply(UserReservations("u1"), [r1], edit);
    assert !IsConflict(MONDAY_NOON, MONDAY_NOON + ONE_HOUR_MILLIS, [r1][0], None);
    assert userCopy[0].fields.dateStart == Some(edit.dateStart);
    assert userCopy[0].fields.dateEnd == Some(edit.dateEnd);
  }

  /**
   * Intended: when the edit also moves the global copy, an accepted edit
   * keeps the place's reservations free of overlap, because the scan skipped
   * only the moved reservation itself.
   */
  lemma IntendedEditKeepsDisjoint(f: CalendarFields, start: int, end: int, now: int,
                                  docs: seq<Document>, ownId: string, user: string)
    requires PairwiseDisjoint(docs) && DistinctIds(docs)
    requires EditAccepted(f, start, end, now, docs, ownId)
    ensures ApplyAll(GlobalReservations(), docs, IntendedUpdateRequests(user, ownId, start, end))
            == MoveReservation(docs, ownId, start, end)
    ensures PairwiseDisjoint(ApplyAll(GlobalReservations(), docs, IntendedUpdateRequests(user, ownId, start, end)))
  {
    var qs := IntendedUpdateRequests(user, ownId, start, end);
    var moved := MoveReservation(docs, ownId, start, end);
    assert Apply(GlobalReservations(), docs, qs[0]) == moved;
    assert ApplyAll(GlobalReservations(), moved, qs[1..]) == moved;
    forall i, j | 0 <= i < j < |moved|
      ensures !Overlaps(DocStartMillis(moved[i]), DocEndMillis(moved[i]), DocStartMillis(moved[j]), DocEndMillis(moved[j]))
    {
      if docs[i].id == ownId {
        assert docs[j].id != ownId && !IsConflict(start, end, docs[j], Some(ownId));
      } else if docs[j].id == ownId {
        assert !IsConflict(start, end, docs[i], Some(ownId));
        OverlapsSymmetric(start, end, DocStartMillis(docs[i]), DocEndMillis(docs[i]));
      }
    }
  }

  // ---------------------------------------------------------------------------
  // A delete removes only the user's copy (ReservationsFragment.kt:154-162)

  /**
   * As written: `deleteReservation` deletes the user's copy only, so the global
   * collection keeps the reservation and its non-empty slot stays blocked for
   * every later booking.
   */
  lemma DeleteLeavesSlotBlocked(f: CalendarFields, now: int, docs: seq<Document>, k: nat, user: string)
    requires k < |docs| && DocStartMillis(docs[k]) < DocEndMillis(docs[k])
    ensures Apply(GlobalReservations(), docs, DeleteDocument(UserReservations(user), docs[k].id)) == docs
    ensures !CreateAccepted(f, DocStartMillis(docs[k]), DocEndMillis(docs[k]), now,
                            Apply(GlobalReservations(), docs, DeleteDocument(UserReservations(user), docs[k].id)))
  {
    assert IsConflict(DocStartMillis(docs[k]), DocEndMillis(docs[k]), docs[k], None);
  }

  /**
   * Intended: when the delete also removes the global copy, the freed slot can
   * be booked again by anyone whose booking the rules allow, since no other
   * reservation of the place overlaps it.
   */
  lemma IntendedDeleteFreesSlot(f: CalendarFields, now: int, docs: seq<Document>, k: nat, user: string)
    requires k < |docs| && PairwiseDisjoint(docs) && DistinctIds(docs)
    requires RulesPass(f, DocStartMillis(docs[k]), DocEndMillis(docs[k]), now)
    ensures ApplyAll(GlobalReservations(), docs, IntendedDeleteRequests(user, docs[k].id)) == WithoutId(docs, docs[k].id)
    ensures CreateAccepted(f, DocStartMillis(docs[k]), DocEndMillis(docs[k]), now,
                           ApplyAll(GlobalReservations(), docs, IntendedDeleteRequests(user, docs[k].id)))
  {
    var id := docs[k].id;
    IntendedDeleteRemovesGlobalCopy(docs, id, user);
    NoOtherReservationOverlaps(docs, k);
    ExclusionIsRemoval(DocStartMillis(docs[k]), DocEndMillis(docs[k]), docs, id);
  }

  lemma IntendedDeleteRemovesGlobalCopy(docs: seq<Document>, id: string, user: string)
    ensures ApplyAll(GlobalReservations(), docs, IntendedDeleteRequests(user, id)) == WithoutId(docs, id)
  {
    var qs := IntendedDeleteRequests(user, id);
    var rest := WithoutId(docs, id);
    assert Apply(GlobalReservations(), docs, qs[0]) == rest;
    assert ApplyAll(GlobalReservations(), rest, qs[1..]) == rest;
  }

  /** In a collection free of overlap, no document other than `docs[k]` overlaps its slot. */
  lemma NoOtherReservationOverlaps(docs: seq<Document>, k: nat)
    requires k < |docs| && PairwiseDisjoint(docs) && DistinctIds(docs)
    ensures !HasConflict(DocStartMillis(docs[k]), DocEndMillis(docs[k]), docs, Some(docs[k].id))
  {
    var start, end := DocStartMillis(docs[k]), DocEndMillis(docs[k]);
    forall j | 0 <= j < |docs|
      ensures !IsConflict(start, end, docs[j], Some(docs[k].id))
    {
      if j < k {
        OverlapsSymmetric(start, end, DocStartMillis(docs[j]), DocEndMillis(docs[j]));
      }
    }
  }

  // ---------------------------------------------------------------------------
  // The create path's two writes are separate (DetailActivity.kt:177-199)

  /**
   * As written: when the second write fails, the global copy holds the new
   * booking and blocks its slot, while the user's collection, and so the list
   * the user sees, has no entry for it.
   */
  lemma HalfSavedBookingIsUnlisted(f: CalendarFields, now: int, global: seq<Document>, userDocs: seq<Document>,
                                   id: string, rec: Record, user: string)
    requires forall j :: 0 <= j < |userDocs| ==> userDocs[j].id != id
    requires MillisOrZero(rec.dateStart) < MillisOrZero(rec.dateEnd)
    ensures Document(id, rec) in Apply(GlobalReservations(), global, SetDocument(GlobalReservations(), id, rec))
    ensures !CreateAccepted(f, MillisOrZero(rec.dateStart), MillisOrZero(rec.dateEnd), now,
                            Apply(GlobalReservations(), global, SetDocument(GlobalReservations(), id, rec)))
    ensures Apply(UserReservations(user), userDocs, SetDocument(GlobalReservations(), id, rec)) == userDocs
    ensures forall i :: 0 <= i < |FromSnapshot(userDocs)| ==> FromSnapshot(userDocs)[i].id != id
  {
    var saved := Apply(GlobalReservations(), global, SetDocument(GlobalReservations(), id, rec));
    var d := Document(id, rec);
    assert d in saved;
    var k :| 0 <= k < |saved| && saved[k] == d;
    assert IsConflict(MillisOrZero(rec.dateStart), MillisOrZero(rec.dateEnd), saved[k], None);
    forall i | 0 <= i < |FromSnapshot(userDocs)|
      ensures FromSnapshot(userDocs)[i].id != id
    {
      FromSnapshotAt(userDocs, i);
    }
  }

  /** Intended: the two `set` writes go in one batch, carried out together or not at all. */
  function IntendedSaveRequests(user: string, id: string, rec: Record, committed: bool): (qs: seq<Request>)
    ensures committed ==> qs == [SetDocument(GlobalReservations(), id, rec), SetDocument(UserReservations(user), id, rec)]
    ensures !committed ==> qs == []
  {
    if committed then [SetDocument(GlobalReservations(), id, rec), SetDocument(UserReservations(user), id, rec)] else []
  }

  /** Intended: with the batched writes the booking is in the global collection exactly when it is in the user's. */
  lemma IntendedSaveKeepsCopiesInStep(global: seq<Document>, userDocs: seq<Document>,
                                      id: string, rec: Record, user: string, committed: bool)
    requires Document(id, rec) !in global && Document(id, rec) !in userDocs
    ensures var qs := IntendedSaveRequests(user, id, rec, committed);
      && (Document(id, rec) in ApplyAll(GlobalReservations(), global, qs) <==> committed)
      && (Document(id, rec) in ApplyAll(UserReservations(user), userDocs, qs) <==> committed)
  {
    var qs := IntendedSaveRequests(user, id, rec, committed);
    if committed {
      var g1 := Apply(GlobalReservations(), global, qs[0]);
      assert ApplyAll(GlobalReservations(), global, qs) == ApplyAll(GlobalReservations(), g1, qs[1..]);
      assert ApplyAll(GlobalReservations(), g1, qs[1..]) == g1 by {
        assert ApplyAll(GlobalReservations(), g1, qs[1..]) == ApplyAll(GlobalReservations(), Apply(GlobalReservations(), g1, qs[1]), []);
      }
      var u1 := Apply(UserReservations(user), userDocs, qs[0]);
      assert u1 == userDocs;
      assert ApplyAll(UserReservations(user), userDocs, qs) == ApplyAll(UserReservations(user), u1, qs[1..]);
      assert ApplyAll(UserReservations(user), u1, qs[1..]) == Apply(UserReservations(user), u1, qs[1]) by {
        assert ApplyAll(UserReservations(user), u1, qs[1..]) == ApplyAll(UserReservations(user), Apply(UserReservations(user), u1, qs[1]), []);
      }
    }
  }

  // ---------------------------------------------------------------------------
  // A failed validation leaves the save button as it was (DetailActivity.kt:157-159)

  /** A calendar that places MONDAY_10AM on a Monday at 10:00 and every other instant on a Saturday at 10:00. */
  function MondayThenSaturday(t: int): CalendarFields
  {
    if t == MONDAY_10AM then CalendarFields(MONDAY, 10) else CalendarFields(SATURDAY, 10)
  }

  /** Five days after MONDAY_10AM: Saturday 2025-01-11T10:00Z. */
  const SATURDAY_10AM: int := MONDAY_10AM + 5 * 24 * ONE_HOUR_MILLIS

  /**
   * As written, one run: a free Monday slot is validated and the save button
   * shown; the user then picks a Saturday slot and the place query fails; the
   * button is still shown, and saving writes the Saturday slot, which the
   * weekend rule refuses.
   */
  method StaleButtonScenario() returns (visible: bool, record: Record)
    ensures visible
    ensures MillisOrZero(record.dateStart) == SATURDAY_10AM
    ensures MillisOrZero(record.dateEnd) == SATURDAY_10AM + ONE_HOUR_MILLIS
    ensures !CreateAccepted(MondayThenSaturday(SATURDAY_10AM), SATURDAY_10AM, SATURDAY_10AM + ONE_HOUR_MILLIS,
                            MONDAY_10AM - 2 * ONE_HOUR_MILLIS, [])
  {
    var screen := new DetailActivity("u1", "", "", "", "R1");
    var now := MONDAY_10AM - 2 * ONE_HOUR_MILLIS;
    var notices := screen.PickSlotAndValidate(MONDAY_10AM, Some([]), now, MondayThenSaturday);
    notices := screen.PickSlotAndValidate(SATURDAY_10AM, None, now, MondayThenSaturday);
    visible := screen.saveButtonVisible;
    var requests;
    record, requests := screen.SaveReservation("r2", true);
  }

  /** Intended, the same run: the failed query hides the button, so the Saturday slot cannot be saved. */
  method HiddenButtonScenario() returns (visible: bool)
    ensures !visible
  {
    var screen := new DetailActivity("u1", "", "", "", "R1");
    var now := MONDAY_10AM - 2 * ONE_HOUR_MILLIS;
    var notices := screen.PickSlotAndValidateIntended(MONDAY_10AM, Some([]), now, MondayThenSaturday);
    notices := screen.PickSlotAndValidateIntended(SATURDAY_10AM, None, now, MondayThenSaturday);
    visible := screen.saveButtonVisible;
  }
}
