/**
 * The reservations screen (app/src/main/java/com/example/villactiva/ReservationsFragment.kt):
 * the signed-in user's list of reservations, deleting one, and moving one to a
 * new slot after the business rules and a conflict scan that skips the
 * reservation's own document.
 */
module ReservationsScreen {
  import opened ReservationModel
  import opened Firestore
  import opened SlotRules

  // ---------------------------------------------------------------------------
  // List operations

  /** The list entry built from a document of the user's collection: its fields, with the document id. */
  function Decode(d: Document): (r: Reservation)
    ensures r.id == d.id && r.idPlace == d.fields.idPlace
    ensures DateStartMillis(r) == DocStartMillis(d) && DateEndMillis(r) == DocEndMillis(d)
  {
    WithId(ToObject(d.fields), d.id)
  }

  /** The list the fetch builds from a snapshot, one entry per document, appended in order. */
  function FromSnapshot(docs: seq<Document>): (rs: seq<Reservation>)
    ensures |rs| == |docs|
  {
    if docs == [] then [] else FromSnapshot(docs[..|docs| - 1]) + [Decode(docs[|docs| - 1])]
  }

  /** Entry `i` of the fetched list is document `i` of the snapshot, carrying that document's id. */
  lemma {:induction false} FromSnapshotAt(docs: seq<Document>, i: nat)
    requires i < |docs|
    ensures |FromSnapshot(docs)| == |docs|
    ensures FromSnapshot(docs)[i] == Decode(docs[i])
    ensures FromSnapshot(docs)[i].id == docs[i].id
  {
    var init := docs[..|docs| - 1];
    if i < |docs| - 1 {
      FromSnapshotAt(init, i);
    } else if init != [] {
      FromSnapshotAt(init, 0);
    }
  }

  /** `MutableList.remove(x)`: drops the first element equal to `x`, if there is one. */
  function RemoveFirst<T(==)>(s: seq<T>, x: T): (r: seq<T>)
    ensures |s| - 1 <= |r| <= |s|
    ensures forall y :: y in r ==> y in s
  {
    if s == [] then [] else if s[0] == x then s[1..] else [s[0]] + RemoveFirst(s[1..], x)
  }

  /** The position of the first element equal to `x`. */
  function IndexOf<T(==)>(s: seq<T>, x: T): (i: nat)
    requires x in s
    ensures i < |s| && s[i] == x && x !in s[..i]
  {
    if s[0] == x then 0 else 1 + IndexOf(s[1..], x)
  }

  /** Removing an element that is not in the list leaves the list as it was. */
  lemma {:induction false} RemoveFirstAbsent<T>(s: seq<T>, x: T)
    requires x !in s
    ensures RemoveFirst(s, x) == s
  {
    if s != [] {
      assert x !in s[1..];
      RemoveFirstAbsent(s[1..], x);
    }
  }

  /** Removing a present element takes out exactly its first occurrence and keeps every other entry in order. */
  lemma {:induction false} RemoveFirstPresent<T>(s: seq<T>, x: T)
    requires x in s
    ensures RemoveFirst(s, x) == s[..IndexOf(s, x)] + s[IndexOf(s, x) + 1..]
  {
    if s[0] != x {
      var t := s[1..];
      assert x in t;
      RemoveFirstPresent(t, x);
      var i := IndexOf(t, x);
      assert IndexOf(s, x) == i + 1;
      assert s[..i + 1] == [s[0]] + t[..i];
      assert s[i + 2..] == t[i + 1..];
    }
  }

  /** Removal takes one copy of the element out of the list's multiset, and shortens the list iff it was present. */
  lemma RemoveFirstSpec<T>(s: seq<T>, x: T)
    ensures x !in s ==> RemoveFirst(s, x) == s
    ensures x in s ==> |RemoveFirst(s, x)| == |s| - 1
    ensures multiset(RemoveFirst(s, x)) == multiset(s) - multiset{x}
  {
    if x in s {
      RemoveFirstPresent(s, x);
      SliceOutMultiset(s, IndexOf(s, x));
    } else {
      RemoveFirstAbsent(s, x);
      assert multiset(s)[x] == 0;
    }
  }

  /** Cutting out position `i` removes one copy of `s[i]` from the multiset. */
  lemma SliceOutMultiset<T>(s: seq<T>, i: nat)
    requires i < |s|
    ensures multiset(s[..i] + s[i + 1..]) == multiset(s) - multiset{s[i]}
  {
    assert s == s[..i] + [s[i]] + s[i + 1..];
  }

  // ---------------------------------------------------------------------------
  // The edit path's specification

  /** What the edit callback toasts: each failing rule, then the conflict message if a non-self conflict exists. */
  function EditNotices(f: CalendarFields, start: int, end: int, now: int, docs: seq<Document>, ownId: string)
    : (ns: seq<Notice>)
    ensures DatesValid !in ns && QueryFailed !in ns
    ensures |RuleNotices(f, start, end, now)| <= |ns| <= |RuleNotices(f, start, end, now)| + 1
    ensures forall n :: n in ns && n != SlotTaken ==> n in RuleNotices(f, start, end, now)
  {
    RuleNotices(f, start, end, now) + (if HasConflict(start, end, docs, Some(ownId)) then [SlotTaken] else [])
  }

  /** The edit goes ahead: every rule holds and no other reservation overlaps the new slot. */
  predicate EditAccepted(f: CalendarFields, start: int, end: int, now: int, docs: seq<Document>, ownId: string)
    ensures EditAccepted(f, start, end, now, docs, ownId) ==>
              now <= start < end && forall j :: 0 <= j < |docs| && docs[j].id != ownId ==>
                                      !Overlaps(start, end, DocStartMillis(docs[j]), DocEndMillis(docs[j]))
  {
    RulesPass(f, start, end, now) && !HasConflict(start, end, docs, Some(ownId))
  }

  /** The edit toasts list each failing rule and at most one conflict; they are empty exactly when the edit goes ahead. */
  lemma EditNoticesSpec(f: CalendarFields, start: int, end: int, now: int, docs: seq<Document>, ownId: string)
    ensures var ns := EditNotices(f, start, end, now, docs, ownId);
      && (ns == [] <==> EditAccepted(f, start, end, now, docs, ownId))
      && (SlotTaken in ns <==> exists j :: 0 <= j < |docs| && IsConflict(start, end, docs[j], Some(ownId)))
      && InRuleOrder(ns)
  {
    var rules := RuleNotices(f, start, end, now);
    var ns := EditNotices(f, start, end, now, docs, ownId);
    if HasConflict(start, end, docs, Some(ownId)) {
      assert ns[|ns| - 1] == SlotTaken;
      forall i, j | 0 <= i < j < |ns| ensures RuleRank(ns[i]) < RuleRank(ns[j]) {
        if j < |rules| {
        } else {
          assert ns[i] == rules[i] && ns[i] != SlotTaken;
        }
      }
    } else {
      assert ns == rules;
    }
  }

  /**
   * The `updateReservation` request: only the user's own copy is written, with
   * both new dates. The global copy that the conflict scans read is not.
   */
  function UpdateRequest(user: string, ownId: string, start: int, end: int): (q: Request)
    ensures q.UpdateDates? && q.collection == UserReservations(user) && q.docId == ownId
    ensures ToMillis(q.dateStart) == start && ToMillis(q.dateEnd) == end
  {
    MillisRoundTrip(start);
    MillisRoundTrip(end);
    UpdateDates(UserReservations(user), ownId, FromMillis(start), FromMillis(end))
  }

  /** The document moved to the slot `[start, end)`, as an update of both dates writes it. */
  function WithDates(d: Document, start: int, end: int): (d': Document)
    ensures d'.id == d.id && d'.fields.idPlace == d.fields.idPlace
    ensures DocStartMillis(d') == start && DocEndMillis(d') == end
  {
    Document(d.id, d.fields.(dateStart := Some(FromMillis(start)), dateEnd := Some(FromMillis(end))))
  }

  /** The snapshot with the document `ownId` moved to `[start, end)`, every other document as it was. */
  function MoveReservation(docs: seq<Document>, ownId: string, start: int, end: int): (r: seq<Document>)
    ensures |r| == |docs|
    ensures forall i :: 0 <= i < |docs| ==> r[i] == if docs[i].id == ownId then WithDates(docs[i], start, end) else docs[i]
  {
    WithNewDates(docs, ownId, FromMillis(start), FromMillis(end))
  }

  /**
   * The writes an edit evidently needs: the global copy that the conflict scans
   * read, then the user's copy, both with the new dates.
   */
  function IntendedUpdateRequests(user: string, ownId: string, start: int, end: int): (qs: seq<Request>)
    ensures |qs| == 2 && qs[1] == UpdateRequest(user, ownId, start, end)
    ensures qs[0].UpdateDates? && qs[0].collection == GlobalReservations() && qs[0].docId == ownId
    ensures ToMillis(qs[0].dateStart) == start && ToMillis(qs[0].dateEnd) == end
  {
    MillisRoundTrip(start);
    MillisRoundTrip(end);
    [UpdateDates(GlobalReservations(), ownId, FromMillis(start), FromMillis(end)), UpdateRequest(user, ownId, start, end)]
  }

  /** The deletes a removal evidently needs: the global copy, then the user's copy. */
  function IntendedDeleteRequests(user: string, ownId: string): (qs: seq<Request>)
    ensures |qs| == 2
    ensures qs[0] == DeleteDocument(GlobalReservations(), ownId)
    ensures qs[1] == DeleteDocument(UserReservations(user), ownId)
  {
    [DeleteDocument(GlobalReservations(), ownId), DeleteDocument(UserReservations(user), ownId)]
  }

  /** Document ids are unique within a collection. */
  predicate DistinctIds(docs: seq<Document>)
  {
    forall i, j :: 0 <= i < j < |docs| ==> docs[i].id != docs[j].id
  }

  // ---------------------------------------------------------------------------
  // The screen

  class ReservationsFragment {
    /** `arguments?.getString("USER_DNI")`. */
    var loggedInUser: Option<string>
    /** `reservationsList`, the list the recycler view shows. */
    var reservationsList: seq<Reservation>
    /** Whether the "no reservations" message is shown (and the list hidden). */
    var noReservationsShown: bool

    constructor (userDni: Option<string>)
      ensures loggedInUser == userDni && reservationsList == [] && !noReservationsShown
    {
      loggedInUser := userDni;
      reservationsList := [];
      noReservationsShown := false;
    }

    /**
     * `fetchReservations`: with a signed-in user it reads the user's collection;
     * `response` is what the read delivered (None for the failure listener).
     * On success the list is cleared and rebuilt from the snapshot in order.
     */
    method FetchReservations(response: Option<seq<Document>>) returns (request: Option<Request>)
      modifies this`reservationsList, this`noReservationsShown
      ensures request == if loggedInUser.Some? then Some(GetCollection(UserReservations(loggedInUser.value))) else None
      ensures reservationsList == if loggedInUser.Some? && response.Some? then FromSnapshot(response.value)
                                  else old(reservationsList)
      ensures noReservationsShown == if loggedInUser.Some? && response.Some? then reservationsList == []
                                     else old(noReservationsShown)
    {
      if loggedInUser.None? {
        return None;
      }
      request := Some(GetCollection(UserReservations(loggedInUser.value)));
      if response.Some? {
        var snapshot := response.value;
        reservationsList := [];
        var i := 0;
        while i < |snapshot|
          invariant 0 <= i <= |snapshot|
          invariant reservationsList == FromSnapshot(snapshot[..i])
        {
          var reservation := ToObject(snapshot[i].fields);
          reservation := WithId(reservation, snapshot[i].id);
          assert snapshot[..i + 1][..i] == snapshot[..i];
          reservationsList := reservationsList + [reservation];
          i := i + 1;
        }
        assert snapshot[..i] == snapshot;
        noReservationsShown := reservationsList == [];
      }
    }

    /**
     * `deleteReservation`: with a signed-in user it deletes the document of the
     * user's collection; `succeeded` is whether the delete succeeded, and only
     * then is the reservation taken out of the list.
     */
    method DeleteReservation(reservation: Reservation, succeeded: bool) returns (request: Option<Request>)
      modifies this`reservationsList
      ensures request == if loggedInUser.Some?
                         then Some(DeleteDocument(UserReservations(loggedInUser.value), reservation.id))
                         else None
      ensures reservationsList == if loggedInUser.Some? && succeeded then RemoveFirst(old(reservationsList), reservation)
                                  else old(reservationsList)
    {
      if loggedInUser.None? {
        return None;
      }
      request := Some(DeleteDocument(UserReservations(loggedInUser.value), reservation.id));
      if succeeded {
        reservationsList := RemoveFirst(reservationsList, reservation);
      }
    }

    /**
     * `updateReservation`: with a signed-in user it writes the two new dates to
     * the reservation's document in the user's collection.
     */
    method UpdateReservation(reservation: Reservation, newDateStart: int, newDateEnd: int)
      returns (request: Option<Request>)
      ensures loggedInUser.None? ==> request.None?
      ensures loggedInUser.Some? ==> request == Some(UpdateRequest(loggedInUser.value, reservation.id, newDateStart, newDateEnd))
    {
      if loggedInUser.None? {
        return None;
      }
      request := Some(UpdateRequest(loggedInUser.value, reservation.id, newDateStart, newDateEnd));
    }

    /**
     * The success callback of `validateAndUpdateReservation`, given the
     * documents of the global "Reservations" collection (the query keeps those
     * of `reservation.idPlace`), the calendar that places `start` in a day and
     * hour, and the current time. All four rules are checked, the conflict scan
     * always runs and skips the document of the reservation being edited, and
     * `updateReservation` is called when nothing failed.
     */
    method ValidateAndUpdateReservation(reservation: Reservation, start: Long, end: Long,
                                        collection: seq<Document>, now: Long, cal: Calendar)
      returns (notices: seq<Notice>, updateCalled: bool, request: Option<Request>)
      ensures updateCalled <==> RulesPass(cal(start), start, end, now)
                                && forall j :: 0 <= j < |collection| && collection[j].fields.idPlace == reservation.idPlace ==>
                                                 !IsConflict(start, end, collection[j], Some(reservation.id))
      ensures updateCalled <==> EditAccepted(cal(start), start, end, now, WhereIdPlace(collection, reservation.idPlace), reservation.id)
      ensures notices == EditNotices(cal(start), start, end, now, WhereIdPlace(collection, reservation.idPlace), reservation.id)
      ensures request == if updateCalled && loggedInUser.Some?
                         then Some(UpdateRequest(loggedInUser.value, reservation.id, start, end))
                         else None
    {
      var snapshot := WhereIdPlace(collection, reservation.idPlace);
      OnlyThePlaceBlocks(start, end, collection, reservation.idPlace, Some(reservation.id));
      var isValid, ruleNotices := CheckRules(cal(start), start, end, now);
      notices := ruleNotices;
      var conflict, examined := ScanForConflict(start, end, snapshot, Some(reservation.id));
      if conflict {
        isValid := false;
        notices := notices + [SlotTaken];
      }
      updateCalled := isValid;
      request := None;
      if isValid {
        request := UpdateReservation(reservation, start, end);
      }
    }

    /**
     * The time picker's callback in `openDatePicker`: the picked instant starts
     * the new slot, the end is one hour later in `Long` arithmetic, and
     * `validateAndUpdateReservation` runs on that slot. `response` is the
     * global collection the place query read, or None when the query failed
     * and only the error message is shown.
     */
    method OnTimePicked(reservation: Reservation, picked: Long, response: Option<seq<Document>>, now: Long, cal: Calendar)
      returns (notices: seq<Notice>, updateCalled: bool, request: Option<Request>)
      ensures response.None? ==> notices == [QueryFailed] && !updateCalled && request.None?
      ensures response.Some? ==>
                && notices == EditNotices(cal(picked), picked, PlusOneHour(picked), now,
                                          WhereIdPlace(response.value, reservation.idPlace), reservation.id)
                && (updateCalled <==> EditAccepted(cal(picked), picked, PlusOneHour(picked), now,
                                                   WhereIdPlace(response.value, reservation.idPlace), reservation.id))
                && request == if updateCalled && loggedInUser.Some?
                              then Some(UpdateRequest(loggedInUser.value, reservation.id, picked, PlusOneHour(picked)))
                              else None
      ensures picked <= LONG_MAX - ONE_HOUR_MILLIS ==> TooShort !in notices
      ensures picked > LONG_MAX - ONE_HOUR_MILLIS ==> !updateCalled
    {
      var newDateEnd := PlusOneHour(picked);
      if response.None? {
        return [QueryFailed], false, None;
      }
      notices, updateCalled, request := ValidateAndUpdateReservation(reservation, picked, newDateEnd, response.value, now, cal);
      if picked <= LONG_MAX - ONE_HOUR_MILLIS {
        PickedSlotIsNotTooShort(cal(picked), picked, now);
      } else {
        PickedSlotWrapsNearLongMax(cal(picked), picked, now);
      }
    }
  }
}
