/**
 * The business rules and the conflict scan that both the edit path
 * (ReservationsFragment.kt) and the create path (DetailActivity.kt) apply to a
 * proposed slot `[start, end)` in epoch milliseconds.
 */
module SlotRules {
  import opened ReservationModel
  import opened Firestore

  // ---------------------------------------------------------------------------
  // Kotlin `Long` and the pickers' one-hour end

  const LONG_MIN: int := -0x8000_0000_0000_0000
  const LONG_MAX: int := 0x7FFF_FFFF_FFFF_FFFF
  const LONG_MODULUS: int := 0x1_0000_0000_0000_0000

  type Long = x: int | LONG_MIN <= x <= LONG_MAX

  const ONE_HOUR_MILLIS: int := 3_600_000

  /**
   * `start + 3600000` on a Kotlin `Long`: exact unless the sum leaves the
   * 64-bit range, in which case it wraps around to a negative instant.
   */
  function PlusOneHour(start: Long): (end: Long)
    ensures start <= LONG_MAX - ONE_HOUR_MILLIS ==> end == start + ONE_HOUR_MILLIS
    ensures start > LONG_MAX - ONE_HOUR_MILLIS ==> end == start + ONE_HOUR_MILLIS - LONG_MODULUS
  {
    (start + ONE_HOUR_MILLIS - LONG_MIN) % LONG_MODULUS + LONG_MIN
  }

  // ---------------------------------------------------------------------------
  // Calendar fields of `start`

  /** `Calendar.SUNDAY` and `Calendar.SATURDAY` of `java.util.Calendar`. */
  const SUNDAY: int := 1
  const MONDAY: int := 2
  const SATURDAY: int := 7

  const OPEN_HOUR: int := 9
  const CLOSE_HOUR: int := 21

  /** `calendar.get(DAY_OF_WEEK)` and `calendar.get(HOUR_OF_DAY)` after `calendar.timeInMillis = start`. */
  datatype CalendarFields = CalendarFields(dayOfWeek: int, hourOfDay: int)

  /** The device calendar (its time zone and locale): what day and hour an instant falls on. */
  type Calendar = int -> CalendarFields

  predicate IsWeekend(dayOfWeek: int) { dayOfWeek == SATURDAY || dayOfWeek == SUNDAY }

  predicate WithinOpeningHours(hour: int) { !(hour < OPEN_HOUR || hour >= CLOSE_HOUR) }

  // ---------------------------------------------------------------------------
  // The four business rules

  /** The messages the two screens toast, by kind. */
  datatype Notice = Weekend | OutsideHours | PastDate | TooShort | SlotTaken | DatesValid | QueryFailed

  /** Position of a rule's notice in the order the rules are checked. */
  function RuleRank(n: Notice): nat
  {
    match n
    case Weekend => 0
    case OutsideHours => 1
    case PastDate => 2
    case TooShort => 3
    case SlotTaken => 4
    case DatesValid => 5
    case QueryFailed => 6
  }

  predicate InRuleOrder(ns: seq<Notice>)
  {
    forall i, j :: 0 <= i < j < |ns| ==> RuleRank(ns[i]) < RuleRank(ns[j])
  }

  /** All four rules hold for the slot; only the start's day and hour are looked at. */
  predicate RulesPass(f: CalendarFields, start: int, end: int, now: int)
    ensures RulesPass(f, start, end, now) <==>
              && f.dayOfWeek != SATURDAY && f.dayOfWeek != SUNDAY
              && OPEN_HOUR <= f.hourOfDay < CLOSE_HOUR
              && now <= start < end
  {
    !IsWeekend(f.dayOfWeek) && WithinOpeningHours(f.hourOfDay) && !(start < now) && !(end <= start)
  }

  /**
   * The notices the four checks raise, each check on its own: a rule that
   * fails has its notice whatever the other rules do.
   */
  function RuleNotices(f: CalendarFields, start: int, end: int, now: int): (ns: seq<Notice>)
    ensures Weekend in ns <==> IsWeekend(f.dayOfWeek)
    ensures OutsideHours in ns <==> !WithinOpeningHours(f.hourOfDay)
    ensures PastDate in ns <==> start < now
    ensures TooShort in ns <==> end <= start
    ensures SlotTaken !in ns && DatesValid !in ns && QueryFailed !in ns
    ensures ns == [] <==> RulesPass(f, start, end, now)
    ensures InRuleOrder(ns)
  {
    (if IsWeekend(f.dayOfWeek) then [Weekend] else [])
    + (if !WithinOpeningHours(f.hourOfDay) then [OutsideHours] else [])
    + (if start < now then [PastDate] else [])
    + (if end <= start then [TooShort] else [])
  }

  /**
   * The four checks as the callbacks run them: a flag that starts true and that
   * each failing check clears, toasting its message.
   */
  method CheckRules(f: CalendarFields, start: int, end: int, now: int)
    returns (isValid: bool, notices: seq<Notice>)
    ensures isValid <==> RulesPass(f, start, end, now)
    ensures isValid <==> notices == []
    ensures notices == RuleNotices(f, start, end, now)
  {
    isValid := true;
    notices := [];
    if f.dayOfWeek == SATURDAY || f.dayOfWeek == SUNDAY {
      isValid := false;
      notices := notices + [Weekend];
    }
    assert notices == (if IsWeekend(f.dayOfWeek) then [Weekend] else []);
    ghost var afterDay := notices;
    if f.hourOfDay < OPEN_HOUR || f.hourOfDay >= CLOSE_HOUR {
      isValid := false;
      notices := notices + [OutsideHours];
    }
    assert notices == afterDay + (if !WithinOpeningHours(f.hourOfDay) then [OutsideHours] else []);
    ghost var afterHour := notices;
    if start < now {
      isValid := false;
      notices := notices + [PastDate];
    }
    assert notices == afterHour + (if start < now then [PastDate] else []);
    ghost var afterPast := notices;
    if end <= start {
      isValid := false;
      notices := notices + [TooShort];
    }
    assert notices == afterPast + (if end <= start then [TooShort] else []);
    assert isValid <==> notices == [];
  }

  /** A slot picked as start plus one hour never trips the duration rule, unless the addition wraps. */
  lemma PickedSlotIsNotTooShort(f: CalendarFields, start: Long, now: int)
    requires start <= LONG_MAX - ONE_HOUR_MILLIS
    ensures TooShort !in RuleNotices(f, start, PlusOneHour(start), now)
    ensures RulesPass(f, start, PlusOneHour(start), now)
            <==> !IsWeekend(f.dayOfWeek) && WithinOpeningHours(f.hourOfDay) && start >= now
  {
  }

  /**
   * Within the last hour of the `Long` range the picked end wraps below the
   * start, so the duration rule fires and the slot is refused.
   */
  lemma PickedSlotWrapsNearLongMax(f: CalendarFields, start: Long, now: int)
    requires start > LONG_MAX - ONE_HOUR_MILLIS
    ensures PlusOneHour(start) < start
    ensures TooShort in RuleNotices(f, start, PlusOneHour(start), now)
    ensures !RulesPass(f, start, PlusOneHour(start), now)
  {
  }

  // ---------------------------------------------------------------------------
  // Overlap

  /** `!(end <= otherStart || start >= otherEnd)`: the half-open slots share time. */
  predicate Overlaps(start: int, end: int, otherStart: int, otherEnd: int)
    ensures Overlaps(start, end, otherStart, otherEnd) <==> otherStart < end && start < otherEnd
  {
    !(end <= otherStart || start >= otherEnd)
  }

  /** The instant `t` lies in `[start, end)`. */
  predicate Contains(start: int, end: int, t: int) { start <= t < end }

  lemma OverlapsSymmetric(start: int, end: int, otherStart: int, otherEnd: int)
    ensures Overlaps(start, end, otherStart, otherEnd) == Overlaps(otherStart, otherEnd, start, end)
  {
  }

  /** A slot that ends where another begins does not overlap it, in either order. */
  lemma TouchingSlotsDoNotOverlap(start: int, boundary: int, end: int)
    ensures !Overlaps(start, boundary, boundary, end)
    ensures !Overlaps(boundary, end, start, boundary)
  {
  }

  /** For two non-empty slots the test holds exactly when some instant lies in both. */
  lemma OverlapsIffSharedInstant(start: int, end: int, otherStart: int, otherEnd: int)
    requires start < end && otherStart < otherEnd
    ensures Overlaps(start, end, otherStart, otherEnd)
            <==> exists t :: Contains(start, end, t) && Contains(otherStart, otherEnd, t)
  {
    if Overlaps(start, end, otherStart, otherEnd) {
      var t := if start < otherStart then otherStart else start;
      assert Contains(start, end, t) && Contains(otherStart, otherEnd, t);
    }
  }

  // ---------------------------------------------------------------------------
  // Conflicts against a query snapshot

  /** `document.getTimestamp("dateStart")?.toDate()?.time ?: 0L`. */
  function DocStartMillis(d: Document): (ms: int)
    ensures d.fields.dateStart.None? ==> ms == 0
    ensures forall m :: d.fields.dateStart == Some(FromMillis(m)) ==> ms == m
  {
    MillisOrZero(d.fields.dateStart)
  }

  /** `document.getTimestamp("dateEnd")?.toDate()?.time ?: 0L`. */
  function DocEndMillis(d: Document): (ms: int)
    ensures d.fields.dateEnd.None? ==> ms == 0
    ensures forall m :: d.fields.dateEnd == Some(FromMillis(m)) ==> ms == m
  {
    MillisOrZero(d.fields.dateEnd)
  }

  /**
   * The document blocks the slot: the two overlap, and, when an identifier is
   * excluded (the edit path's own reservation), the document is not that one.
   */
  predicate IsConflict(start: int, end: int, d: Document, exclude: Option<string>)
    ensures IsConflict(start, end, d, exclude) ==> Overlaps(start, end, DocStartMillis(d), DocEndMillis(d))
    ensures exclude == Some(d.id) ==> !IsConflict(start, end, d, exclude)
    ensures exclude.None? ==> (IsConflict(start, end, d, exclude) <==> Overlaps(start, end, DocStartMillis(d), DocEndMillis(d)))
  {
    Overlaps(start, end, DocStartMillis(d), DocEndMillis(d)) && (exclude.None? || d.id != exclude.value)
  }

  /** The position of the first conflicting document, if any. */
  function FindConflict(start: int, end: int, docs: seq<Document>, exclude: Option<string>): (k: Option<nat>)
    ensures k.Some? ==> k.value < |docs| && IsConflict(start, end, docs[k.value], exclude)
    ensures k.Some? ==> forall j :: 0 <= j < k.value ==> !IsConflict(start, end, docs[j], exclude)
    ensures k.None? <==> forall j :: 0 <= j < |docs| ==> !IsConflict(start, end, docs[j], exclude)
  {
    if docs == [] then None
    else if IsConflict(start, end, docs[0], exclude) then Some(0)
    else match FindConflict(start, end, docs[1..], exclude)
      case None => None
      case Some(j) => Some(j + 1)
  }

  /** Some document of the snapshot blocks the slot. */
  predicate HasConflict(start: int, end: int, docs: seq<Document>, exclude: Option<string>)
    ensures HasConflict(start, end, docs, exclude)
            <==> exists j :: 0 <= j < |docs| && IsConflict(start, end, docs[j], exclude)
  {
    FindConflict(start, end, docs, exclude).Some?
  }

  /**
   * The `for (document in snapshot)` loop with its flag and `break`: it reports
   * whether some document conflicts, and it stops reading after the first one.
   */
  method ScanForConflict(start: int, end: int, docs: seq<Document>, exclude: Option<string>)
    returns (found: bool, ghost examined: nat)
    ensures found <==> exists j :: 0 <= j < |docs| && IsConflict(start, end, docs[j], exclude)
    ensures found <==> HasConflict(start, end, docs, exclude)
    ensures examined == match FindConflict(start, end, docs, exclude)
                        case Some(k) => k + 1
                        case None => |docs|
  {
    found := false;
    var i := 0;
    while i < |docs|
      invariant 0 <= i <= |docs|
      invariant forall j :: 0 <= j < i ==> !IsConflict(start, end, docs[j], exclude)
    {
      if Overlaps(start, end, DocStartMillis(docs[i]), DocEndMillis(docs[i]))
         && (exclude.None? || docs[i].id != exclude.value) {
        found := true;
        break;
      }
      i := i + 1;
    }
    examined := if found then i + 1 else i;
    if found {
      FirstConflictAt(start, end, docs, exclude, i);
    }
  }

  /** A conflicting position with no conflict before it is the one FindConflict returns. */
  lemma FirstConflictAt(start: int, end: int, docs: seq<Document>, exclude: Option<string>, i: nat)
    requires i < |docs| && IsConflict(start, end, docs[i], exclude)
    requires forall j :: 0 <= j < i ==> !IsConflict(start, end, docs[j], exclude)
    ensures FindConflict(start, end, docs, exclude) == Some(i)
  {
    var k := FindConflict(start, end, docs, exclude);
    assert k.Some?;
    assert !(k.value < i) && !(i < k.value);
  }

  /**
   * The documents of a place are pairwise free of overlap (the property the
   * conflict scans are there to keep).
   */
  predicate PairwiseDisjoint(docs: seq<Document>)
  {
    forall i, j :: 0 <= i < j < |docs| ==>
      !Overlaps(DocStartMillis(docs[i]), DocEndMillis(docs[i]), DocStartMillis(docs[j]), DocEndMillis(docs[j]))
  }

  /** A document with the excluded identifier never conflicts. */
  lemma ExcludedDocumentNeverConflicts(start: int, end: int, d: Document, id: string)
    requires d.id == id
    ensures !IsConflict(start, end, d, Some(id))
  {
  }

  /** A document without an end date reads as ending at 0, so it never blocks a slot from instant 0 on. */
  lemma MissingEndNeverConflicts(start: int, end: int, d: Document, exclude: Option<string>)
    requires d.fields.dateEnd.None? && start >= 0
    ensures !IsConflict(start, end, d, exclude)
  {
  }

  /** Excluding an identifier is the same as scanning the snapshot with that identifier's documents removed. */
  lemma {:induction false} ExclusionIsRemoval(start: int, end: int, docs: seq<Document>, id: string)
    ensures HasConflict(start, end, docs, Some(id)) <==> HasConflict(start, end, WithoutId(docs, id), None)
  {
    var rest := WithoutId(docs, id);
    if HasConflict(start, end, docs, Some(id)) {
      var j :| 0 <= j < |docs| && IsConflict(start, end, docs[j], Some(id));
      var d := docs[j];
      assert d in rest;
      var k :| 0 <= k < |rest| && rest[k] == d;
      assert IsConflict(start, end, rest[k], None);
    }
    if HasConflict(start, end, rest, None) {
      var k :| 0 <= k < |rest| && IsConflict(start, end, rest[k], None);
      var d := rest[k];
      assert d in docs;
      var j :| 0 <= j < |docs| && docs[j] == d;
      assert IsConflict(start, end, docs[j], Some(id));
    }
  }

  /**
   * The place query keeps exactly the documents of the place, so a reservation
   * of another place never blocks a slot, whatever the global collection holds.
   */
  lemma OnlyThePlaceBlocks(start: int, end: int, docs: seq<Document>, place: string, exclude: Option<string>)
    ensures HasConflict(start, end, WhereIdPlace(docs, place), exclude)
            <==> exists j :: 0 <= j < |docs| && docs[j].fields.idPlace == place && IsConflict(start, end, docs[j], exclude)
  {
    if HasConflict(start, end, WhereIdPlace(docs, place), exclude) {
      PlaceConflictIsInCollection(start, end, docs, place, exclude);
    }
    if exists j :: 0 <= j < |docs| && docs[j].fields.idPlace == place && IsConflict(start, end, docs[j], exclude) {
      var j :| 0 <= j < |docs| && docs[j].fields.idPlace == place && IsConflict(start, end, docs[j], exclude);
      CollectionConflictIsInPlace(start, end, docs, place, exclude, j);
    }
  }

  lemma PlaceConflictIsInCollection(start: int, end: int, docs: seq<Document>, place: string, exclude: Option<string>)
    requires HasConflict(start, end, WhereIdPlace(docs, place), exclude)
    ensures exists j :: 0 <= j < |docs| && docs[j].fields.idPlace == place && IsConflict(start, end, docs[j], exclude)
  {
    var snapshot := WhereIdPlace(docs, place);
    var k :| 0 <= k < |snapshot| && IsConflict(start, end, snapshot[k], exclude);
    var d := snapshot[k];
    assert d in docs && d.fields.idPlace == place;
    var j :| 0 <= j < |docs| && docs[j] == d;
    assert docs[j].fields.idPlace == place && IsConflict(start, end, docs[j], exclude);
  }

  lemma CollectionConflictIsInPlace(start: int, end: int, docs: seq<Document>, place: string, exclude: Option<string>, j: nat)
    requires j < |docs| && docs[j].fields.idPlace == place && IsConflict(start, end, docs[j], exclude)
    ensures HasConflict(start, end, WhereIdPlace(docs, place), exclude)
  {
    var snapshot := WhereIdPlace(docs, place);
    var d := docs[j];
    assert d in docs;
    assert d in snapshot;
    var k :| 0 <= k < |snapshot| && snapshot[k] == d;
    assert IsConflict(start, end, snapshot[k], exclude);
  }

  /** When no document carries the identifier, excluding it changes nothing. */
  lemma ExclusionOfAbsentId(start: int, end: int, docs: seq<Document>, id: string)
    requires forall j :: 0 <= j < |docs| ==> docs[j].id != id
    ensures HasConflict(start, end, docs, Some(id)) <==> HasConflict(start, end, docs, None)
  {
    if HasConflict(start, end, docs, None) {
      var j :| 0 <= j < |docs| && IsConflict(start, end, docs[j], None);
      assert IsConflict(start, end, docs[j], Some(id));
    }
  }
}
