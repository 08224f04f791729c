/**
 * The reservation record the app reads back from Firestore
 * (app/src/main/java/com/example/villactiva/model/Reservation.kt),
 * together with the Firebase `Timestamp` values its two dates hold.
 */
module ReservationModel {

  datatype Option<T> = None | Some(value: T)

  const MILLIS_PER_SECOND: int := 1000
  const NANOS_PER_MILLI: int := 1_000_000
  const NANOS_PER_SECOND: int := 1_000_000_000

  /** A Firebase timestamp: whole seconds since the epoch and a nanosecond part. */
  datatype Timestamp = Timestamp(seconds: int, nanoseconds: int)

  /** `Timestamp(Date(ms))`: the seconds are floored, so the nanosecond part is never negative. */
  function FromMillis(ms: int): (t: Timestamp)
    ensures 0 <= t.nanoseconds < NANOS_PER_SECOND
    ensures t.nanoseconds % NANOS_PER_MILLI == 0
    ensures t.seconds * MILLIS_PER_SECOND <= ms < (t.seconds + 1) * MILLIS_PER_SECOND
  {
    Timestamp(ms / MILLIS_PER_SECOND, (ms % MILLIS_PER_SECOND) * NANOS_PER_MILLI)
  }

  /** `t.toDate().time`: milliseconds since the epoch; precision below a millisecond is dropped. */
  function ToMillis(t: Timestamp): (ms: int)
    ensures 0 <= t.nanoseconds < NANOS_PER_SECOND ==>
              t.seconds * MILLIS_PER_SECOND <= ms < (t.seconds + 1) * MILLIS_PER_SECOND
  {
    t.seconds * MILLIS_PER_SECOND + t.nanoseconds / NANOS_PER_MILLI
  }

  /** Writing a millisecond instant as a timestamp and reading it back gives the same instant. */
  lemma MillisRoundTrip(ms: int)
    ensures ToMillis(FromMillis(ms)) == ms
  {
    var t := FromMillis(ms);
    assert t.nanoseconds / NANOS_PER_MILLI == ms % MILLIS_PER_SECOND;
  }

  /**
   * `timestamp?.toDate()?.time ?: 0L`: a missing timestamp reads as instant 0,
   * a present one as its milliseconds.
   */
  function MillisOrZero(t: Option<Timestamp>): (ms: int)
    ensures t.None? ==> ms == 0
    ensures t.Some? ==> ms == ToMillis(t.value)
    ensures forall m :: t == Some(FromMillis(m)) ==> ms == m
  {
    match t
    case None => 0
    case Some(ts) =>
      assert forall m :: ts == FromMillis(m) ==> ToMillis(ts) == m by {
        forall m | ts == FromMillis(m) ensures ToMillis(ts) == m { MillisRoundTrip(m); }
      }
      ToMillis(ts)
  }

  /** The data class `Reservation`; `id` is the only `var` field. */
  datatype Reservation = Reservation(
    id: string,
    name: string,
    description: string,
    image: string,
    dateStart: Option<Timestamp>,
    dateEnd: Option<Timestamp>,
    idPlace: string)

  /** The value built by the no-argument constructor: every default taken. */
  const DefaultReservation: Reservation := Reservation("", "", "", "", None, None, "")

  /** `getDateStartMillis()`. */
  function DateStartMillis(r: Reservation): (ms: int)
    ensures r.dateStart.None? ==> ms == 0
    ensures forall m :: r.dateStart == Some(FromMillis(m)) ==> ms == m
  {
    MillisOrZero(r.dateStart)
  }

  /** `getDateEndMillis()`. */
  function DateEndMillis(r: Reservation): (ms: int)
    ensures r.dateEnd.None? ==> ms == 0
    ensures forall m :: r.dateEnd == Some(FromMillis(m)) ==> ms == m
  {
    MillisOrZero(r.dateEnd)
  }

  /** `reservation.id = newId`: only the identifier changes; restoring it gives the original back. */
  function WithId(r: Reservation, newId: string): (r': Reservation)
    ensures r'.id == newId
    ensures r'.(id := r.id) == r
    ensures DateStartMillis(r') == DateStartMillis(r) && DateEndMillis(r') == DateEndMillis(r)
  {
    r.(id := newId)
  }

  /** Every field of the default record has its declared default, so both dates read as 0. */
  lemma DefaultReservationFields()
    ensures DefaultReservation.id == "" && DefaultReservation.name == ""
    ensures DefaultReservation.description == "" && DefaultReservation.image == ""
    ensures DefaultReservation.idPlace == ""
    ensures DefaultReservation.dateStart.None? && DefaultReservation.dateEnd.None?
    ensures DateStartMillis(DefaultReservation) == 0 && DateEndMillis(DefaultReservation) == 0
  {
  }
}
