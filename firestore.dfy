/**
 * What the app hands to and receives from Firestore. A query result is a
 * sequence of documents given to the success callback, and a write is a
 * request value the app issues; `Apply` says what a request does to the
 * documents of one collection.
 */
module Firestore {
  import opened ReservationModel

  /**
   * The fields of a reservation document. The create path writes all of them;
   * a document written elsewhere may lack either date.
   */
  datatype Record = Record(
    name: string,
    description: string,
    image: string,
    dateStart: Option<Timestamp>,
    dateEnd: Option<Timestamp>,
    idPlace: string,
    userId: string)

  /** A query result entry: the document id and its fields. */
  datatype Document = Document(id: string, fields: Record)

  /** The collections the app touches. */
  const RESERVATIONS: string := "Reservations"
  const USERS: string := "User"

  /** `collection("Reservations")`: every reservation of every user. */
  function GlobalReservations(): seq<string> { [RESERVATIONS] }

  /** `collection("User").document(user).collection("Reservations")`. */
  function UserReservations(user: string): seq<string> { [USERS, user, RESERVATIONS] }

  /** A request the app sends to Firestore. */
  datatype Request =
    | GetCollection(collection: seq<string>)
    | QueryByPlace(collection: seq<string>, idPlace: string)
    | SetDocument(collection: seq<string>, docId: string, record: Record)
    | UpdateDates(collection: seq<string>, docId: string, dateStart: Timestamp, dateEnd: Timestamp)
    | DeleteDocument(collection: seq<string>, docId: string)

  /**
   * `document.toObject(Reservation::class.java)`: fields are copied by name; the
   * stored fields carry no "id", so the identifier keeps its default, and
   * "userId" has no counterpart in the class and is dropped.
   */
  function ToObject(rec: Record): (r: Reservation)
    ensures r.id == DefaultReservation.id
    ensures r.name == rec.name && r.description == rec.description && r.image == rec.image
    ensures r.dateStart == rec.dateStart && r.dateEnd == rec.dateEnd
    ensures r.idPlace == rec.idPlace
  {
    Reservation(DefaultReservation.id, rec.name, rec.description, rec.image,
                rec.dateStart, rec.dateEnd, rec.idPlace)
  }

  /**
   * `whereEqualTo("idPlace", place)` over a collection's documents: exactly the
   * documents for the place, in collection order.
   */
  function WhereIdPlace(docs: seq<Document>, place: string): (r: seq<Document>)
    ensures |r| <= |docs|
    ensures forall d :: d in r <==> d in docs && d.fields.idPlace == place
  {
    if docs == [] then []
    else if docs[0].fields.idPlace == place then [docs[0]] + WhereIdPlace(docs[1..], place)
    else WhereIdPlace(docs[1..], place)
  }

  /** The documents whose identifier is not `id`, in order. */
  function WithoutId(docs: seq<Document>, id: string): (r: seq<Document>)
    ensures forall d :: d in r <==> d in docs && d.id != id
  {
    if docs == [] then []
    else if docs[0].id == id then WithoutId(docs[1..], id)
    else [docs[0]] + WithoutId(docs[1..], id)
  }

  /**
   * `update` of the two dates of document `id`: that document gets the two new
   * timestamps and keeps every other field, and every other document stays as
   * it was. When no document has the id nothing changes (the update fails).
   */
  function WithNewDates(docs: seq<Document>, id: string, dateStart: Timestamp, dateEnd: Timestamp)
    : (r: seq<Document>)
    ensures |r| == |docs|
    ensures forall i :: 0 <= i < |docs| && docs[i].id != id ==> r[i] == docs[i]
    ensures forall i :: 0 <= i < |docs| && docs[i].id == id ==>
              && r[i].id == id
              && r[i].fields.dateStart == Some(dateStart) && r[i].fields.dateEnd == Some(dateEnd)
              && r[i].fields.(dateStart := docs[i].fields.dateStart, dateEnd := docs[i].fields.dateEnd) == docs[i].fields
  {
    seq(|docs|, i requires 0 <= i < |docs| =>
      if docs[i].id == id then Document(id, docs[i].fields.(dateStart := Some(dateStart), dateEnd := Some(dateEnd)))
      else docs[i])
  }

  /**
   * The documents of collection `coll` once the request has been carried out.
   * A request to another collection, or a read, leaves them as they are; `set`
   * replaces or adds the document, `update` rewrites its dates, `delete`
   * removes it.
   */
  function Apply(coll: seq<string>, docs: seq<Document>, q: Request): (r: seq<Document>)
    ensures q.collection != coll || q.GetCollection? || q.QueryByPlace? ==> r == docs
    ensures q.SetDocument? && q.collection == coll ==>
              forall d :: d in r <==> (d in docs && d.id != q.docId) || d == Document(q.docId, q.record)
    ensures q.UpdateDates? ==> |r| == |docs|
    ensures q.DeleteDocument? && q.collection == coll ==> forall d :: d in r <==> d in docs && d.id != q.docId
  {
    if q.collection != coll then docs
    else match q
      case GetCollection(_) => docs
      case QueryByPlace(_, _) => docs
      case SetDocument(_, id, rec) => WithoutId(docs, id) + [Document(id, rec)]
      case UpdateDates(_, id, s, e) => WithNewDates(docs, id, s, e)
      case DeleteDocument(_, id) => WithoutId(docs, id)
  }

  /** The requests carried out one after the other, as far as collection `coll` sees them. */
  function ApplyAll(coll: seq<string>, docs: seq<Document>, qs: seq<Request>): (r: seq<Document>)
    ensures (forall i :: 0 <= i < |qs| ==> qs[i].collection != coll) ==> r == docs
    decreases qs
  {
    if qs == [] then docs else ApplyAll(coll, Apply(coll, docs, qs[0]), qs[1..])
  }
}
