/**
 * The appointment collection and the handlers of
 * src/controllers/appointmentController.js that change it: create, status
 * update, delete, and the `deleteMany({ user })` the account deletion issues.
 * The collection is a sequence of records in insertion order; the unique
 * `(date, time)` index is part of the class invariant, and an insert is an
 * atomic check-and-add.
 */
module AppointmentStore {
  import opened Common
  import opened Strings
  import opened UserModel
  import opened AppointmentModel

  /** The fields of a booking request, as the handler reads them from the body. */
  datatype CreateRequest = CreateRequest(
    date: Option<Date>,          // `new Date(date)`; `None` for an invalid date
    time: Option<string>,        // `None` when the body has no `time`
    service: Option<string>,
    notes: Option<string>,
    isGuest: bool,               // whether the body's `isGuest` is truthy
    guestInfo: Option<GuestInfo>)

  /**
   * The date the handler stores: the requested day at the hour and minute of
   * the time label, seconds 0. `None` when the result is an invalid date.
   */
  function BookedDate(req: CreateRequest): (d: Option<Date>)
    ensures d.Some? ==> d.value.second == 0 && req.time.Some? && req.time.value != ""
  {
    if req.date.None? || req.time.None? then None
    else
      match ParseTime(req.time.value)
      case None => None
      case Some((h, m)) => Some(SetHours(req.date.value, h, m))
  }

  /**
   * Why a booking fails, in the order the handler meets the conditions, or
   * `None` when it succeeds: no `time` to split, a member booking without a
   * caller (`req.user._id` on `undefined` or `null`), a document the store
   * refuses, and a slot the unique index already holds.
   */
  function CreateFailure(rs: seq<Appointment>, req: CreateRequest, caller: Option<UserId>): (f: Option<Cause>)
    ensures f.None? <==> && req.time.Some? && (req.isGuest || caller.Some?)
                         && BookedDate(req).Some? && Truthy(req.service)
                         && !SlotTaken(rs, BookedDate(req).value, req.time.value)
    ensures f == Some(TypeErrorThrown) <==> req.time.None? || (!req.isGuest && caller.None?)
    ensures f == Some(ValidationFailed) <==> && req.time.Some? && (req.isGuest || caller.Some?)
                                             && (BookedDate(req).None? || !Truthy(req.service))
    ensures f == Some(DuplicateKey) <==> && req.time.Some? && (req.isGuest || caller.Some?)
                                         && BookedDate(req).Some? && Truthy(req.service)
                                         && SlotTaken(rs, BookedDate(req).value, req.time.value)
    ensures f == Some(DuplicateKey) ==>
              (BookedDate(req).Some? && req.time.Some? &&
               exists a :: a in rs && a.date == BookedDate(req).value && a.time == req.time.value)
  {
    if req.time.None? then Some(TypeErrorThrown)
    else if !req.isGuest && caller.None? then Some(TypeErrorThrown)
    else if BookedDate(req).None? || !Truthy(req.service) then Some(ValidationFailed)
    else if SlotTaken(rs, BookedDate(req).value, req.time.value) then Some(DuplicateKey)
    else None
  }

  /**
   * `a` is the record a successful booking inserts: the next id, the status
   * `Beklemede`, the booked date, the request's fields, and the owner the
   * request names.
   */
  function IsBooking(a: Appointment, id: Id, req: CreateRequest, caller: Option<UserId>): (b: bool)
    ensures b ==> a.status == Pending && a.date.second == 0 && a.time != ""
    ensures b ==> (a.owner.Guest? <==> req.isGuest)
  {
    && a.id == id
    && a.status == DefaultStatus
    && BookedDate(req) == Some(a.date)
    && req.time == Some(a.time)
    && req.service == Some(a.service)
    && a.notes == req.notes
    && (if req.isGuest then a.owner == Guest(req.guestInfo) else caller.Some? && a.owner == Member(caller.value))
  }

  /**
   * What a booked record looks like whatever the request: pending, owned by
   * exactly one of guest or caller, and, for a time label inside one day,
   * dated on the requested day at that hour and minute with seconds 0.
   */
  lemma BookingShape(a: Appointment, id: Id, req: CreateRequest, caller: Option<UserId>, h: int, m: int)
    requires IsBooking(a, id, req, caller)
    ensures a.status == Pending
    ensures a.owner.Guest? <==> req.isGuest
    ensures req.isGuest ==> UserRef(a) == None && a.owner.info == req.guestInfo
    ensures !req.isGuest ==> caller.Some? && UserRef(a) == caller
    ensures ParseTime(a.time) == Some((h, m)) && 0 <= h < 24 && 0 <= m < 60 ==>
              a.date == DateTime(req.date.value.day, h, m, 0, req.date.value.milli)
  {
    if ParseTime(a.time) == Some((h, m)) && 0 <= h < 24 && 0 <= m < 60 {
      SetHoursWithinDay(req.date.value, h, m);
    }
  }

  /**
   * The unique index on `(date, time)` compares whole instants: a second
   * request for the same day and label whose submitted date carries other
   * milliseconds is stored one to 999 milliseconds apart, so the index does
   * not see the first booking.
   */
  lemma MillisecondsEscapeUniqueIndex(a: Appointment, id: Id, req: CreateRequest, caller: Option<UserId>, milli: int)
    requires IsBooking(a, id, req, caller)
    requires 0 <= milli < 1000 && milli != req.date.value.milli
    ensures var other := req.(date := Some(req.date.value.(milli := milli)));
            && BookedDate(other) == Some(a.date.(milli := milli))
            && !SlotTaken([a], BookedDate(other).value, other.time.value)
  {
    var d := req.date.value;
    var hm := ParseTime(req.time.value).value;
    assert a.date == SetHours(d, hm.0, hm.1);
    assert SetHours(d.(milli := milli), hm.0, hm.1) == a.date.(milli := milli);
  }

  /**
   * `parseInt` reads `"9:5"` and `"09:05"` alike, but the index compares the
   * label text: the unpadded label books the very instant the padded one
   * holds, under a label the index has not seen.
   */
  lemma UnpaddedLabelEscapesUniqueIndex(a: Appointment, id: Id, req: CreateRequest, caller: Option<UserId>, h: nat, m: nat)
    requires h < 24 && m < 10
    requires IsBooking(a, id, req, caller) && req.time == Some(SlotLabel(h, m))
    ensures var other := req.(time := Some(Decimal(h) + [':'] + Decimal(m)));
            && BookedDate(other) == Some(a.date)
            && !SlotTaken([a], BookedDate(other).value, other.time.value)
  {
    UnpaddedLabelParses(h, m);
    SlotLabelParses(h, m);
    assert |Decimal(h) + [':'] + Decimal(m)| != |SlotLabel(h, m)|;
  }

  /** The index of the record with id `id`. */
  function IndexOfId(rs: seq<Appointment>, id: Id): (k: Option<nat>)
    ensures k.Some? ==> k.value < |rs| && rs[k.value].id == id
    ensures k.None? <==> forall a :: a in rs ==> a.id != id
  {
    if rs == [] then None
    else if rs[0].id == id then Some(0)
    else
      match IndexOfId(rs[1..], id)
      case None => None
      case Some(k) => Some(k + 1)
  }

  /**
   * How the update handler resolves the requested status: a non-empty label
   * outside the enum is refused; an absent or empty one leaves the status as
   * it is; a valid one names the new status.
   */
  function RequestedStatus(status: Option<string>): (r: Result<Option<Status>, ApiError>)
    ensures r.Err? <==> Truthy(status) && status.value !in ValidStatusLabels
    ensures r.Err? ==> r.error == InvalidStatus
    ensures r == Ok(None) <==> !Truthy(status)
    ensures r.Ok? && r.value.Some? ==> StatusLabel(r.value.value) == status.value
  {
    if !Truthy(status) then Ok(None)
    else
      match ParseStatus(status.value)
      case None => Err(InvalidStatus)
      case Some(s) => Ok(Some(s))
  }

  /** The `status` field of a request body as the handler receives it: missing, JSON `null`, or a string. */
  datatype BodyField = Missing | Null | Text(text: string)

  /** The field as the corrected resolution reads it: `null` and a missing field are both falsy. */
  function Submitted(field: BodyField): (status: Option<string>)
    ensures status.Some? <==> field.Text?
    ensures field.Text? ==> status.value == field.text
  {
    if field.Text? then Some(field.text) else None
  }

  /**
   * The stored status label after the update handler as written, `None` for a
   * stored `null`. A falsy status (`""` or `null`) passes the check, and
   * `findByIdAndUpdate` runs no validators, so it is written as it is. A
   * missing status is dropped from the update and leaves the label alone.
   */
  function StoredLabelAsWritten(current: string, status: BodyField): (r: Result<Option<string>, ApiError>)
    ensures r.Err? <==> Truthy(Submitted(status)) && status.text !in ValidStatusLabels
    ensures status.Missing? ==> r == Ok(Some(current))
    ensures r == Ok(None) <==> status.Null?
    ensures status.Text? && r.Ok? ==> r == Ok(Some(status.text))
  {
    match status
    case Missing => Ok(Some(current))
    case Null => Ok(None)
    case Text(t) => if t != "" && t !in ValidStatusLabels then Err(InvalidStatus) else Ok(Some(t))
  }

  /** As written, an update with an empty or a `null` status stores a value outside the enum. */
  lemma EmptyStatusLeavesEnum()
    ensures StoredLabelAsWritten("Beklemede", Text("")) == Ok(Some(""))
    ensures StoredLabelAsWritten("Beklemede", Null) == Ok(None)
    ensures "" !in ValidStatusLabels
  {
  }

  /**
   * The corrected resolution keeps every stored label inside the enum, and it
   * agrees with the handler as written on every request except one carrying
   * an empty or a `null` status.
   */
  lemma RequestedStatusKeepsEnum(current: Status, status: BodyField)
    ensures RequestedStatus(Submitted(status)).Ok? ==>
              var next := if RequestedStatus(Submitted(status)).value.Some? then RequestedStatus(Submitted(status)).value.value else current;
              StatusLabel(next) in ValidStatusLabels
    ensures status != Text("") && status != Null ==>
              match RequestedStatus(Submitted(status))
              case Err(e) => StoredLabelAsWritten(StatusLabel(current), status) == Err(e)
              case Ok(None) => StoredLabelAsWritten(StatusLabel(current), status) == Ok(Some(StatusLabel(current)))
              case Ok(Some(s)) => StoredLabelAsWritten(StatusLabel(current), status) == Ok(Some(StatusLabel(s)))
  {
    StatusLabelRoundTrip(current);
  }

  /** Every record except the ones `u` owns, in the same order: `Appointment.deleteMany({ user: u })`. */
  function WithoutOwner(rs: seq<Appointment>, u: UserId): (r: seq<Appointment>)
    ensures forall a :: a in r <==> a in rs && a.owner != Member(u)
    ensures UniqueSlots(rs) ==> UniqueSlots(r)
    ensures UniqueIds(rs) ==> UniqueIds(r)
  {
    if rs == [] then []
    else
      var rest := WithoutOwner(rs[1..], u);
      UniqueTail(rs);
      if rs[0].owner == Member(u) then rest
      else
        UniqueCons(rs[0], rest);
        [rs[0]] + rest
  }

  lemma UniqueTail(rs: seq<Appointment>)
    requires rs != []
    ensures UniqueSlots(rs) ==> UniqueSlots(rs[1..]) && forall a :: a in rs[1..] ==> a.date != rs[0].date || a.time != rs[0].time
    ensures UniqueIds(rs) ==> UniqueIds(rs[1..]) && forall a :: a in rs[1..] ==> a.id != rs[0].id
  {
    if UniqueSlots(rs) {
      forall a | a in rs[1..] ensures a.date != rs[0].date || a.time != rs[0].time {
        var i :| 0 <= i < |rs[1..]| && rs[1..][i] == a;
        assert rs[i + 1] == a;
      }
    }
    if UniqueIds(rs) {
      forall a | a in rs[1..] ensures a.id != rs[0].id {
        var i :| 0 <= i < |rs[1..]| && rs[1..][i] == a;
        assert rs[i + 1] == a;
      }
    }
  }

  lemma UniqueCons(x: Appointment, rest: seq<Appointment>)
    ensures UniqueSlots(rest) && (forall a :: a in rest ==> a.date != x.date || a.time != x.time) ==> UniqueSlots([x] + rest)
    ensures UniqueIds(rest) && (forall a :: a in rest ==> a.id != x.id) ==> UniqueIds([x] + rest)
  {
    var s := [x] + rest;
    assert forall i :: 1 <= i < |s| ==> s[i] == rest[i - 1] && s[i] in rest;
  }

  lemma RemoveAtKeepsUnique(rs: seq<Appointment>, k: nat)
    requires k < |rs|
    ensures UniqueSlots(rs) ==> UniqueSlots(rs[..k] + rs[k + 1..])
    ensures UniqueIds(rs) ==> UniqueIds(rs[..k] + rs[k + 1..])
    ensures UniqueIds(rs) ==> forall a :: a in rs[..k] + rs[k + 1..] <==> a in rs && a.id != rs[k].id
  {
    var s := rs[..k] + rs[k + 1..];
    assert forall i :: 0 <= i < |s| ==> s[i] == rs[if i < k then i else i + 1];
    if UniqueSlots(rs) {
      forall i, j | 0 <= i < j < |s| ensures s[i].date != s[j].date || s[i].time != s[j].time {
        var i', j' := if i < k then i else i + 1, if j < k then j else j + 1;
        assert s[i] == rs[i'] && s[j] == rs[j'] && i' < j';
      }
    }
    if UniqueIds(rs) {
      forall i, j | 0 <= i < j < |s| ensures s[i].id != s[j].id {
        var i', j' := if i < k then i else i + 1, if j < k then j else j + 1;
        assert s[i] == rs[i'] && s[j] == rs[j'] && i' < j';
      }
      forall a ensures a in s <==> a in rs && a.id != rs[k].id {
        if a in rs && a.id != rs[k].id {
          var i :| 0 <= i < |rs| && rs[i] == a;
          assert i != k;
          assert s[if i < k then i else i - 1] == a;
        }
      }
    }
  }

  lemma AppendKeepsUnique(rs: seq<Appointment>, a: Appointment)
    requires UniqueSlots(rs) && !SlotTaken(rs, a.date, a.time)
    requires UniqueIds(rs) && forall b :: b in rs ==> b.id < a.id
    ensures UniqueSlots(rs + [a]) && UniqueIds(rs + [a])
  {
    var s := rs + [a];
    assert forall i :: 0 <= i < |rs| ==> s[i] == rs[i] && rs[i] in rs;
  }

  /** Changing one record's status keeps both indexes, and every record afterwards is an old one or the changed one. */
  lemma SetStatusKeepsUnique(rs: seq<Appointment>, k: nat, status: Status)
    requires k < |rs|
    ensures var t := rs[k := rs[k].(status := status)];
            && (UniqueSlots(rs) ==> UniqueSlots(t))
            && (UniqueIds(rs) ==> UniqueIds(t))
            && forall a :: a in t ==> a in rs || a == rs[k].(status := status)
  {
    var t := rs[k := rs[k].(status := status)];
    assert forall i :: 0 <= i < |t| ==> t[i].date == rs[i].date && t[i].time == rs[i].time && t[i].id == rs[i].id;
    assert forall i :: 0 <= i < |t| && i != k ==> t[i] == rs[i];
  }

  class Store {
    /** The records, in insertion order. */
    var records: seq<Appointment>
    /** The id the next insert receives. */
    var nextId: nat

    /** The collection's invariant: the unique indexes hold and every record is complete. */
    ghost predicate Valid()
      reads this
    {
      && UniqueSlots(records)
      && UniqueIds(records)
      && (forall a :: a in records ==> a.id < nextId)
      && (forall a :: a in records ==> Complete(a))
    }

    constructor ()
      ensures Valid() && records == [] && nextId == 0
    {
      records := [];
      nextId := 0;
    }

    /**
     * `createAppointment`: fill the document field by field, then insert it.
     * Every failure, the taken slot included, is answered with 500 and
     * leaves the collection as it was.
     */
    method Create(req: CreateRequest, caller: Option<UserId>) returns (r: Result<Appointment, ApiError>)
      requires Valid()
      modifies this
      ensures Valid()
      ensures r.Err? <==> CreateFailure(old(records), req, caller).Some?
      ensures r.Err? ==> r.error == ServerError(CreateFailure(old(records), req, caller).value)
                         && records == old(records) && nextId == old(nextId)
      ensures r.Ok? ==> IsBooking(r.value, old(nextId), req, caller) && !SlotTaken(old(records), r.value.date, r.value.time)
                        && records == old(records) + [r.value] && nextId == old(nextId) + 1
    {
      ghost var failure := CreateFailure(records, req, caller);
      if req.time.None? {
        return Err(ServerError(TypeErrorThrown));
      }
      var time := req.time.value;
      var appointmentDate := BookedDate(req);
      var owner: Owner;
      if req.isGuest {
        owner := Guest(req.guestInfo);
      } else {
        if caller.None? {
          return Err(ServerError(TypeErrorThrown));
        }
        owner := Member(caller.value);
      }
      if appointmentDate.None? || !Truthy(req.service) {
        assert failure == Some(ValidationFailed);
        return Err(ServerError(ValidationFailed));
      }
      if SlotTaken(records, appointmentDate.value, time) {
        assert failure == Some(DuplicateKey);
        return Err(ServerError(DuplicateKey));
      }
      var a := Appointment(nextId, owner, appointmentDate.value, time, req.service.value, req.notes, DefaultStatus);
      AppendKeepsUnique(records, a);
      records := records + [a];
      nextId := nextId + 1;
      r := Ok(a);
    }

    /**
     * `updateAppointment`: check the requested status, then overwrite the
     * record's status whatever it was before. Only `protect` guards the
     * route, so any signed-in caller may do this.
     */
    method UpdateStatus(id: Id, status: Option<string>) returns (r: Result<Appointment, ApiError>)
      requires Valid()
      modifies this
      ensures Valid() && nextId == old(nextId)
      ensures r.Ok? <==> RequestedStatus(status).Ok? && IndexOfId(old(records), id).Some?
      ensures RequestedStatus(status).Err? ==> r == Err(InvalidStatus)
      ensures RequestedStatus(status).Ok? && IndexOfId(old(records), id).None? ==> r == Err(NotFound)
      ensures r.Err? ==> records == old(records)
      ensures r.Ok? ==>
                var k := IndexOfId(old(records), id).value;
                r.value == old(records)[k].(status := r.value.status) && records == old(records)[k := r.value]
      ensures r.Ok? ==> r.value.status == match RequestedStatus(status).value
                                          case Some(s) => s
                                          case None => old(records)[IndexOfId(old(records), id).value].status
    {
      var requested := RequestedStatus(status);
      if requested.Err? {
        return Err(InvalidStatus);
      }
      var k := IndexOfId(records, id);
      if k.None? {
        return Err(NotFound);
      }
      var current := records[k.value];
      var updated := match requested.value
        case Some(s) => current.(status := s)
        case None => current;
      assert updated == current.(status := updated.status);
      SetStatusKeepsUnique(records, k.value, updated.status);
      records := records[k.value := updated];
      r := Ok(updated);
    }

    /**
     * `deleteAppointment`: remove the record with that id and nothing else.
     * Only `protect` guards the route, so any signed-in caller may do this.
     */
    method Delete(id: Id) returns (r: Result<Appointment, ApiError>)
      requires Valid()
      modifies this
      ensures Valid() && nextId == old(nextId)
      ensures r.Err? <==> forall a :: a in old(records) ==> a.id != id
      ensures r.Err? ==> r.error == NotFound && records == old(records)
      ensures r.Ok? ==> r.value in old(records) && r.value.id == id && |records| == |old(records)| - 1
      ensures r.Ok? ==> var k := IndexOfId(old(records), id).value; records == old(records)[..k] + old(records)[k + 1..]
      ensures forall a :: a in records <==> a in old(records) && a.id != id
    {
      var k := IndexOfId(records, id);
      if k.None? {
        return Err(NotFound);
      }
      var removed := records[k.value];
      RemoveAtKeepsUnique(records, k.value);
      records := records[..k.value] + records[k.value + 1..];
      r := Ok(removed);
    }

    /** `Appointment.deleteMany({ user: u })`: drop every record `u` owns and keep the rest in order. */
    method DeleteOwnedBy(u: UserId)
      requires Valid()
      modifies this
      ensures Valid() && nextId == old(nextId)
      ensures records == WithoutOwner(old(records), u)
      ensures forall a :: a in records ==> a.owner != Member(u)
    {
      records := WithoutOwner(records, u);
    }
  }
}
