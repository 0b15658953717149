/**
 * The appointment record (src/models/Appointment.js) and the conversions the
 * booking handler applies to its input: the status enum and its labels, the
 * owner variants, calendar instants, the `"HH:MM"` time label and `setHours`.
 */
module AppointmentModel {
  import opened Common
  import opened Strings
  import opened UserModel

  type Id = nat

  /** The `status` enum: Beklemede (pending), Onaylandı (confirmed), Tamamlandı (completed). */
  datatype Status = Pending | Confirmed | Completed

  /** The stored label of each status. */
  function StatusLabel(s: Status): string
  {
    match s
    case Pending => "Beklemede"
    case Confirmed => "Onaylandı"
    case Completed => "Tamamlandı"
  }

  /** The status a record gets when none is supplied. */
  const DefaultStatus: Status := Pending

  /** `validStatuses` in the update handler, which is also the schema's enum. */
  const ValidStatusLabels: seq<string> := ["Beklemede", "Onaylandı", "Tamamlandı"]

  /** `validStatuses.includes(text)`, returning the status the label names. */
  function ParseStatus(text: string): (r: Option<Status>)
    ensures r.Some? <==> text in ValidStatusLabels
    ensures r.Some? ==> StatusLabel(r.value) == text
  {
    if text == "Beklemede" then Some(Pending)
    else if text == "Onaylandı" then Some(Confirmed)
    else if text == "Tamamlandı" then Some(Completed)
    else None
  }

  lemma StatusLabelRoundTrip(s: Status)
    ensures StatusLabel(s) in ValidStatusLabels
    ensures ParseStatus(StatusLabel(s)) == Some(s)
  {
  }

  /** The `guestInfo` sub-document, each field optional. */
  datatype GuestInfo = GuestInfo(name: Option<string>, email: Option<string>, phone: Option<string>)

  /**
   * Who a reservation belongs to. A guest record carries `isGuest: true`, the
   * `guestInfo` exactly as the request gave it (possibly absent) and no `user`;
   * a member record carries `user` and keeps the default `isGuest: false`.
   */
  datatype Owner = Guest(info: Option<GuestInfo>) | Member(user: UserId)

  /**
   * A calendar instant: `day` numbers civil days consecutively (the bijection
   * with year, month and day of month is not modelled), the other fields are
   * the time of day down to the millisecond.
   */
  datatype DateTime = DateTime(day: int, hour: int, minute: int, second: int, milli: int)

  predicate WellFormed(t: DateTime)
  {
    0 <= t.hour < 24 && 0 <= t.minute < 60 && 0 <= t.second < 60 && 0 <= t.milli < 1000
  }

  /** A valid JavaScript `Date`: every field within its range. */
  type Date = t: DateTime | WellFormed(t) witness DateTime(0, 0, 0, 0, 0)

  /** Milliseconds since the start of day 0: the order in which the store sorts and compares dates. */
  function Instant(t: DateTime): int
  {
    t.day * 86400000 + t.hour * 3600000 + t.minute * 60000 + t.second * 1000 + t.milli
  }

  lemma InstantOrdersDays(s: Date, t: Date)
    ensures s.day < t.day ==> Instant(s) < Instant(t)
    ensures Instant(s) == Instant(t) <==> s == t
  {
    if s.day != t.day {
      assert Instant(s) != Instant(t);
    } else if s.hour != t.hour {
      assert Instant(s) != Instant(t);
    } else if s.minute != t.minute {
      assert Instant(s) != Instant(t);
    } else if s.second != t.second {
      assert Instant(s) != Instant(t);
    }
  }

  /** Midnight starting `day`. */
  function DayStart(day: int): (t: Date)
    ensures t.day == day && Instant(t) == day * 86400000
  {
    DateTime(day, 0, 0, 0, 0)
  }

  /**
   * `date.setHours(h, m, 0)`: the instant `h` hours and `m` minutes after the
   * midnight that starts `t`'s day (rolling over into other days when `h` or
   * `m` is out of range), with seconds 0 and `t`'s milliseconds kept.
   */
  function SetHours(t: Date, h: int, m: int): (r: Date)
    ensures r.second == 0 && r.milli == t.milli
    ensures Instant(r) == Instant(DayStart(t.day)) + (h * 60 + m) * 60000 + t.milli
  {
    var total := h * 60 + m;
    var inDay := total % 1440;
    DateTime(t.day + total / 1440, inDay / 60, inDay % 60, 0, t.milli)
  }

  /** For an hour and minute inside one day, `setHours` keeps the day and takes the hour and minute as given. */
  lemma SetHoursWithinDay(t: Date, h: int, m: int)
    requires 0 <= h < 24 && 0 <= m < 60
    ensures SetHours(t, h, m) == DateTime(t.day, h, m, 0, t.milli)
  {
    var total := h * 60 + m;
    assert total / 1440 == 0 && total % 1440 == total;
    assert total / 60 == h && total % 60 == m;
  }

  /** `const [hours, minutes] = time.split(':')` followed by `parseInt(_, 10)` of each; `None` when either is `NaN`. */
  function ParseTime(time: string): (r: Option<(int, int)>)
    ensures r.Some? ==> time != ""
  {
    var parts := Split(time, ':');
    var h := ParseInt(parts[0]);
    var m := if |parts| > 1 then ParseInt(parts[1]) else None;
    if h.Some? && m.Some? then Some((h.value, m.value)) else None
  }

  /** The zero-padded `"HH:MM"` label of a slot. */
  function SlotLabel(h: nat, m: nat): string
    requires h < 24 && m < 60
  {
    Pad2(h) + [':'] + Pad2(m)
  }

  /** A zero-padded `"HH:MM"` label parses back to its hour and minute. */
  lemma SlotLabelParses(h: nat, m: nat)
    requires h < 24 && m < 60
    ensures ParseTime(SlotLabel(h, m)) == Some((h, m))
  {
    var parts := [Pad2(h), Pad2(m)];
    assert Join(parts, ':') == SlotLabel(h, m) by {
      assert Join(parts[1..], ':') == Pad2(m);
    }
    SplitJoin(parts, ':');
    ParseIntPad2(h);
    ParseIntPad2(m);
  }

  /** A label without zero padding, such as `"9:5"`, reads as the same hour and minute. */
  lemma UnpaddedLabelParses(h: nat, m: nat)
    ensures ParseTime(Decimal(h) + [':'] + Decimal(m)) == Some((h, m))
  {
    var parts := [Decimal(h), Decimal(m)];
    assert Join(parts, ':') == Decimal(h) + [':'] + Decimal(m) by {
      assert Join(parts[1..], ':') == Decimal(m);
    }
    SplitJoin(parts, ':');
    ParseIntDecimal(h);
    ParseIntDecimal(m);
  }

  /** One stored reservation. */
  datatype Appointment = Appointment(
    id: Id,
    owner: Owner,
    date: Date,
    time: string,
    service: string,
    notes: Option<string>,
    status: Status)

  /** The stored `user` reference: present exactly on a member's record, absent on a guest's. */
  function UserRef(a: Appointment): (r: Option<UserId>)
    ensures r.Some? <==> !a.owner.Guest?
    ensures r.Some? ==> a.owner == Member(r.value)
  {
    match a.owner
    case Member(u) => Some(u)
    case Guest(_) => None
  }

  /** `date`, `time` and `service` are required and non-empty; a booked date has seconds 0. */
  predicate Complete(a: Appointment)
  {
    a.date.second == 0 && a.time != "" && a.service != ""
  }

  /** The index lookup: scan the records for one holding the key `(date, time)`. */
  function SlotTaken(rs: seq<Appointment>, date: Date, time: string): (b: bool)
    ensures b <==> exists i :: 0 <= i < |rs| && rs[i].date == date && rs[i].time == time
  {
    if rs == [] then false
    else if rs[0].date == date && rs[0].time == time then true
    else
      var rest := SlotTaken(rs[1..], date, time);
      assert forall i :: 1 <= i < |rs| ==> rs[i] == rs[1..][i - 1];
      rest
  }

  /**
   * The unique index on `(date, time)`: no two records share the pair. That is
   * the same as saying each record, inserted in order, found its key free.
   */
  function UniqueSlots(rs: seq<Appointment>): (b: bool)
    ensures b <==> forall k :: 0 <= k < |rs| ==> !SlotTaken(rs[..k], rs[k].date, rs[k].time)
  {
    PairwiseIffFreeInsertions(rs);
    forall i, j :: 0 <= i < j < |rs| ==> rs[i].date != rs[j].date || rs[i].time != rs[j].time
  }

  lemma PairwiseIffFreeInsertions(rs: seq<Appointment>)
    ensures (forall i, j :: 0 <= i < j < |rs| ==> rs[i].date != rs[j].date || rs[i].time != rs[j].time)
            <==> forall k :: 0 <= k < |rs| ==> !SlotTaken(rs[..k], rs[k].date, rs[k].time)
  {
    if forall k :: 0 <= k < |rs| ==> !SlotTaken(rs[..k], rs[k].date, rs[k].time) {
      forall i, j | 0 <= i < j < |rs| ensures rs[i].date != rs[j].date || rs[i].time != rs[j].time {
        assert rs[..j][i] == rs[i];
        assert !SlotTaken(rs[..j], rs[j].date, rs[j].time);
      }
    }
  }

  /** Ids are unique, as the store assigns them. */
  predicate UniqueIds(rs: seq<Appointment>)
  {
    forall i, j :: 0 <= i < j < |rs| ==> rs[i].id != rs[j].id
  }

  /** Why a handler answered 500. */
  datatype Cause =
    | TypeErrorThrown   // a property read on `undefined` or `null`
    | ValidationFailed  // the store refused the document: an invalid date, a missing required field
    | DuplicateKey      // the unique `(date, time)` index refused the insert

  /** The answers the appointment handlers give other than success. */
  datatype ApiError = InvalidStatus | NotFound | Forbidden | ServerError(cause: Cause)
  {
    function Code(): int
    {
      match this
      case InvalidStatus => 400
      case Forbidden => 403
      case NotFound => 404
      case ServerError(_) => 500
    }
  }
}
