/**
 * The read-only appointment handlers of src/controllers/appointmentController.js
 * as functions of the stored records: the per-user listing, the admin listing
 * with its display shape, the fully booked days and the booked times of a day.
 */
module AppointmentQueries {
  import opened Common
  import opened UserModel
  import opened AppointmentModel

  /** `sort({ date: -1 })`: no record's date is later than that of a record before it. */
  predicate NewestFirst(rs: seq<Appointment>)
  {
    forall i, j :: 0 <= i < j < |rs| ==> Instant(rs[j].date) <= Instant(rs[i].date)
  }

  function InsertByDate(a: Appointment, rs: seq<Appointment>): (r: seq<Appointment>)
    requires NewestFirst(rs)
    ensures NewestFirst(r)
    ensures multiset(r) == multiset(rs) + multiset{a}
  {
    if rs == [] || Instant(rs[0].date) <= Instant(a.date) then [a] + rs
    else
      var tail := InsertByDate(a, rs[1..]);
      InsertedBelowHead(a, rs, tail);
      HeadOnTop(rs[0], tail);
      assert rs == [rs[0]] + rs[1..];
      [rs[0]] + tail
  }

  lemma HeadOnTop(head: Appointment, tail: seq<Appointment>)
    requires NewestFirst(tail)
    requires forall j :: 0 <= j < |tail| ==> Instant(tail[j].date) <= Instant(head.date)
    ensures NewestFirst([head] + tail)
  {
    var r := [head] + tail;
    forall i, j | 0 <= i < j < |r| ensures Instant(r[j].date) <= Instant(r[i].date) {
      assert r[j] == tail[j - 1];
      if i > 0 {
        assert r[i] == tail[i - 1];
      }
    }
  }

  lemma InsertedBelowHead(a: Appointment, rs: seq<Appointment>, tail: seq<Appointment>)
    requires rs != [] && NewestFirst(rs) && Instant(a.date) < Instant(rs[0].date)
    requires multiset(tail) == multiset(rs[1..]) + multiset{a}
    ensures forall j :: 0 <= j < |tail| ==> Instant(tail[j].date) <= Instant(rs[0].date)
  {
    forall j | 0 <= j < |tail|
      ensures Instant(tail[j].date) <= Instant(rs[0].date)
    {
      assert tail[j] in multiset(tail);
      if tail[j] != a {
        assert tail[j] in multiset(rs[1..]);
        var k :| 0 <= k < |rs[1..]| && rs[1..][k] == tail[j];
        assert rs[k + 1] == tail[j];
      }
    }
  }

  /** The records in newest-first order (ties keep no particular order in the store; here, input order). */
  function SortNewestFirst(rs: seq<Appointment>): (r: seq<Appointment>)
    ensures NewestFirst(r)
    ensures multiset(r) == multiset(rs)
  {
    if rs == [] then []
    else
      assert rs == [rs[0]] + rs[1..];
      InsertByDate(rs[0], SortNewestFirst(rs[1..]))
  }

  /** `Appointment.find({ user: u })`: the records whose `user` is `u`, in store order. */
  function OwnedBy(rs: seq<Appointment>, u: UserId): (r: seq<Appointment>)
    ensures forall a :: a in r <==> a in rs && a.owner == Member(u)
    ensures forall a :: multiset(r)[a] == if a.owner == Member(u) then multiset(rs)[a] else 0
    ensures |r| <= |rs|
  {
    if rs == [] then []
    else
      var rest := OwnedBy(rs[1..], u);
      assert rs == [rs[0]] + rs[1..];
      if rs[0].owner == Member(u) then [rs[0]] + rest else rest
  }

  /**
   * `getUserAppointments`: the caller's own records, newest first. `caller`
   * is `req.user`, which is `null` when the token names a deleted user.
   */
  function ListForUser(rs: seq<Appointment>, caller: Option<User>): (r: Result<seq<Appointment>, ApiError>)
    ensures r.Err? <==> caller.None?
    ensures r.Err? ==> r.error == ServerError(TypeErrorThrown)
    ensures r.Ok? ==> NewestFirst(r.value)
    ensures r.Ok? ==> forall a :: a in r.value <==> a in rs && a.owner == Member(caller.value.id)
    ensures r.Ok? ==> multiset(r.value) == multiset(OwnedBy(rs, caller.value.id))
    ensures r.Ok? ==> forall a :: multiset(r.value)[a] == if a.owner == Member(caller.value.id) then multiset(rs)[a] else 0
  {
    match caller
    case None => Err(ServerError(TypeErrorThrown))
    case Some(user) =>
      var sorted := SortNewestFirst(OwnedBy(rs, user.id));
      assert forall a :: a in sorted <==> a in multiset(sorted);
      Ok(sorted)
  }

  /** The display shape of one record in the admin listing. */
  datatype Row = Row(
    id: Id,
    name: Option<string>,
    email: Option<string>,
    phone: Option<string>,
    date: Date,
    time: string,
    service: string,
    notes: Option<string>,
    status: Status,
    isGuest: bool)

  const DeletedUserName: string := "Silinmiş Kullanıcı"
  const NoInfo: string := "Bilgi Yok"

  /** `value || fallback` on a string that may be absent. */
  function OrElse(value: Option<string>, fallback: string): (s: string)
    ensures Truthy(value) ==> s == value.value
    ensures !Truthy(value) ==> s == fallback
  {
    if Truthy(value) then value.value else fallback
  }

  /**
   * One record in the admin listing's display shape. `guestInfo` is a nested
   * path of the schema, so on a loaded document it is an object even when the
   * booking carried none: the guest test comes down to the stored `isGuest`
   * flag. A guest record shows the guest's fields, absent where `guestInfo`
   * does not hold them; a member record shows the populated user's fields, or
   * fallback labels where the user no longer exists or the field is empty.
   */
  function Format(a: Appointment, users: seq<User>): (row: Row)
    ensures row.id == a.id && row.date == a.date && row.time == a.time
    ensures row.service == a.service && row.notes == a.notes && row.status == a.status
    ensures row.isGuest <==> a.owner.Guest?
    ensures a.owner.Guest? && a.owner.info.Some? ==>
              row.name == a.owner.info.value.name && row.email == a.owner.info.value.email
              && row.phone == a.owner.info.value.phone
    ensures a.owner.Guest? && a.owner.info.None? ==> row.name.None? && row.email.None? && row.phone.None?
    ensures a.owner.Member? ==>
              var p := FindById(users, a.owner.user);
              && row.name == Some(if p.Some? && p.value.name != "" then p.value.name else DeletedUserName)
              && row.email == Some(if p.Some? && p.value.email != "" then p.value.email else NoInfo)
              && row.phone == Some(if p.Some? && p.value.phone != "" then p.value.phone else NoInfo)
  {
    match a.owner
    case Guest(info) =>
      var name := if info.Some? then info.value.name else None;
      var email := if info.Some? then info.value.email else None;
      var phone := if info.Some? then info.value.phone else None;
      Row(a.id, name, email, phone, a.date, a.time, a.service, a.notes, a.status, true)
    case Member(u) =>
      var profile := FindById(users, u);
      var name := if profile.Some? then Some(profile.value.name) else None;
      var email := if profile.Some? then Some(profile.value.email) else None;
      var phone := if profile.Some? then Some(profile.value.phone) else None;
      Row(a.id, Some(OrElse(name, DeletedUserName)), Some(OrElse(email, NoInfo)), Some(OrElse(phone, NoInfo)),
          a.date, a.time, a.service, a.notes, a.status, false)
  }

  /** A member record whose user has been deleted is still listed, with the fallback labels. */
  lemma OrphanShowsFallbacks(a: Appointment, users: seq<User>)
    requires a.owner.Member? && FindById(users, a.owner.user).None?
    ensures Format(a, users).name == Some(DeletedUserName)
    ensures Format(a, users).email == Some(NoInfo) && Format(a, users).phone == Some(NoInfo)
    ensures !Format(a, users).isGuest
  {
  }

  /** A member record whose user exists with every contact field filled shows exactly that user's profile. */
  lemma MemberShowsProfile(a: Appointment, users: seq<User>, u: User)
    requires a.owner.Member? && FindById(users, a.owner.user) == Some(u)
    requires u.name != "" && u.email != "" && u.phone != ""
    ensures Format(a, users).name == Some(u.name)
    ensures Format(a, users).email == Some(u.email) && Format(a, users).phone == Some(u.phone)
    ensures !Format(a, users).isGuest
  {
  }

  /** A guest booking sent without `guestInfo` is still listed as a guest's, with no contact fields. */
  lemma GuestWithoutInfoStaysGuest(a: Appointment, users: seq<User>)
    requires a.owner == Guest(None)
    ensures Format(a, users).isGuest
    ensures Format(a, users).name.None? && Format(a, users).email.None? && Format(a, users).phone.None?
  {
  }

  function FormatAll(rs: seq<Appointment>, users: seq<User>): (rows: seq<Row>)
    ensures |rows| == |rs|
    ensures forall i :: 0 <= i < |rs| ==> rows[i] == Format(rs[i], users)
  {
    seq(|rs|, i requires 0 <= i < |rs| => Format(rs[i], users))
  }

  /**
   * `getAppointments`: every record, newest first, in the display shape.
   * `caller` is `req.user`; reading its role throws when it is `null`.
   */
  function ListAll(rs: seq<Appointment>, users: seq<User>, caller: Option<User>): (r: Result<seq<Row>, ApiError>)
    ensures r.Ok? <==> caller.Some? && caller.value.role == "admin"
    ensures caller.None? ==> r == Err(ServerError(TypeErrorThrown))
    ensures caller.Some? && caller.value.role != "admin" ==> r == Err(Forbidden)
    ensures r.Ok? ==> |r.value| == |rs|
    ensures r.Ok? ==> forall a :: a in rs ==> Format(a, users) in r.value
    ensures r.Ok? ==> forall row :: row in r.value ==> exists a :: a in rs && row == Format(a, users)
    ensures r.Ok? ==> forall i, j :: 0 <= i < j < |r.value| ==> Instant(r.value[j].date) <= Instant(r.value[i].date)
  {
    if caller.None? then Err(ServerError(TypeErrorThrown))
    else if caller.value.role != "admin" then Err(Forbidden)
    else
      var sorted := SortNewestFirst(rs);
      var rows := FormatAll(sorted, users);
      SameMembers(rs, sorted);
      RowsOfSorted(rs, sorted, users, rows);
      Ok(rows)
  }

  /** The rows of a reordering of the records are exactly the records' rows, and follow its date order. */
  lemma RowsOfSorted(rs: seq<Appointment>, sorted: seq<Appointment>, users: seq<User>, rows: seq<Row>)
    requires forall a :: a in sorted <==> a in rs
    requires NewestFirst(sorted)
    requires |rows| == |sorted| && forall i :: 0 <= i < |sorted| ==> rows[i] == Format(sorted[i], users)
    ensures forall a :: a in rs ==> Format(a, users) in rows
    ensures forall row :: row in rows ==> exists a :: a in rs && row == Format(a, users)
    ensures forall i, j :: 0 <= i < j < |rows| ==> Instant(rows[j].date) <= Instant(rows[i].date)
  {
    forall a | a in rs ensures Format(a, users) in rows {
      var i :| 0 <= i < |sorted| && sorted[i] == a;
      assert rows[i] == Format(a, users);
    }
    forall row | row in rows ensures exists a :: a in rs && row == Format(a, users) {
      var i :| 0 <= i < |rows| && rows[i] == row;
      assert sorted[i] in rs;
    }
    forall i, j | 0 <= i < j < |rows| ensures Instant(rows[j].date) <= Instant(rows[i].date) {
      assert rows[i].date == sorted[i].date && rows[j].date == sorted[j].date;
    }
  }

  lemma SameMembers(rs: seq<Appointment>, sorted: seq<Appointment>)
    requires multiset(sorted) == multiset(rs)
    ensures |sorted| == |rs|
    ensures forall a :: a in rs <==> a in sorted
  {
    assert |multiset(sorted)| == |multiset(rs)|;
    forall a ensures a in rs <==> a in sorted {
      assert a in rs <==> a in multiset(rs);
      assert a in sorted <==> a in multiset(sorted);
    }
  }

  /** A day is fully booked once it holds this many records (hourly slots from 09:00 to 18:00). */
  const FullDayCount: nat := 10

  /** How many records fall on `day`: the `count` of that day's `$group` bucket. */
  function CountOn(rs: seq<Appointment>, day: int): (n: nat)
    ensures n <= |rs|
  {
    if rs == [] then 0
    else (if rs[0].date.day == day then 1 else 0) + CountOn(rs[1..], day)
  }

  predicate NoDuplicates<T(==)>(s: seq<T>)
  {
    forall i, j :: 0 <= i < j < |s| ==> s[i] != s[j]
  }

  /** The `_id`s of the `$group` buckets: every day that holds a record, each once. */
  function Days(rs: seq<Appointment>): (ds: seq<int>)
    ensures NoDuplicates(ds)
    ensures forall d :: d in ds <==> CountOn(rs, d) > 0
  {
    if rs == [] then []
    else
      var rest := Days(rs[1..]);
      if rs[0].date.day in rest then rest else [rs[0].date.day] + rest
  }

  /** `.filter(app => app.count >= 10)` over the buckets. */
  function FullDays(ds: seq<int>, rs: seq<Appointment>): (full: seq<int>)
    ensures forall d :: d in full <==> d in ds && CountOn(rs, d) >= FullDayCount
    ensures NoDuplicates(ds) ==> NoDuplicates(full)
  {
    if ds == [] then []
    else
      var rest := FullDays(ds[1..], rs);
      if CountOn(rs, ds[0]) >= FullDayCount then [ds[0]] + rest else rest
  }

  /**
   * `getBookedDates`: the midnight of every day holding at least
   * `FullDayCount` records, each day once.
   */
  function BookedDates(rs: seq<Appointment>): (r: seq<Date>)
    ensures NoDuplicates(r)
    ensures forall t :: t in r ==> t == DayStart(t.day)
    ensures forall d :: DayStart(d) in r <==> CountOn(rs, d) >= FullDayCount
  {
    var full := FullDays(Days(rs), rs);
    var r := seq(|full|, i requires 0 <= i < |full| => DayStart(full[i]));
    assert forall d :: DayStart(d) in r <==> d in full by {
      forall d ensures DayStart(d) in r <==> d in full {
        if DayStart(d) in r {
          var i :| 0 <= i < |r| && r[i] == DayStart(d);
          assert full[i] == d;
        }
        if d in full {
          var i :| 0 <= i < |full| && full[i] == d;
          assert r[i] == DayStart(d);
        }
      }
    }
    r
  }

  /** `.find({ date: { $gte: lo, $lte: hi } }).select('time')` mapped to `time`, in store order. */
  function TimesBetween(rs: seq<Appointment>, lo: int, hi: int): (ts: seq<string>)
    ensures |ts| <= |rs|
    ensures forall s :: s in ts <==> exists a :: a in rs && lo <= Instant(a.date) <= hi && a.time == s
  {
    if rs == [] then []
    else
      var rest := TimesBetween(rs[1..], lo, hi);
      assert forall a :: a in rs <==> a == rs[0] || a in rs[1..];
      if lo <= Instant(rs[0].date) <= hi then [rs[0].time] + rest else rest
  }

  /**
   * `getBookedTimes`: the `time` of every record between 00:00:00 and
   * 23:59:59 of the selected day. An invalid date fails the query's cast.
   */
  function BookedTimes(rs: seq<Appointment>, selected: Option<Date>): (r: Result<seq<string>, ApiError>)
    ensures r.Err? <==> selected.None?
    ensures r.Err? ==> r.error == ServerError(ValidationFailed)
    ensures r.Ok? ==> |r.value| <= |rs|
  {
    match selected
    case None => Err(ServerError(ValidationFailed))
    case Some(t) =>
      var startOfDay := DayStart(t.day);
      var endOfDay := DateTime(t.day, 23, 59, 59, 0);
      Ok(TimesBetween(rs, Instant(startOfDay), Instant(endOfDay)))
  }

  /** The `time` of every record on `day`, in store order: the reference the query is measured against. */
  function TimesOn(rs: seq<Appointment>, day: int): (ts: seq<string>)
    ensures |ts| == CountOn(rs, day)
    ensures forall s :: s in ts <==> exists a :: a in rs && a.date.day == day && a.time == s
  {
    if rs == [] then []
    else
      var rest := TimesOn(rs[1..], day);
      assert forall a :: a in rs <==> a == rs[0] || a in rs[1..];
      if rs[0].date.day == day then [rs[0].time] + rest else rest
  }

  /** With seconds 0, a date lies in the day window exactly when it is on that day. */
  lemma InDayWindow(x: Date, day: int)
    requires x.second == 0
    ensures Instant(DayStart(day)) <= Instant(x) <= Instant(DateTime(day, 23, 59, 59, 0)) <==> x.day == day
  {
  }

  lemma {:induction false} TimesBetweenIsTimesOn(rs: seq<Appointment>, day: int)
    requires forall a :: a in rs ==> a.date.second == 0
    ensures TimesBetween(rs, Instant(DayStart(day)), Instant(DateTime(day, 23, 59, 59, 0))) == TimesOn(rs, day)
  {
    if rs != [] {
      InDayWindow(rs[0].date, day);
      TimesBetweenIsTimesOn(rs[1..], day);
    }
  }

  /**
   * On records whose seconds are 0 (every booked record), the booked times of
   * a day are exactly the times of that day's records, one per record.
   */
  lemma BookedTimesOfDay(rs: seq<Appointment>, t: Date)
    requires forall a :: a in rs ==> a.date.second == 0
    ensures BookedTimes(rs, Some(t)) == Ok(TimesOn(rs, t.day))
    ensures |BookedTimes(rs, Some(t)).value| == CountOn(rs, t.day)
  {
    TimesBetweenIsTimesOn(rs, t.day);
  }

  /** The two availability queries agree: a day is fully booked exactly when it has at least 10 booked times. */
  lemma FullyBookedIffTenTimes(rs: seq<Appointment>, t: Date)
    requires forall a :: a in rs ==> a.date.second == 0
    ensures DayStart(t.day) in BookedDates(rs) <==> |BookedTimes(rs, Some(t)).value| >= FullDayCount
  {
    BookedTimesOfDay(rs, t);
  }
}
