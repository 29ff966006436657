/**
 * The booking state engine: availability derived from a device's latest
 * booking, the read-only lookups, and the two operations that change the
 * booking history (book a device, return it).
 */
module DeviceService {
  import opened Entities
  import opened BookingRepository

  const DeviceNotFound := "Device not found"
  const UserNotFound := "User not found"
  const AlreadyBooked := "Device is already booked"
  const NoReturnNeeded := "Device is available, no return needed"

  /** The outcome of a service call: a value, or one of the two errors the service raises. */
  datatype Result<+T> = Ok(value: T) | EntityNotFound(msg: string) | DeviceUnavailable(msg: string)
  {
    predicate IsFailure() { !Ok? }

    function PropagateFailure<U>(): Result<U>
      requires IsFailure()
    {
      if EntityNotFound? then EntityNotFound(msg) else DeviceUnavailable(msg)
    }

    function Extract(): T
      requires Ok?
    {
      value
    }
  }

  /** The read view of one device. */
  datatype DeviceInfo = DeviceInfo(device: Device, latestBooking: Option<Booking>, isDeviceAvailable: bool)

  /**
   * A snapshot of everything the service reads and writes: the device and
   * user tables keyed by id, the booking history in insertion order, the last
   * clock reading used, and the next booking id to hand out.
   */
  datatype Store = Store(devices: map<int, Device>, users: map<int, User>, bookings: seq<Booking>,
                         clock: nat, nextBookingId: nat)

  /** Each table row is stored under its own id. */
  ghost predicate WellKeyed(devices: map<int, Device>, users: map<int, User>)
  {
    (forall id :: id in devices ==> devices[id].id == id) &&
    (forall id :: id in users ==> users[id].id == id)
  }

  /** The invariant the two operations keep. */
  ghost predicate ValidStore(s: Store)
  {
    var h := s.bookings;
    WellKeyed(s.devices, s.users) &&
    // every booking references a stored device and a stored user
    (forall i :: 0 <= i < |h| ==>
       h[i].device.id in s.devices && s.devices[h[i].device.id] == h[i].device &&
       h[i].user.id in s.users && s.users[h[i].user.id] == h[i].user) &&
    // timestamps lie in the past, and a return comes after its booking
    (forall i :: 0 <= i < |h| ==>
       h[i].bookedAt <= s.clock &&
       (h[i].returnedAt.Some? ==> h[i].bookedAt < h[i].returnedAt.value <= s.clock)) &&
    // booking ids are distinct and below the next one to hand out
    (forall i :: 0 <= i < |h| ==> h[i].id < s.nextBookingId) &&
    (forall i, j :: 0 <= i < j < |h| ==> h[i].id != h[j].id) &&
    StrictlyIncreasingBookedAt(h) &&
    EarlierBookingsClosed(h)
  }

  /** A device is available iff it was never booked or its latest booking has been returned. */
  function IsDeviceAvailable(latest: Option<Booking>): (available: bool)
    ensures latest.None? ==> available
    ensures latest.Some? && latest.value.returnedAt.Some? ==> available
    ensures latest.Some? && latest.value.IsOpen() ==> !available
  {
    latest.None? || latest.value.returnedAt.Some?
  }

  /**
   * Availability read from the latest booking is the same as "no open
   * booking of the device exists" whenever only a device's latest booking
   * can be open.
   */
  lemma AvailableIffNoOpenBooking(h: seq<Booking>, deviceId: int)
    requires EarlierBookingsClosed(h)
    ensures IsDeviceAvailable(LatestBooking(h, deviceId)) <==>
      forall i :: 0 <= i < |h| && h[i].device.id == deviceId ==> h[i].returnedAt.Some?
  {
  }

  function GetDevice(s: Store, deviceId: int): (r: Result<Device>)
    ensures deviceId in s.devices ==> r == Ok(s.devices[deviceId])
    ensures deviceId !in s.devices ==> r == EntityNotFound(DeviceNotFound)
  {
    if deviceId in s.devices then Ok(s.devices[deviceId]) else EntityNotFound(DeviceNotFound)
  }

  function GetUser(s: Store, userId: int): (r: Result<User>)
    ensures userId in s.users ==> r == Ok(s.users[userId])
    ensures userId !in s.users ==> r == EntityNotFound(UserNotFound)
  {
    if userId in s.users then Ok(s.users[userId]) else EntityNotFound(UserNotFound)
  }

  /**
   * The read view of a device: fails for an unknown device; otherwise the
   * device, its latest booking and whether it is available.
   */
  function GetInfo(s: Store, deviceId: int): (r: Result<DeviceInfo>)
    ensures deviceId !in s.devices ==> r == EntityNotFound(DeviceNotFound)
    ensures deviceId in s.devices ==>
      r.Ok? && r.value.device == s.devices[deviceId] &&
      r.value.latestBooking == LatestBooking(s.bookings, deviceId) &&
      r.value.isDeviceAvailable == IsDeviceAvailable(r.value.latestBooking)
  {
    var device :- GetDevice(s, deviceId);
    var latest := LatestBooking(s.bookings, deviceId);
    Ok(DeviceInfo(device, latest, IsDeviceAvailable(latest)))
  }

  /**
   * The decision of a booking request: the device is looked up first, then
   * the user, then the device must be available; the new booking is open and
   * stamped with `now`.
   */
  function BookOutcome(s: Store, deviceId: int, userId: int, now: nat): (r: Result<Booking>)
    ensures deviceId !in s.devices ==> r == EntityNotFound(DeviceNotFound)
    ensures deviceId in s.devices && userId !in s.users ==> r == EntityNotFound(UserNotFound)
    ensures deviceId in s.devices && userId in s.users && !IsDeviceAvailable(LatestBooking(s.bookings, deviceId)) ==>
      r == DeviceUnavailable(AlreadyBooked)
    ensures r.Ok? <==>
      deviceId in s.devices && userId in s.users && IsDeviceAvailable(LatestBooking(s.bookings, deviceId))
    ensures r.Ok? ==>
      r.value.id == s.nextBookingId && r.value.device == s.devices[deviceId] &&
      r.value.user == s.users[userId] && r.value.bookedAt == now && r.value.IsOpen()
  {
    var device :- GetDevice(s, deviceId);
    var user :- GetUser(s, userId);
    var latest := LatestBooking(s.bookings, deviceId);
    if !IsDeviceAvailable(latest) then DeviceUnavailable(AlreadyBooked)
    else Ok(Booking(s.nextBookingId, device, user, now, None))
  }

  /** The store after a booking request: a new booking is saved as a new record, a failure saves nothing. */
  function AfterBook(s: Store, r: Result<Booking>, now: nat): (t: Store)
    ensures t.devices == s.devices && t.users == s.users
    ensures |t.bookings| == |s.bookings| + (if r.Ok? then 1 else 0)
    ensures t.bookings[..|s.bookings|] == s.bookings
    ensures r.Ok? ==> t.bookings[|s.bookings|] == r.value
  {
    if r.Ok? then s.(bookings := s.bookings + [r.value], clock := now, nextBookingId := s.nextBookingId + 1)
    else s
  }

  /**
   * The decision of a return request: the latest booking must exist and be
   * open; it comes back stamped with `returnedAt = now`. The device table is
   * never consulted.
   */
  function ReturnOutcome(s: Store, deviceId: int, now: nat): (r: Result<Booking>)
    ensures r.Ok? <==> LatestBooking(s.bookings, deviceId).Some? && LatestBooking(s.bookings, deviceId).value.IsOpen()
    ensures !r.Ok? ==> r == DeviceUnavailable(NoReturnNeeded)
    ensures r.Ok? ==>
      var b := LatestBooking(s.bookings, deviceId).value;
      r.value.id == b.id && r.value.device == b.device && r.value.user == b.user &&
      r.value.bookedAt == b.bookedAt && r.value.returnedAt == Some(now)
  {
    var latest := LatestBooking(s.bookings, deviceId);
    if IsDeviceAvailable(latest) then DeviceUnavailable(NoReturnNeeded)
    else Ok(latest.value.(returnedAt := Some(now)))
  }

  /** The store after a return request: the returned booking replaces the latest record in place. */
  function AfterReturn(s: Store, deviceId: int, r: Result<Booking>, now: nat): (t: Store)
    ensures t.devices == s.devices && t.users == s.users
    ensures |t.bookings| == |s.bookings|
    ensures !r.Ok? ==> t == s
  {
    match (r, LastIndexFor(s.bookings, deviceId))
    case (Ok(b), Some(k)) => s.(bookings := s.bookings[k := b], clock := now)
    case _ => s
  }

  /**
   * A successful booking becomes the device's latest booking, so the device
   * becomes unavailable; earlier bookings are untouched and no other
   * device's latest booking changes. A failure changes nothing.
   */
  lemma BookEffect(s: Store, deviceId: int, userId: int, now: nat)
    requires WellKeyed(s.devices, s.users)
    ensures var r := BookOutcome(s, deviceId, userId, now);
      var t := AfterBook(s, r, now);
      (!r.Ok? ==> t == s) &&
      (r.Ok? ==>
         t.bookings == s.bookings + [r.value] &&
         t.devices == s.devices && t.users == s.users &&
         LatestBooking(t.bookings, deviceId) == Some(r.value) &&
         !IsDeviceAvailable(LatestBooking(t.bookings, deviceId)) &&
         forall d :: d != deviceId ==> LatestBooking(t.bookings, d) == LatestBooking(s.bookings, d))
  {
  }

  /**
   * A successful return stamps exactly the device's latest booking, which
   * stays its latest, so the device becomes available; every other booking
   * and every other device's latest booking is unchanged. A failure changes
   * nothing.
   */
  lemma ReturnEffect(s: Store, deviceId: int, now: nat)
    ensures var r := ReturnOutcome(s, deviceId, now);
      var t := AfterReturn(s, deviceId, r, now);
      (!r.Ok? ==> t == s) &&
      (r.Ok? ==>
         LastIndexFor(s.bookings, deviceId).Some? &&
         var k := LastIndexFor(s.bookings, deviceId).value;
         |t.bookings| == |s.bookings| && t.bookings[k] == r.value &&
         (forall i :: 0 <= i < |s.bookings| && i != k ==> t.bookings[i] == s.bookings[i]) &&
         t.devices == s.devices && t.users == s.users &&
         LatestBooking(t.bookings, deviceId) == Some(r.value) &&
         IsDeviceAvailable(LatestBooking(t.bookings, deviceId)) &&
         forall d :: LastIndexFor(t.bookings, d) == LastIndexFor(s.bookings, d))
  {
    var r := ReturnOutcome(s, deviceId, now);
    var t := AfterReturn(s, deviceId, r, now);
    if r.Ok? {
      var k := LastIndexFor(s.bookings, deviceId).value;
      assert t.bookings == s.bookings[k := r.value];
      forall d ensures LastIndexFor(t.bookings, d) == LastIndexFor(s.bookings, d) {
        SameDevicesSameLastIndex(s.bookings, t.bookings, d);
      }
      assert LastIndexFor(t.bookings, deviceId) == Some(k);
    }
  }

  /** The latest-booking index depends only on which device each booking is for. */
  lemma SameDevicesSameLastIndex(h1: seq<Booking>, h2: seq<Booking>, d: int)
    requires |h1| == |h2|
    requires forall i :: 0 <= i < |h1| ==> h1[i].device.id == h2[i].device.id
    ensures LastIndexFor(h1, d) == LastIndexFor(h2, d)
  {
  }

  /** A booking made with a clock reading later than any before it keeps the invariant. */
  lemma BookPreservesValid(s: Store, deviceId: int, userId: int, now: nat)
    requires ValidStore(s) && s.clock < now
    ensures ValidStore(AfterBook(s, BookOutcome(s, deviceId, userId, now), now))
  {
    var r := BookOutcome(s, deviceId, userId, now);
    if r.Ok? {
      var h := s.bookings;
      var t := AfterBook(s, r, now);
      assert t.bookings == h + [r.value];
      forall i, j | 0 <= i < j < |t.bookings| && t.bookings[i].device.id == t.bookings[j].device.id
        ensures t.bookings[i].returnedAt.Some?
      {
        if j == |h| {
          AvailableIffNoOpenBooking(h, deviceId);
          assert h[i].device.id == deviceId;
        }
      }
    }
  }

  /** A return made with a clock reading later than any before it keeps the invariant. */
  lemma ReturnPreservesValid(s: Store, deviceId: int, now: nat)
    requires ValidStore(s) && s.clock < now
    ensures ValidStore(AfterReturn(s, deviceId, ReturnOutcome(s, deviceId, now), now))
  {
    var r := ReturnOutcome(s, deviceId, now);
    if r.Ok? {
      var k := LastIndexFor(s.bookings, deviceId).value;
      assert AfterReturn(s, deviceId, r, now) == s.(bookings := s.bookings[k := r.value], clock := now);
    }
  }

  /**
   * The service object: the device, user and booking tables it reads and
   * writes, and the clock reading it last stamped a booking with.
   */
  class DeviceService {
    var devices: map<int, Device>
    var users: map<int, User>
    var bookings: seq<Booking>
    var clock: nat
    var nextBookingId: nat

    function State(): (s: Store)
      reads this
    {
      Store(devices, users, bookings, clock, nextBookingId)
    }

    ghost predicate Valid()
      reads this
    {
      ValidStore(State())
    }

    /**
     * A service over tables that may already hold devices, users and
     * bookings, as long as they satisfy the store invariant.
     */
    constructor (s: Store)
      requires ValidStore(s)
      ensures Valid()
      ensures State() == s
    {
      devices := s.devices;
      users := s.users;
      bookings := s.bookings;
      clock := s.clock;
      nextBookingId := s.nextBookingId;
    }

    /**
     * Books device `deviceId` for user `userId` at clock reading `now`:
     * on success one open booking is appended; on failure nothing is saved.
     */
    method BookDevice(deviceId: int, userId: int, now: nat) returns (r: Result<Booking>)
      requires Valid() && clock < now
      modifies this
      ensures Valid()
      ensures r == BookOutcome(old(State()), deviceId, userId, now)
      ensures State() == AfterBook(old(State()), r, now)
      ensures r.Ok? ==> bookings == old(bookings) + [r.value] && !IsDeviceAvailable(LatestBooking(bookings, deviceId))
      ensures !r.Ok? ==> unchanged(this)
    {
      var device :- GetDevice(State(), deviceId);
      var user :- GetUser(State(), userId);
      var latest := LatestBooking(bookings, deviceId);
      if !IsDeviceAvailable(latest) {
        return DeviceUnavailable(AlreadyBooked);
      }
      var booking := Booking(nextBookingId, device, user, now, None);
      BookPreservesValid(State(), deviceId, userId, now);
      BookEffect(State(), deviceId, userId, now);
      bookings := bookings + [booking];
      clock := now;
      nextBookingId := nextBookingId + 1;
      r := Ok(booking);
    }

    /**
     * Returns device `deviceId` at clock reading `now`: on success its latest
     * booking is stamped in place; on failure nothing is saved.
     */
    method ReturnDevice(deviceId: int, now: nat) returns (r: Result<Booking>)
      requires Valid() && clock < now
      modifies this
      ensures Valid()
      ensures r == ReturnOutcome(old(State()), deviceId, now)
      ensures State() == AfterReturn(old(State()), deviceId, r, now)
      ensures r.Ok? ==> |bookings| == |old(bookings)| && IsDeviceAvailable(LatestBooking(bookings, deviceId))
      ensures !r.Ok? ==> unchanged(this)
    {
      var latest := LatestBooking(bookings, deviceId);
      if IsDeviceAvailable(latest) {
        return DeviceUnavailable(NoReturnNeeded);
      }
      var k := LastIndexFor(bookings, deviceId).value;
      var returned := latest.value.(returnedAt := Some(now));
      ghost var s0 := State();
      ReturnPreservesValid(s0, deviceId, now);
      ReturnEffect(s0, deviceId, now);
      assert AfterReturn(s0, deviceId, Ok(returned), now) == s0.(bookings := bookings[k := returned], clock := now);
      bookings := bookings[k := returned];
      clock := now;
      r := Ok(returned);
    }
  }
}
