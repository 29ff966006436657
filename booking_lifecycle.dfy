/**
 * The per-device state machine Available <-> Booked, stated over sequences
 * of service calls with a strictly increasing clock.
 */
module BookingLifecycle {
  import opened Entities
  import opened BookingRepository
  import opened DeviceService

  /** Booking an available device and then returning it both succeed, and the device ends available. */
  lemma BookThenReturn(s: Store, deviceId: int, userId: int, t1: nat, t2: nat)
    requires ValidStore(s) && s.clock < t1 < t2
    requires deviceId in s.devices && userId in s.users
    requires IsDeviceAvailable(LatestBooking(s.bookings, deviceId))
    ensures var r1 := BookOutcome(s, deviceId, userId, t1);
      var s1 := AfterBook(s, r1, t1);
      var r2 := ReturnOutcome(s1, deviceId, t2);
      var s2 := AfterReturn(s1, deviceId, r2, t2);
      r1.Ok? && r2.Ok? && r2.value == r1.value.(returnedAt := Some(t2)) &&
      ValidStore(s2) &&
      s2.bookings == s.bookings + [r2.value] &&
      IsDeviceAvailable(LatestBooking(s2.bookings, deviceId))
  {
    var r1 := BookOutcome(s, deviceId, userId, t1);
    var s1 := AfterBook(s, r1, t1);
    BookEffect(s, deviceId, userId, t1);
    BookPreservesValid(s, deviceId, userId, t1);
    var r2 := ReturnOutcome(s1, deviceId, t2);
    ReturnEffect(s1, deviceId, t2);
    ReturnPreservesValid(s1, deviceId, t2);
    var s2 := AfterReturn(s1, deviceId, r2, t2);
    assert LastIndexFor(s1.bookings, deviceId) == Some(|s.bookings|);
    assert s2.bookings == s1.bookings[|s.bookings| := r2.value];
  }

  /** Once a booking succeeds, booking the same device again fails, whoever asks and whenever. */
  lemma SecondBookFails(s: Store, deviceId: int, userId: int, otherUserId: int, t1: nat, t2: nat)
    requires WellKeyed(s.devices, s.users)
    requires BookOutcome(s, deviceId, userId, t1).Ok?
    ensures var s1 := AfterBook(s, BookOutcome(s, deviceId, userId, t1), t1);
      otherUserId in s.users ==> BookOutcome(s1, deviceId, otherUserId, t2) == DeviceUnavailable(AlreadyBooked)
  {
  }

  /** Once a return succeeds, returning the same device again fails. */
  lemma SecondReturnFails(s: Store, deviceId: int, t1: nat, t2: nat)
    requires ReturnOutcome(s, deviceId, t1).Ok?
    ensures var s1 := AfterReturn(s, deviceId, ReturnOutcome(s, deviceId, t1), t1);
      ReturnOutcome(s1, deviceId, t2) == DeviceUnavailable(NoReturnNeeded)
  {
    ReturnEffect(s, deviceId, t1);
  }

  /**
   * An unknown device id is rejected by a booking as not found, but by a
   * return as "no return needed": the return path never looks the device up.
   */
  lemma ReturnOfUnknownDevice(s: Store, deviceId: int, userId: int, now: nat)
    requires ValidStore(s) && deviceId !in s.devices
    ensures ReturnOutcome(s, deviceId, now) == DeviceUnavailable(NoReturnNeeded)
    ensures BookOutcome(s, deviceId, userId, now) == EntityNotFound(DeviceNotFound)
  {
  }

  /** A return only ever stamps an open booking: a returnedAt, once set, never changes. */
  lemma ReturnKeepsClosedBookings(s: Store, deviceId: int, now: nat)
    ensures var t := AfterReturn(s, deviceId, ReturnOutcome(s, deviceId, now), now);
      |t.bookings| == |s.bookings| &&
      forall i :: 0 <= i < |s.bookings| && s.bookings[i].returnedAt.Some? ==> t.bookings[i] == s.bookings[i]
  {
  }

  /** The read view right after a successful booking shows the new booking and an unavailable device. */
  lemma InfoAfterBook(s: Store, deviceId: int, userId: int, now: nat)
    requires WellKeyed(s.devices, s.users)
    requires BookOutcome(s, deviceId, userId, now).Ok?
    ensures var r := BookOutcome(s, deviceId, userId, now);
      GetInfo(AfterBook(s, r, now), deviceId) == Ok(DeviceInfo(s.devices[deviceId], Some(r.value), false))
  {
  }

  /** The read view right after a successful return shows the stamped booking and an available device. */
  lemma InfoAfterReturn(s: Store, deviceId: int, now: nat)
    requires deviceId in s.devices
    requires ReturnOutcome(s, deviceId, now).Ok?
    ensures var r := ReturnOutcome(s, deviceId, now);
      GetInfo(AfterReturn(s, deviceId, r, now), deviceId) == Ok(DeviceInfo(s.devices[deviceId], Some(r.value), true)) &&
      r.value.returnedAt == Some(now)
  {
    ReturnEffect(s, deviceId, now);
  }

  /** A device that was never booked reads as available with no latest booking. */
  lemma InfoOfNeverBooked(s: Store, deviceId: int)
    requires deviceId in s.devices
    requires forall j :: 0 <= j < |s.bookings| ==> s.bookings[j].device.id != deviceId
    ensures GetInfo(s, deviceId) == Ok(DeviceInfo(s.devices[deviceId], None, true))
  {
  }

  /**
   * A store seeded the way the end-to-end scenario seeds it: four devices,
   * one user, open bookings of devices 2 and 3, and a returned booking of
   * device 4.
   */
  function SeededStore(): Store
  {
    var user := User(1, "User #1");
    var d1 := Device(1, "Device #1");
    var d2 := Device(2, "Device #2");
    var d3 := Device(3, "Device #3");
    var d4 := Device(4, "Device #4");
    Store(map[1 := d1, 2 := d2, 3 := d3, 4 := d4], map[1 := user],
          [Booking(1, d2, user, 1, None), Booking(2, d3, user, 2, None), Booking(3, d4, user, 3, Some(4))],
          4, 4)
  }

  /** The seeded store satisfies the store invariant. */
  lemma SeededStoreIsValid()
    ensures ValidStore(SeededStore())
  {
  }

  /** In the seeded store devices 1 and 4 read as available, devices 2 and 3 as booked. */
  lemma SeededAvailability()
    ensures IsDeviceAvailable(LatestBooking(SeededStore().bookings, 1))
    ensures !IsDeviceAvailable(LatestBooking(SeededStore().bookings, 2))
    ensures !IsDeviceAvailable(LatestBooking(SeededStore().bookings, 3))
    ensures IsDeviceAvailable(LatestBooking(SeededStore().bookings, 4))
  {
    var h := SeededStore().bookings;
    assert h[..2][..1] == h[..1] && h[..1][..0] == [];
    assert LastIndexFor(h, 2) == Some(0);
    assert LastIndexFor(h, 3) == Some(1);
  }
}
