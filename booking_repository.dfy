/**
 * The booking history as the storage layer keeps it: a sequence of booking
 * records in insertion order, and the query for the most recent booking of a
 * device.
 */
module BookingRepository {
  import opened Entities

  /** Index of the last booking of `deviceId` in insertion order, if there is one. */
  function LastIndexFor(h: seq<Booking>, deviceId: int): (r: Option<nat>)
    ensures r.Some? ==> r.value < |h| && h[r.value].device.id == deviceId
    ensures r.Some? ==> forall j :: r.value < j < |h| ==> h[j].device.id != deviceId
    ensures r.None? <==> forall j :: 0 <= j < |h| ==> h[j].device.id != deviceId
    decreases |h|
  {
    if |h| == 0 then None
    else if h[|h| - 1].device.id == deviceId then Some(|h| - 1)
    else LastIndexFor(h[..|h| - 1], deviceId)
  }

  /** Every booking was made strictly later than the ones saved before it. */
  ghost predicate StrictlyIncreasingBookedAt(h: seq<Booking>)
  {
    forall i, j :: 0 <= i < j < |h| ==> h[i].bookedAt < h[j].bookedAt
  }

  /**
   * Booking `i` is a booking of `deviceId` with the greatest `bookedAt`: the
   * first row of the query that orders the device's bookings by `bookedAt`
   * descending.
   */
  ghost predicate IsTopByBookedAt(h: seq<Booking>, deviceId: int, i: int)
  {
    0 <= i < |h| && h[i].device.id == deviceId &&
    forall j :: 0 <= j < |h| && h[j].device.id == deviceId ==> h[j].bookedAt <= h[i].bookedAt
  }

  /**
   * When bookings are saved with strictly increasing `bookedAt`, the top
   * booking by `bookedAt` is exactly the last one saved, and it is unique.
   */
  lemma LastIndexIsTopByBookedAt(h: seq<Booking>, deviceId: int, i: int)
    requires StrictlyIncreasingBookedAt(h)
    ensures IsTopByBookedAt(h, deviceId, i) <==> LastIndexFor(h, deviceId) == Some(i)
  {
  }

  /**
   * The most recent booking of a device, or `None` if it was never booked
   * (the query for the top booking by `bookedAt`, unwrapped to a nullable value).
   */
  function LatestBooking(h: seq<Booking>, deviceId: int): (r: Option<Booking>)
    ensures r.None? <==> forall j :: 0 <= j < |h| ==> h[j].device.id != deviceId
    ensures r.Some? ==> r.value in h && r.value.device.id == deviceId
    ensures r.Some? && StrictlyIncreasingBookedAt(h) ==>
      forall j :: 0 <= j < |h| && h[j].device.id == deviceId ==> h[j].bookedAt <= r.value.bookedAt
  {
    match LastIndexFor(h, deviceId)
    case None => None
    case Some(k) =>
      assert StrictlyIncreasingBookedAt(h) ==> IsTopByBookedAt(h, deviceId, k) by {
        if StrictlyIncreasingBookedAt(h) { LastIndexIsTopByBookedAt(h, deviceId, k); }
      }
      Some(h[k])
  }

  /** Every booking of a device except the most recent one has been returned. */
  ghost predicate ClosedUnlessLatest(h: seq<Booking>)
  {
    forall i :: 0 <= i < |h| && LastIndexFor(h, h[i].device.id) != Some(i) ==> h[i].returnedAt.Some?
  }

  /** The same invariant, pairwise: a booking followed by a later booking of the same device is closed. */
  ghost predicate EarlierBookingsClosed(h: seq<Booking>)
  {
    forall i, j :: 0 <= i < j < |h| && h[i].device.id == h[j].device.id ==> h[i].returnedAt.Some?
  }

  lemma EarlierBookingsClosedIff(h: seq<Booking>)
    ensures EarlierBookingsClosed(h) <==> ClosedUnlessLatest(h)
  {
  }

  /** Under the invariant a device has at most one open booking. */
  lemma AtMostOneOpenBooking(h: seq<Booking>, i: int, j: int)
    requires EarlierBookingsClosed(h)
    requires 0 <= i < |h| && 0 <= j < |h| && h[i].device.id == h[j].device.id
    requires h[i].IsOpen() && h[j].IsOpen()
    ensures i == j
  {
  }
}
