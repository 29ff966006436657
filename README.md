# Device-lending booking engine, modelled in Dafny

This project models the booking state engine of a small device-lending service
(`DeviceService`). A device is either Available or Booked. That state is never
stored: the service works it out from the device's most recent booking. A device
is available iff it has no booking, or its latest booking has a `returnedAt`.
Two operations change the booking history:

- booking a device looks up the device, then the user. It fails if the latest
  booking is still open. Otherwise it saves a new open booking stamped with the
  current time.
- returning a device fails if the latest booking is absent or already returned.
  Otherwise it stamps `returnedAt` on that booking in place and saves it.

Files and modules:

- `entities.dfy` (`Entities`): the `Device`, `User` and `Booking` records, and
  `Option` for the nullable fields.
- `booking_repository.dfy` (`BookingRepository`): the booking history as a
  sequence in insertion order. It holds the "latest booking of a device" query
  (`LastIndexFor`, `LatestBooking`) and proves it equal to "the booking with the
  greatest `bookedAt`" when timestamps increase strictly. It also holds the
  invariant that only a device's latest booking can be open.
- `device_service.dfy` (`DeviceService`):
  - the `Result` type (`Ok`, `EntityNotFound`, `DeviceUnavailable`) that stands
    for the checked exceptions, and the `DeviceInfo` read view;
  - the pure lookups `GetDevice`, `GetUser` and `GetInfo`, and `IsDeviceAvailable`;
  - the decision functions `BookOutcome` and `ReturnOutcome`, with the store
    updates `AfterBook` and `AfterReturn`;
  - the store invariant `ValidStore` and the lemmas that both operations keep it;
  - the class `DeviceService`, whose methods `BookDevice` and `ReturnDevice`
    update the booking table in place and are proved to match the decision
    functions.
- `booking_lifecycle.dfy` (`BookingLifecycle`): the state machine over
  sequences of calls. Book then return both succeed. A second book fails. A
  second return fails. A return of an unknown device fails as "no return
  needed". The read views after each step are stated too, and so is the
  seeded store of the end-to-end scenario.

Environment parameters: the wall clock (`LocalDateTime.now()`) is the `now`
argument of `BookDevice` and `ReturnDevice`. The methods require it to be later
than the store's `clock` field, which records the last time used, so the clock
is strictly increasing. Booking ids, generated by the database in the source,
come from a `nextBookingId` counter. The invariant keeps them distinct.

## Model

| member | source | states |
|---|---|---|
| `BookingRepository.LastIndexFor` | src/main/java/com/matheusfig90/repository/BookingRepository.java:11 | The result is the index of a booking of the device with no later booking of that device; `None` exactly when the device has no booking. |
| `BookingRepository.LastIndexIsTopByBookedAt` | src/main/java/com/matheusfig90/repository/BookingRepository.java:11 | When `bookedAt` increases strictly along the history, a booking is the device's top booking by `bookedAt` iff it is the last one saved (both directions, so the top booking is unique). |
| `BookingRepository.LatestBooking` | src/main/java/com/matheusfig90/service/DeviceService.java:93-100 | `None` iff the device was never booked; otherwise a booking of that device from the history, whose `bookedAt` is at least that of every other booking of the device when timestamps increase strictly. |
| `BookingRepository.EarlierBookingsClosedIff` | src/main/java/com/matheusfig90/service/DeviceService.java:50-53 | The pairwise invariant ("a booking followed by a later booking of the same device is closed") is equivalent to "every booking other than its device's latest is closed". |
| `BookingRepository.AtMostOneOpenBooking` | src/main/java/com/matheusfig90/service/DeviceService.java:50-53 | Under that invariant, two open bookings of the same device are the same booking. |
| `DeviceService.IsDeviceAvailable` | src/main/java/com/matheusfig90/service/DeviceService.java:102-104 | Total, never fails. No latest booking gives available, a latest booking with a `returnedAt` gives available, and an open latest booking gives unavailable. Its partner `AvailableIffNoOpenBooking` ties it to "no open booking exists". |
| `DeviceService.AvailableIffNoOpenBooking` | src/main/java/com/matheusfig90/service/DeviceService.java:102-104 | Under the invariant, the availability read from the latest booking holds iff every booking of the device has a `returnedAt`, so "available" means "no open booking exists". |
| `DeviceService.GetDevice` | src/main/java/com/matheusfig90/service/DeviceService.java:75-82 | A known id yields its stored device; an unknown id yields `EntityNotFound("Device not found")`. |
| `DeviceService.GetUser` | src/main/java/com/matheusfig90/service/DeviceService.java:84-91 | A known id yields its stored user; an unknown id yields `EntityNotFound("User not found")`. |
| `DeviceService.GetInfo` | src/main/java/com/matheusfig90/service/DeviceService.java:39-44 | An unknown device yields `EntityNotFound("Device not found")`. Otherwise the view holds the stored device, its latest booking (or none) and the availability derived from that booking. |
| `DeviceService.BookOutcome` | src/main/java/com/matheusfig90/service/DeviceService.java:46-62 | Unknown device gives `EntityNotFound("Device not found")` whatever the user. A known device with an unknown user gives `EntityNotFound("User not found")`. An open latest booking gives `DeviceUnavailable("Device is already booked")`. Success happens exactly when none of these apply, and the new booking carries the resolved device and user, `bookedAt = now`, no `returnedAt` and a fresh id. |
| `DeviceService.ReturnOutcome` | src/main/java/com/matheusfig90/service/DeviceService.java:64-73 | Success happens exactly when the latest booking exists and is open. Every failure is `DeviceUnavailable("Device is available, no return needed")`. On success the result is the latest booking with the same id, device, user and `bookedAt`, and `returnedAt = now`. |
| `DeviceService.AfterBook` | src/main/java/com/matheusfig90/service/DeviceService.java:61 | Saving a new booking inserts a record: the device and user tables are unchanged, every earlier booking keeps its place and value, and on success the history grows by exactly the new booking at its end. A failure adds nothing. Its partner `BookEffect` proves the new record becomes the device's latest. |
| `DeviceService.AfterReturn` | src/main/java/com/matheusfig90/service/DeviceService.java:72 | Saving the stamped booking updates a record in place: the tables are unchanged, the history keeps its length, and a failure changes nothing. Its partner `ReturnEffect` proves that only the device's latest record changes and that it becomes the stamped booking. |
| `DeviceService.BookEffect` | src/main/java/com/matheusfig90/service/DeviceService.java:55-61 | A failed booking leaves the store as it was. A successful one appends exactly the new booking, which becomes the device's latest, so the device is unavailable. Every other device's latest booking is unchanged. |
| `DeviceService.ReturnEffect` | src/main/java/com/matheusfig90/service/DeviceService.java:70-72 | A failed return leaves the store as it was. A successful one replaces exactly the device's latest booking by the stamped one, and every other booking is unchanged. That booking stays the latest, so the device becomes available. No device's latest index moves. |
| `DeviceService.SameDevicesSameLastIndex` | src/main/java/com/matheusfig90/repository/BookingRepository.java:11 | Two histories that agree on which device each booking is for give every device the same latest index. |
| `DeviceService.BookPreservesValid` | src/main/java/com/matheusfig90/service/DeviceService.java:50-61 | With a later clock reading, booking keeps the store invariant (references resolve, timestamps ordered, ids distinct, only the latest booking of a device open). |
| `DeviceService.ReturnPreservesValid` | src/main/java/com/matheusfig90/service/DeviceService.java:64-72 | With a later clock reading, returning keeps the same invariant. |
| `DeviceService.DeviceService.constructor` | src/main/java/com/matheusfig90/service/DeviceService.java:33-37 | The service is built over tables that may already hold devices, users and bookings. Any store that satisfies the invariant is accepted, and the service's state is exactly that store. |
| `DeviceService.DeviceService.BookDevice` | src/main/java/com/matheusfig90/service/DeviceService.java:46-62 | Keeps the invariant. The result is `BookOutcome` of the old state and the new state is `AfterBook`, so success appends one booking and leaves the device unavailable, and failure changes nothing. |
| `DeviceService.DeviceService.ReturnDevice` | src/main/java/com/matheusfig90/service/DeviceService.java:64-73 | Keeps the invariant. The result is `ReturnOutcome` of the old state and the new state is `AfterReturn`, so success updates the latest booking in place and leaves the device available, and failure changes nothing. |
| `BookingLifecycle.BookThenReturn` | src/main/java/com/matheusfig90/service/DeviceService.java:46-73 | On a valid store, booking an available device and then returning it both succeed. The history gains exactly one booking, now closed at the return time. The device ends available and the invariant holds. |
| `BookingLifecycle.SecondBookFails` | src/main/java/com/matheusfig90/service/DeviceService.java:50-53 | After a successful booking, a second booking of the same device by any known user fails with `DeviceUnavailable("Device is already booked")`. |
| `BookingLifecycle.SecondReturnFails` | src/main/java/com/matheusfig90/service/DeviceService.java:64-68 | After a successful return, a second return of the same device fails with `DeviceUnavailable`. |
| `BookingLifecycle.ReturnOfUnknownDevice` | src/test/java/com/matheusfig90/controllers/DeviceControllerIntegrationTest.java:232-239 | On a valid store, an unknown device id makes a return fail with `DeviceUnavailable` (the 400 path), while a booking fails with `EntityNotFound` (the 404 path). |
| `BookingLifecycle.ReturnKeepsClosedBookings` | src/main/java/com/matheusfig90/service/DeviceService.java:64-72 | A return never alters a booking that already has a `returnedAt`, and the history keeps its length. |
| `BookingLifecycle.InfoAfterBook` | src/test/java/com/matheusfig90/service/DeviceServiceTest.java:171-181 | Right after a successful booking, the read view shows the new booking as latest and the device as unavailable. |
| `BookingLifecycle.InfoAfterReturn` | src/test/java/com/matheusfig90/service/DeviceServiceTest.java:159-169 | Right after a successful return, the read view shows the stamped booking (with `returnedAt` set) as latest and the device as available. |
| `BookingLifecycle.SeededStoreIsValid` | src/test/java/com/matheusfig90/controllers/DeviceControllerIntegrationTest.java:54-109 | The end-to-end scenario's seeded tables (four devices, one user, two open bookings and one returned booking, saved straight into the booking table) satisfy the store invariant, so a service can be built over them. |
| `BookingLifecycle.SeededAvailability` | src/test/java/com/matheusfig90/controllers/DeviceControllerIntegrationTest.java:86-108 | In that seeded store, devices 1 and 4 read as available and devices 2 and 3 as booked. |
| `BookingLifecycle.InfoOfNeverBooked` | src/test/java/com/matheusfig90/service/DeviceServiceTest.java:183-193 | A known device that was never booked reads as available, with no latest booking. |

## Left out

- HTTP transport and the mapping of errors to status codes (404 / 400). The two error kinds of `Result` are what that mapping reads.
- Persistence (JPA repositories, id generation, column lengths). The tables are maps keyed by id, and the history is a sequence. Booking ids come from a counter rather than the database's generator.
- Wall-clock time. `now` is a parameter required to be later than every earlier reading. A clock that stalls or goes backwards, which would make the "top booking by `bookedAt`" ambiguous, is not modelled.
- 64-bit bounds on the `Long` ids. Ids are unbounded integers.
- Null ids. In the source, a `null` device or user id reaches the repository lookup and fails with an unchecked exception, which is neither of the two service errors. Ids here are always integers.
- Equal timestamps. The store invariant asks every booking's `bookedAt` to be later than the one saved before it, across all devices. A history with two bookings made at the same instant is outside the model. For one device that would make the latest booking ambiguous.
- Concurrency. Two requests racing through read-decide-write could create two open bookings for one device. The model is sequential, and the invariant holds only for sequential calls.
- Exception message formatting with `String.format` (the `UnavailableDeviceException(Long)` constructor is never used by the service). Messages are the literal strings the service passes.
- `getLatestBookingOrNull` returns `null` for "no booking". That is `None` of `LatestBooking`, which models it together with the repository query it calls.
- The `User` entity file is not part of this model. Its shape (`id`, `name`) follows the way the tests build users.
