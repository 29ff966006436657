/** The records of the device-lending service: devices, users and the bookings that link them. */
module Entities {

  /** An optional value; `None` stands for the `null` of a missing record or timestamp. */
  datatype Option<+T> = None | Some(value: T)

  /** A device of the lending pool, keyed by its id. */
  datatype Device = Device(id: int, name: string)

  /** A user who may book a device, keyed by its id. */
  datatype User = User(id: int, name: string)

  /**
   * One user's claim on one device. Timestamps are ticks of an abstract clock.
   * `returnedAt` is `None` while the device is still out (the booking is open).
   */
  datatype Booking = Booking(id: nat, device: Device, user: User, bookedAt: nat, returnedAt: Option<nat>)
  {
    predicate IsOpen() { returnedAt.None? }
  }
}
