/** Failure-carrying result types used by every operation of the model. */
module Wrappers {

  datatype Option<+T> = None | Some(value: T)

  datatype Result<+R, +E> = Success(value: R) | Failure(error: E)
}

/** The distinct failure points of the library. Go returns untyped `error`
    values; the model keeps one constructor per place an error is produced
    and leaves the message text out. */
module MacErrors {

  datatype MacError =
    | InvalidSize(size: nat)    // RandomizeMac: the buffer is not 6 bytes long
    | InvalidStart(start: int)  // RandomizeMac: start index other than 0 or 3
    | NotRoot                   // SetMac: caller is not the root identity
    | InterfaceStillUp          // SetMac: the interface is administratively up
    | NoSuchInterface           // net.InterfaceByName found no interface of that name
    | InvalidAddress            // net.ParseMAC rejected the address text
    | Errno(code: ErrnoCode)    // an ioctl answered with a non-zero errno

  /** A failing system call's errno: never zero. */
  type ErrnoCode = e: int | e != 0 witness 1

  /** errno the Linux ethtool ioctl answers for an unknown interface name. */
  const ENODEV: int := 19
}
