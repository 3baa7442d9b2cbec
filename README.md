# libmacouflage in Dafny

A model of the address-manipulation core of libmacouflage, a Go library that
reads and rewrites the hardware (MAC) address of a Linux network interface.
The model covers:

- the randomiser `RandomizeMac`, which overwrites an address buffer in place
  with random octets and then applies the universal/local (U/L) bit step to the
  first octet (the U/L bit 0x02 and the individual/group bit 0x01 of the first
  octet of an IEEE 802 48-bit address, IEEE Std 802-2014 clause 8);
- the accessors `GetCurrentMac`, `GetPermanentMac`, `IsIfUp` and `MacChanged`,
  the privilege test `RunningAsRoot`, and the comparison `CompareMacs`;
- the mutators `SetMac` and `RevertMac` with their ordered chain of checks;
- the enumerations `GetInterfaces` (non-loopback interfaces, in order) and
  `GetAllCurrentMacs` (name to address text);
- the canonical address text (Go's `HardwareAddr.String`), the 48-bit part of
  the parser `net.ParseMAC`, and the 16-byte name field of the kernel requests.

Files and modules:

- `wrappers.dfy`: `Wrappers` (Option, Result) and `MacErrors`, one error
  constructor per place the library produces an error.
- `hwaddr.dfy`: `HwAddr`, octets as `bv8`, the text form, the parser,
  `CompareMacs` and the name field.
- `randomize.dfy`: `Randomize`, the in-place `RandomizeMac` method on an
  `array<bv8>` and the function `Randomized` that specifies it.
- `interfaces.dfy`: `Interfaces`, the interface table (name, `net.Flags` bits,
  current address, and the driver's answer to the permanent-address query),
  name lookup, and the filter and map behind the two enumerations.
- `macouflage.dfy`: `Macouflage`, the accessors as functions of the interface
  table, the specifications of `SetMac` and `RevertMac`, and the class `Host`
  (process identity and interface table) whose methods `SetMac`, `RevertMac`,
  `GetInterfaces` and `GetAllCurrentMacs` change or walk that state.

Environment inputs are parameters. The random bytes are a function `draw`:
`draw(i)` is the byte `crypto/rand` yields in the loop iteration for index `i`,
and every property holds for every `draw`. The kernel's answer to the
`SIOCSIFHWADDR` request is the integer `sysErrno` (0 means accepted). The
driver's answer to `ETHTOOL_GPERMADDR` is stored per interface. For a name the
kernel does not know, that query fails with `ENODEV` (19), as Linux answers.

Behaviours of the code that its names do not suggest:

- With `bia` true the code does `macbytes[0] &= 2`. This keeps the U/L bit as
  drawn and clears every other bit, so the first octet is 0x00 or 0x02. It does
  not force the U/L bit to 0.
- With start index 3 the first octet is still rewritten by the U/L step. Only
  octets 1 and 2 are kept.
- Both ioctl failures surface as the same `syscall.Errno` value (`Errno(code)`
  here). They are not two distinct error kinds.
- `RevertMac` first looks the interface up by name and only then queries the
  permanent address.

## Model

| member | source | states |
|---|---|---|
| `Randomize.Randomized` | libmacouflage.go:175-201 | A length other than 6 fails with InvalidSize before the start index is looked at. Any start other than 0 or 3 fails with InvalidStart. Start 3 keeps octets 1-2 and puts the draws in 3-5. Start 0 puts the draws in 1-5. Without bia, octet 0 has the U/L bit set, and with start 0 it lies in 0x02..0x0F. With bia, octet 0 is the pre-step octet AND 0x02: it is 0x00 or 0x02 and never multicast. |
| `Randomize.AdminStep` | libmacouflage.go:194-198 | With bia the U/L bit is kept and all other bits are cleared. Without bia the U/L bit is set and all other bits are kept. |
| `Randomize.RandomizeMac` | libmacouflage.go:175-201 | On failure, returns the error and leaves the buffer unchanged. On success, returns the same array, rewritten in place to `Randomized` of its old contents. |
| `HwAddr.Format` | libmacouflage.go:132 | Go's `HardwareAddr.String`: the empty text for no octets, otherwise 3n-1 characters for n octets. |
| `HwAddr.FormatText` | libmacouflage.go:171 | The canonical text holds two lower-case hex digits for each octet (high nibble first), octets in order, with ':' between consecutive octets. |
| `HwAddr.FormatInjective` | libmacouflage.go:131-134 | Two addresses with the same canonical text are the same octet sequence. |
| `HwAddr.CompareMacs` | libmacouflage.go:131-134 | True exactly when the two addresses are equal, so it is reflexive and symmetric. |
| `HwAddr.ParseMac` | libmacouflage.go:115-118 | Only accepts a 17-character text whose first separator is ':' or '-', and yields exactly six octets. |
| `HwAddr.ParseFormat` | libmacouflage.go:167-171 | Parsing the canonical text of a 48-bit address gives back that address. |
| `HwAddr.ParseMacText` | libmacouflage.go:115 | An accepted text is the canonical text of the address read from it, once its letters are lower-cased and its '-' separators turned into ':'. |
| `HwAddr.NameField` | libmacouflage.go:69 | The 16-byte name field holds the name's first 16 bytes, then zeros (Go `copy` into a zeroed array). |
| `HwAddr.NameFieldRoundTrip` | libmacouflage.go:119-120 | The field's C-string prefix (the bytes before its first zero byte) gives back a NUL-free name shorter than 16 bytes. A longer name comes back cut to 16 bytes. |
| `Interfaces.Find` | libmacouflage.go:152-155 | Name lookup gives the first position holding that name. It fails exactly when the name is empty (net.InterfaceByName refuses it) or no interface has that name. |
| `Interfaces.KernelNameField` | libmacouflage.go:119-120 | For a table of Linux interface names (1 to 15 bytes, none of them NUL, ':', '/' or white space, no name twice), the request's name field reads back as the interface's own name. The name the kernel looks the request up under (the field's first 15 bytes up to the first zero, cut before the first ':') is that same name, and it finds that interface. |
| `Interfaces.NonLoopbackMembers` | libmacouflage.go:54-63 | The filtered list holds exactly the interfaces whose loopback flag is clear. |
| `Interfaces.NonLoopbackAppend` | libmacouflage.go:54-63 | Filtering a concatenation gives the concatenation of the filtered parts, so table order is kept. |
| `Interfaces.NonLoopbackDistinct` | libmacouflage.go:54-63 | Filtering keeps interface names distinct. |
| `Interfaces.MacMapKeys` | libmacouflage.go:45-52 | The map's keys are exactly the interfaces' names. |
| `Interfaces.MacMapSize` | libmacouflage.go:45-52 | With distinct names the map has exactly one entry per interface. |
| `Interfaces.MacMapValues` | libmacouflage.go:48-50 | With distinct names, each interface's entry holds that interface's canonical address text. |
| `Macouflage.RunningAsRoot` | libmacouflage.go:203-212 | True exactly for the identity with uid "0", gid "0" and user name "root". |
| `Macouflage.GetCurrentMac` | libmacouflage.go:36-43 | Fails with NoSuchInterface exactly when the name is empty or unknown. Otherwise returns that interface's current address. |
| `Macouflage.GetPermanentMac` | libmacouflage.go:65-81 | An unknown name fails with errno ENODEV. A driver that rejects the query fails with its errno. Otherwise returns the six-octet burned-in address. |
| `Macouflage.IsIfUp` | libmacouflage.go:151-160 | Fails with NoSuchInterface exactly when the name is empty or unknown. Otherwise true exactly when the FlagUp bit is set. |
| `Macouflage.MacChanged` | libmacouflage.go:136-149 | An unknown name fails first. Then a failing permanent-address query fails with its errno. Otherwise true exactly when the current address differs from the permanent one. |
| `Macouflage.Assign` | libmacouflage.go:119-128 | Setting the address of interface i changes only that interface's current address. Names, flags and permanent addresses all stay. |
| `Macouflage.SetMacOutcome` | libmacouflage.go:95-129 | Checks run in this order: root identity, interface existence, interface down, address parse, kernel errno. The first failing check is the error, and on any error the table is unchanged. It succeeds exactly when all checks pass, and then only the named interface's address is set to the parsed address. |
| `Macouflage.SetMacRoundTrip` | libmacouflage.go:95-129 | After a successful SetMac the named interface reports the parsed address. Every other name reports what it did before. No permanent address changes. |
| `Macouflage.RevertMacOutcome` | libmacouflage.go:162-173 | An unknown name fails with NoSuchInterface. A failing permanent-address query fails with its errno. In both cases nothing changes. Otherwise it is exactly SetMac with the permanent address's canonical text. |
| `Macouflage.RevertMacSucceeds` | libmacouflage.go:162-173 | RevertMac succeeds exactly when the caller is root, the interface exists, is down and has a permanent address, and the kernel accepts. |
| `Macouflage.RevertClearsChanged` | libmacouflage_test.go:334-344 | After a successful RevertMac the current address equals the permanent address and MacChanged answers false. |
| `Macouflage.Host.SetMac` | libmacouflage.go:95-129 | Runs the check chain step by step and keeps every name a distinct kernel name. The error and the new table are those of `SetMacOutcome`. On success the interface reports the parsed address. |
| `Macouflage.Host.RevertMac` | libmacouflage.go:162-173 | Calls SetMac with the permanent address's text and keeps every name a distinct kernel name. The error and the new table are those of `RevertMacOutcome`. On success MacChanged is false. |
| `Macouflage.Host.GetInterfaces` | libmacouflage.go:54-63 | The append loop returns the order-preserving non-loopback filter of the table: exactly the interfaces whose loopback flag is clear. |
| `Macouflage.Host.GetAllCurrentMacs` | libmacouflage.go:45-52 | The loop fills the name-to-address-text map over GetInterfaces. Since kernel names are distinct, it has one entry per returned interface, holding that interface's canonical address text. |

## Left out

- The system-call layer: socket creation and closing, the raw `SYS_IOCTL`
  calls, `unsafe.Pointer` and `C.GoBytes`. "Read the permanent address" and "set
  the address" are a read and a write of the interface table. The kernel's
  answer to the set request is the parameter `sysErrno`.
- Binary layouts of `ifreq`, `EthtoolPermAddr` and `NetInfo` beyond the name
  field, including the `AF_UNIX` family tag (libmacouflage.go:19-34, 121). These
  are kernel ABI.
- Errors of `syscall.Socket`, which the code overwrites or ignores
  (libmacouflage.go:66, 113-115).
- Kernel name shortening in `GetPermanentMac` and `SetMac`: names of 16 or
  more bytes (the kernel keeps 15) and names containing ':' are looked up by
  the kernel under a shortened name; the model looks up the full name. Table
  names are Linux interface names, which contain no ':' and have at most 15
  bytes, so for them the kernel's lookup name is the name itself
  (`KernelNameField`). The gap only concerns names that are not in the table.
  `SetMac` rejects those at its own lookup first; for `GetPermanentMac` the
  kernel may answer for the shortened name (`RequestName`) where the model
  answers ENODEV.
- Failure of `net.Interfaces` in `GetInterfaces` and `GetAllCurrentMacs`: the
  table can always be enumerated in the model.
- Failure of `user.Current` in `RunningAsRoot` (libmacouflage.go:204-207). The
  code prints the error and then dereferences a nil user.
- Go's `net.ParseMAC` also accepts 8- and 20-octet addresses and the dotted
  `xxxx.xxxx.xxxx` form. `ParseMac` rejects them, so the `copy` that would cut
  such an address to 6 octets (libmacouflage.go:122) is not modelled.
- `crypto/rand`: its bytes are the parameter `draw`. Randomness quality is not
  modelled, and neither is `rand.Read` failing, which the code ignores.
- `GetAllPermanentMacs` (libmacouflage.go:83-93): it writes to a nil map and
  only prints its errors.
- The OUI vendor database and the `SpoofMac*` and `Find*` functions used by the
  tests are not part of this model.
- Interface attributes other than name, flags and address (index, MTU).
- The kinds of `net.InterfaceByName` failure: the refused empty name and the
  unknown name are both `NoSuchInterface` here; only their messages differ.
- Concurrency, including the gap between SetMac's checks and the request, and
  the error message texts.
