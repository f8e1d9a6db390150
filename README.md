# umassaction: resolving a USB mass-storage SIM to its `da` disk

`umassaction` is a small FreeBSD helper run on USB mass-storage attach and
detach events. Its one algorithm, `map_umass_device_to_peripheral`, takes the
unit number of a `umass-sim` bus (one USB mass-storage controller instance)
and finds the unit number of the SCSI direct-access peripheral (`da`) that CAM
attached under it. It does so by sending XPT_DEV_MATCH queries through the
CAMIOCOMMAND ioctl on the transport device. Each query returns a page of at
most 100 match results from the device tree, flattened parent-before-children.
While scanning, the function keeps a `bus_matched` flag and a
`periph_unit_num` value.

This project models that function and the command dispatch in `main`, and
proves what they compute.

- `Cam` (cam.dfy) holds the match results (`Bus`, `Periph`, `Other`) and the
  ioctl reply (`IoctlFailed`, or the CCB status, the CDM status and the
  results). It also holds the CAM status constants, the 100-slot buffer size,
  and the C integer conversions. The `unit_number` fields of CAM's bus and
  peripheral results are `u_int32_t`. The comparison
  `bus->unit_number == unit_num` therefore converts the `int` argument to
  unsigned. Storing a peripheral's unit into the `int` result is a
  two's-complement conversion.
- `MatcherSpec` (matcher_spec.dfy) is the pure reference definition.
  `ScanFrom` is the inner `for` loop over one page, `ScanReplies` is the outer
  `do/while` over the replies, and `MapUnit` / `Calls` give the returned value
  and the sequence of system calls.
- `Matcher` (matcher.dfy) is the C function as an imperative method. It has
  the same nested loops, the same breaks, and the locals `busMatched` and
  `periphUnitNum`. The match buffer is an `array` of 100 slots. Each reply
  overwrites its first `num_matches` slots, and only those slots are read. The
  method is proved equal to `MapUnit` and `Calls`. System calls are inputs:
  whether `open` succeeded, whether `malloc` succeeded, and the sequence of
  replies successive ioctls produce. The method returns the trace of
  `open`/`ioctl`/`close` calls it makes.
- `MatcherProperties` (matcher_properties.dfy) proves the following about the
  reference definition:
  - how the descriptor is handled;
  - where any answer other than -1 comes from;
  - that the flag is never cleared;
  - which records end a page;
  - that paging stops at the first reply that is not an accepted MORE page:
    an ioctl failure, a CCB status other than CAM_REQ_CMP, or a CDM status
    other than MORE;
  - that the first `da` result on a later accepted page, before any bus
    result, overwrites an earlier capture.
- `Commands` (commands.dfy) is `main`'s first-match lookup in the `handlers`
  table and its exit statuses.

The bus and peripheral names (`"umass-sim"`, `"da"`) are a `Names` parameter.
It defaults to those values.

A first-match search would stop at the first capture. The code breaks only
the inner loop after a capture (src/umassaction.c:129) and keeps paging while
the status is MORE (src/umassaction.c:133-134). Because the flag is never
reset, the first `da` result on a later accepted page replaces the captured
value, provided no bus result comes before it on that page. It does so even
when that result hangs off a different bus (`AcceptedPageReplacesCapture`,
`CaptureReplacedOnNextPage`, `DiskFromAnotherBusAcrossPages`). Path ids are
never consulted.

Because the unit is stored into an `int` (src/umassaction.c:128), a `da`
peripheral with unit number 0xFFFFFFFF comes back as -1, the same value as
"not found" (`AllOnesUnitLooksNotFound`).

## Model

| member | source | states |
|---|---|---|
| `Matcher.MapUmassDeviceToPeripheral` | src/umassaction.c:63-139 | The nested paging/scanning loops over a 100-slot buffer, reading only the first `num_matches` slots of each reply. They return exactly `MapUnit` and make exactly the system calls `Calls`, for every open/alloc outcome and every reply sequence that eventually stops. |
| `MatcherSpec.FirstStop` | src/umassaction.c:100-134 | The index of the reply that ends the do/while: every earlier reply is an accepted MORE page, and that reply is not. |
| `MatcherProperties.DescriptorDiscipline` | src/umassaction.c:74-136 | Open failure: the answer is -1 and the only call is `open`. Allocation failure: the answer is -1 and the calls are `open`, `close`. After a successful open, `close` happens exactly once, as the last call. Queries are issued iff open and allocation both succeeded. |
| `MatcherProperties.QueriesUntilStop` | src/umassaction.c:100-134 | The trace holds exactly one ioctl per reply up to and including the first stopping reply: its ioctl count is that reply's position plus one. |
| `MatcherProperties.ResultFollowsTargetBus` | src/umassaction.c:113-138 | The answer is -1 or the converted unit of a peripheral result named `da` that was read after a bus result `umass-sim` with the requested unit. |
| `MatcherProperties.NotFoundWithoutTargetBus` | src/umassaction.c:120-130 | With no matching bus result on the pages read, the answer is -1. |
| `MatcherProperties.NothingReadBeforeTargetBus` | src/umassaction.c:114-131 | Before the flag is set, peripheral results and other bus results change nothing: a page without the target bus leaves the state as it was. |
| `MatcherProperties.FlagStaysSetInPage` | src/umassaction.c:114-124 | Within a page, `bus_matched` is never cleared. |
| `MatcherProperties.FlagStaysSet` | src/umassaction.c:100-134 | Across pages, `bus_matched` is never cleared. |
| `MatcherProperties.LaterBusEndsPage` | src/umassaction.c:114-118 | Once the flag is set, any bus result, the target bus again included, ends the page and leaves the state unchanged, unless a `da` result comes before it. |
| `MatcherProperties.FirstPeriphAfterTargetBusIsCaptured` | src/umassaction.c:113-131 | The first `da` result after the target bus is captured when only device results or other peripherals lie between them. On a LAST page it is the final answer. |
| `MatcherProperties.BusWithoutPeriphNotFound` | src/umassaction.c:114-118 | A target bus result directly followed by another bus result on the only page gives -1. |
| `MatcherProperties.FirstPeriphReplacesCapture` | src/umassaction.c:113-131 | With the flag set, the first `da` result on a page replaces whatever was captured before, provided no bus result precedes it. Device results and other peripherals before it are skipped. |
| `MatcherProperties.AcceptedPageReplacesCapture` | src/umassaction.c:100-134 | The same for any accepted reply, LAST or MORE. After a LAST page the replaced value is the answer. After a MORE page the scan continues from the replaced value. |
| `MatcherProperties.StopReplyEndsScan` | src/umassaction.c:100-134 | Replies after the first stopping reply are never read. When that reply is an ioctl failure or has a rejected CCB/CDM status, the answer is what the earlier pages produced, not necessarily -1. |
| `MatcherProperties.OnePageTree` | src/umassaction.c:113-131 | On one LAST page `[umass-sim3, da7, umass-sim4, da8]`, unit 3 gives 7, unit 4 gives 8 and unit 5 gives -1. |
| `MatcherProperties.CaptureReplacedOnNextPage` | src/umassaction.c:125-134 | After capturing da7, the rest of the MORE page (da8) is skipped. The next page's leading da9 becomes the answer. |
| `MatcherProperties.DiskFromAnotherBusAcrossPages` | src/umassaction.c:114-134 | A target bus with no disk, followed at the end of a MORE page by another bus, still yields the next page's first `da`. |
| `MatcherProperties.IoctlFailureKeepsCapture` | src/umassaction.c:101-104 | A failing second ioctl returns the value captured on the first page. |
| `MatcherProperties.AllOnesUnitLooksNotFound` | src/umassaction.c:125-138 | A `da` with unit 0xFFFFFFFF under the target bus is stored as the `int` -1, so the answer equals the not-found value. |
| `Cam.ToUnsigned` | src/umassaction.c:121-122 | The `int` unit argument compared with a `u_int32_t` unit number is taken modulo 2^32. |
| `Cam.ToSigned` | src/umassaction.c:128 | A `u_int32_t` peripheral unit stored in the `int` result is its two's-complement value (congruent modulo 2^32). |
| `Cam.ConversionsRoundTrip` | src/umassaction.c:121-128 | The two conversions are inverse to each other. |
| `Commands.RunMain` | src/umassaction.c:187-201 | With `argc != 4`: usage. With 4 arguments and `argv[1]` naming no handler: "No such command" and usage. Otherwise the first handler whose `cmd` equals `argv[1]` runs with `(0, 0)`. |
| `Commands.ExitStatus` | src/umassaction.c:196-201 | The exit status is 1 exactly when usage was printed, and 0 when a handler ran. |

## Left out

- `probe_node` (src/umassaction.c:144-161) and volumeinfo.c: thin wrappers around libvolume_id, whose signature probing is not part of this model, and around the DIOCGMEDIASIZE ioctl.
- src/hostnames.c: host-name resolution and printing, with no local logic beyond a flag.
- `on_attach` / `on_detach` (src/umassaction.c:163-172): they print a word and call `exit(0)`. The model records which handler ran, with status 0. The `return 0` after the call is therefore unreachable.
- The commented-out probing block at the end of `main`: it is not compiled.
- The real `open`, `malloc`, `ioctl` and `close` are inputs (success flags and the replies the kernel gives). The `warn`/`warnx` diagnostics and their text are not modelled, and neither is the never-freed match buffer.
- The other fields of the XPT_DEV_MATCH request (path, target and LUN wildcards; pattern buffer) are constants the function never reads back, and are not modelled. Path ids in the results are not modelled because the code never looks at them.
- `Matcher.MapUmassDeviceToPeripheral` requires that the kernel eventually sends a reply after which the loop stops. The C loop has no bound of its own and would never end otherwise. It also requires that no reply holds more than 100 results, which the kernel guarantees for the buffer length it is given.
- Driver names are compared as whole strings. `strcmp` on NUL-terminated, fixed-size CAM name buffers agrees with that for names without embedded NUL characters, which is all CAM produces.
- No concurrency or floating point is involved.
