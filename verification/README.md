# LabJack U3 session wrapper, modelled in Dafny

This project models the device-session class `MyU3` of labjackUI, a desktop
control panel for the LabJack U3 USB data-acquisition device. `MyU3` is a thin
wrapper around the vendor's driver class `u3.U3`. It holds two pieces of
logic of its own:

* `int_to_bitarray`: it turns an unsigned integer into a fixed-width list of
  booleans, most significant bit first (module `BitArray`, `bitarray.dfy`);
* the class-wide list `instances`. It holds a weak reference to each `MyU3`
  whose constructor got past the device check, until `cleanup_instances`
  drops those whose object has been reclaimed. `open` consults the list,
  through `any_open`, so that at most one object in the process holds the
  device. Only the constructor and `cleanup_instances` change the list;
  `any_open` and `close_all` read it. `open` and `close` change only their
  own session's handle (module `Registry`, `registry.dfy`).

Module `Lifecycle` (`lifecycle.dfy`) runs arbitrary sequences of those calls,
in two variants: with `any_open` as written, which raises on a dead weak
reference, and with the corrected `any_open`, which skips it. It proves for
both that, starting from the empty list, no two registered sessions are ever
open at once. Module `LabjackOld` (`labjack_old.dfy`) models the older
copy in archive/labjack_old.py. Its `open`, `close`, `any_open`,
`cleanup_instances` and `close_all` (archive/labjack_old.py:44-62 and 79-90)
are statement for statement those of labjack.py, so the `Registry` members
model both copies. Only its constructor differs: it never sets `isHV`.
`results.dfy` holds the `Option`/`Result` types.

Driver calls are inputs to the model:

* `deviceCount(3)` is an integer argument of the constructor.
* The outcome of the driver's `U3.open` is a `DriverOpen` argument. It either
  claims the device or raises `NullHandleException`.
* `DeviceName` from `configU3` is a string argument.
* `is_open()` asks the driver whether the object's handle is valid. The model
  keeps that answer as the session's `open` flag.

A weak reference whose object has been reclaimed is the entry `Dead`. The
event `Reclaim` turns a live entry dead.

Two facts about the code shape the model:

* `int_to_bitarray` yields the most significant bit first (labjack.py:114-115).
* `open` does not raise when another instance is open or the driver refuses.
  It prints an alert and returns, leaving the session closed
  (labjack.py:57-62). The model returns the alert.

## Model

| member | source | states |
|---|---|---|
| BitArray.IntToBitArrayAsWritten | labjack.py:109-115 | raises AssertionError exactly when `0 <= uint < 2**bits - 1` fails; otherwise returns exactly `bits` booleans, element k being bit `bits-1-k` of `uint`, whose most-significant-first value is `uint` |
| BitArray.IntToBitArray | labjack.py:109-115 | the same conversion with the guard corrected to `bits >= 1 && 0 <= uint < 2**bits`: it succeeds exactly then, with the same length, bit order and value |
| BitArray.FormatIsBits | labjack.py:114-115 | the zero-padded binary numeral of `n`, read digit by digit as booleans, is the list of the `w` low bits of `n`, most significant first, for a positive width `w` and every `n < 2^w` |
| BitArray.BitsIndex | labjack.py:114-115 | element k of the `w`-bit list of `n` is bit `w-1-k` of `n` |
| BitArray.MsbValueBits | labjack.py:114-115 | summing `b[k]*2^(w-1-k)` over the `w`-bit list of `n` gives `n mod 2^w` |
| BitArray.BitsOfMsbValue | labjack.py:114-115 | re-encoding the value of any bit list at its own width returns that list |
| BitArray.RoundTrip | labjack.py:109-115 | every non-empty bit list is what the corrected conversion returns for its own value and width |
| BitArray.RoundTripAsWritten | labjack.py:112-115 | the conversion as written returns a list for its own value and width if and only if the list is not all ones |
| BitArray.MsbValueAllOnes | labjack.py:113 | a bit list is all ones if and only if its value is `2^w - 1`, the one mask the source's guard rejects |
| BitArray.AllOnesRejected | labjack.py:113 | for 255 at width 8 the source raises AssertionError and the corrected conversion returns eight trues |
| Registry.AnyOpen | labjack.py:94-96 | true if and only if some live entry of the list is open |
| Registry.AnyOpenAsWritten | labjack.py:94-96 | raises AttributeError if and only if the list holds a dead reference; otherwise answers whether some entry is open |
| Registry.Cleanup | labjack.py:98-100 | leaves no dead reference; an entry is kept if and only if it is live; a list without dead references is returned unchanged |
| Registry.CleanupAppend | labjack.py:98-100 | cleanup keeps the order of the list: cleaning a concatenation is cleaning each part, a dead entry is dropped and a live one kept |
| Registry.CleanupValid | labjack.py:98-100 | dropping dead references keeps session ids distinct and keeps at most one session open |
| Registry.Open | labjack.py:52-62 | already open: nothing changes, alert "already open"; another session open: nothing changes, alert "another open instance"; driver raises NullHandleException: nothing changes, exception swallowed with an alert; otherwise only this session changes, becoming open; the session ends open if and only if it was open or nothing was open and the driver claimed the device; at most one open is preserved |
| Registry.OpenAsWritten | labjack.py:52-62 | raises, and then AttributeError, if and only if the session is closed and the list holds a dead reference; otherwise it behaves as `Open` |
| Registry.Close | labjack.py:71-76 | afterwards the session is closed; a closed session leaves the list unchanged; only this session's open flag can change; no session becomes open |
| Registry.CloseEach | labjack.py:81 | closing each entry in order from position k leaves every entry from k on closed, keeps every session otherwise identical and opens nothing |
| Registry.CloseAll | labjack.py:78-81 | afterwards no dead reference remains and no session is open; the remaining entries are the live entries, each closed and otherwise unchanged; exactly the same sessions stay registered; at most one open is preserved |
| Registry.Collect | labjack.py:43 | a reclaimed object's weak reference goes dead, so the object is no longer registered, and every other entry is unchanged |
| Registry.Register | labjack.py:43 | appends one live, closed session under an id no live session has, leaves earlier entries unchanged, and changes neither whether some session is open nor whether a dead reference is present |
| Registry.RegisterAndOpen | labjack.py:42-44 | with the corrected `open`: appends one new closed session under an unused id, leaves earlier entries unchanged, and the new session ends open if and only if nothing was open and the driver claimed the device |
| Registry.RegisterAndOpenAsWritten | labjack.py:42-44 | with `open` as written: raises if and only if the list holds a dead reference, and then AttributeError with the new closed session already appended; otherwise the same as the corrected version |
| Registry.ReadProperties | labjack.py:46-50 | only an opened session gets `isHV`, true if and only if `DeviceName` ends with "HV"; nothing else in the list changes |
| Registry.Construct | labjack.py:39-92 | the constructor with the corrected `open`: raises DeviceNotPresentError, registering nothing, if and only if `deviceCount(3) <= 0`; otherwise appends exactly one session, open if and only if nothing was open and the driver claimed the device, with `isHV` set only when open and then true if and only if `DeviceName` ends with "HV" |
| Registry.ConstructAsWritten | labjack.py:39-92 | the constructor as written: with no device counted, DeviceNotPresentError and nothing registered; with a device, it raises if and only if the list holds a dead reference, and then AttributeError with the new closed session appended; when it returns, it agrees with `Construct`; validity is kept even when it raises |
| Lifecycle.StepValid | labjack.py:39-100 | every single construction, `open`, `close`, `close_all` or reclaimed object keeps ids distinct and at most one session open, as written and corrected |
| Lifecycle.RunValid | labjack.py:39-100 | any sequence of those events keeps ids distinct and at most one session open, as written and corrected |
| Lifecycle.AtMostOneSessionOpen | labjack.py:52-60 | from the empty class-wide list, after any sequence of events, as written or corrected, two open registered sessions are the same session |
| Lifecycle.CloseIdempotent | labjack.py:71-76 | closing twice is the same as closing once |
| Lifecycle.SecondOpenRefusedUntilFirstCloses | labjack.py:52-76 | while one session is open, opening another is refused and changes nothing; after the first is closed, the other opens when the driver claims the device |
| Lifecycle.OpenAfterCloseAll | labjack.py:78-81 | after `close_all`, a registered session stays registered and opens when the driver claims the device |
| Lifecycle.OpenAsWrittenAgrees | labjack.py:94-100 | with no dead reference in the list, `open` as written and the corrected `open` agree |
| Lifecycle.DeadReferenceBreaksOpen | labjack.py:94-96 | with a dead reference ahead of a closed session, `open` as written raises AttributeError while the corrected `open` opens it |
| Lifecycle.RepeatedSelectionRaises | labjack.py:39-44 | constructing twice, then releasing the first object, makes the next construction as written raise AttributeError, while the corrected one opens its session |
| LabjackOld.Construct | archive/labjack_old.py:29-77 | with the corrected `open`: raises DeviceNotPresentError if and only if no device is counted, before registering; otherwise appends exactly one session, which has no `isHV` and is open if and only if nothing was open and the driver claimed the device |
| LabjackOld.ConstructAsWritten | archive/labjack_old.py:29-77 | the old constructor as written: with no device counted, DeviceNotPresentError and nothing registered; with a device, it raises if and only if the list holds a dead reference, and then AttributeError with the new closed session appended; when it returns, it agrees with the corrected old constructor |
| LabjackOld.SameAsCurrent | archive/labjack_old.py:29-38 | the old and current constructors fail alike and register and open the same session; they differ only in `isHV` |

## Left out

- The vendor driver internals are not modelled. This covers `u3.U3.__init__`, `U3.open`, `U3.close`, `isHandleValid`, `getCalibrationData`, `configU3` and `getFeedback`. Their answers are inputs.
- Driver exceptions other than `NullHandleException` are not modelled. They come from `U3.open`, `U3.close`, `getCalibrationData` and `configU3`, and they propagate.
- A handle that the driver invalidates on its own, such as an unplugged device, is not modelled. The `open` flag changes only through `open` and `close`.
- The timing of garbage collection is not modelled. `Reclaim` may happen at any moment. Whether the driver releases the handle of a reclaimed open object is not modelled either; a later `open` that the driver refuses covers that case.
- When a constructor as written raises AttributeError, the new object stays in the list as a live, closed entry. When it is reclaimed is left to the `Reclaim` event.
- `alert`, `verbose`, `print` and `deletion_notifier` produce output only. The model returns which alert `open` would print.
- `_feedback_command` is a single driver call and is left out. `get_io_types` has an empty body. The per-channel configuration, the channel list and the polling loop have no implementation in these files.
- The `isinstance` checks in `int_to_bitarray` are not modelled. The model's arguments are integers, so a Python `bool` passing as an `int` does not arise. The default width of 8 is an explicit argument.
- `Lifecycle.Step`: a call of `open` naming no live session leaves the list unchanged. A Python method needs an existing object, so this call cannot happen.
- The GUI modules (LabjackIO.py, ConnectPanel.py, qswitch.py, qled.py, main.py, test.py) and the archive USB scripts are not part of this model.

## Findings

| source | as written | input that shows it | evidently intended | confidence | as-written member | corrected member |
|---|---|---|---|---|---|---|
| labjack.py:113 | the guard admits `0 <= uint < 2**bits - 1`, rejecting the all-ones mask | `int_to_bitarray(255, 8)` raises AssertionError, although 255 is a valid 8-bit mask | `0 <= uint < 2**bits` for a positive width | not executed; high | BitArray.IntToBitArrayAsWritten, BitArray.AllOnesRejected | BitArray.IntToBitArray |
| labjack.py:94-96 | `any_open` calls `is_open()` on what every weak reference returns, including `None` for a reclaimed object; dead references are removed only by `close_all` | a list holding a dead reference ahead of a closed live session: `open` of that session raises AttributeError. ConnectPanel.py:84 builds a new instance on each device selection and only then rebinds its attribute, releasing the previous object. The constructor of the next selection then raises from its `open`, unless `close_all` ran in between (ConnectPanel.py:60, 68). The refused second instance has no `properties`, so ConnectPanel.py:88 first raises in that selection's handler; the third selection is reached when that error does not end the application | dead references are skipped | not executed; high | Registry.OpenAsWritten, Registry.ConstructAsWritten, Lifecycle.RepeatedSelectionRaises | Registry.Open |
