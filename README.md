# Rock64 GPIO shim, modelled in Dafny

This project models the Rock64 board layer of a wiringPi-style GPIO API
(`src/board_rock64.c`). The layer has three parts:

- a **pin map** from the 32 logical (wiringPi) pin numbers to the board's
  sysfs GPIO numbers, with `-1` for pins the board does not have;
- a **pin-state registry**, one record per logical pin (`exported`,
  `activeLow`, `callback`, `mode`), and the operations that drive the
  kernel's `/sys/class/gpio` files: `pinMode`, `pullUpDnControl`,
  `digitalRead`, `digitalWrite`, export, unexport and the teardown that
  unexports every pin this process exported;
- an **interrupt poller** that samples every armed pin and fires its
  callback on the edges its mode asks for.

The sysfs tree is an abstract store (`Sysfs.Store`) keyed by GPIO number:
the set of exported pins and the `direction`, `active_low` and `value`
cells. Every file or directory open in the source is a boolean oracle
parameter (`opens`, `dirOpens`, `exportOpens`, `directionOpens`; a
`seq<bool>` of 32 where a loop opens one file per pin), so each early
return on a failed open is a branch of the model.

Layout:

- `rock64_header.dfy` — module `Rock64Header`: the mode, pull and edge constants.
- `pin_map.dfy` — module `PinMap`: the table and the bounds-checked lookup `GpioNum`.
- `sysfs.dfy` — module `Sysfs`: the store.
- `pin_control.dfy` — module `PinControl`: records, the `Board` value (registry
  plus store), one pure effect function per operation, and the lemmas about them.
- `poller.dfy` — module `Poller`: one poller pass as functions (`NextLast`,
  `Fires`, `PassLast`, `FiredUpTo`) and the lemmas about them.
- `rock64.dfy` — module `Rock64`: class `Rock64Gpio` holding the registry as an
  `array<PinRecord>` updated in place and the store as a field. Every
  state-changing method except `SetupGpio` ensures that its new state is
  the effect function applied to the old state, so the lemmas of
  `PinControl` and `Poller` apply to the methods; `SetupGpio` states its
  post-state (every record reset) directly. A fired callback is the pin index appended to the
  list `PollPass` returns.

Three properties one might expect of the registry do not hold in the code,
and the model follows the code:

- "A marked record's pin is exported" fails. `pinMode` sets `exported`
  whenever the directory check fails, even when the export file then fails
  to open (`src/board_rock64.c:163-166`, `94-95`).
  `PinControl.PinModeMarksWithoutExporting` exhibits such a board; the only
  consequence is a spurious unexport at teardown.
- "A callback is set exactly when a mode is set" fails. `wiringPiISR` stores
  any mode and any callback, the null one included, with no check
  (`src/board_rock64.c:148-154`).
- "Pins exported by someone else stay unmarked" holds only when their
  directory opens. When `opendir` fails on such a pin
  (`src/board_rock64.c:77-80`), `pinMode` marks the record (163-165), and
  teardown then unexports a pin this process did not export.
  `PinControl.PinModeMarksForeignPinWhenCheckFails` exhibits this.

## Model

| member | source | states |
|---|---|---|
| `PinMap.GpioNum` | src/board_rock64.c:34-39 | any index outside [0, 32) yields -1; every result is -1 or a non-negative GPIO number |
| `PinMap.TableShape` | src/board_rock64.c:19-22 | the table has 32 entries, each -1 or non-negative |
| `PinMap.GpioNumNotInjective` | src/board_rock64.c:19-22 | logical pins 10 and 18 both map to GPIO 67, so the map is not a bijection |
| `PinControl.ReadLevel` | src/board_rock64.c:205-229 | the level read is 0 or 1; it is 0 when the pin is unmapped or the value file does not open; otherwise it is 1 iff (the raw char is '1') differs from the record's activeLow |
| `PinControl.UnmappedPinIsInert` | src/board_rock64.c:156-250 | on an unmapped pin, pinMode, pullUpDnControl and digitalWrite change nothing, digitalRead yields 0 and the export check yields false |
| `PinControl.ExportUnexportRoundTrip` | src/board_rock64.c:88-118 | a successful export makes the pin's directory exist, and unexporting it restores the store |
| `PinControl.PinModeKeepsExportedPinsUnmarked` | src/board_rock64.c:163-166 | pinMode on a pin already exported (by anyone) and whose directory opens leaves every record and the exported set as they were |
| `PinControl.PinModeMarksNewPins` | src/board_rock64.c:163-166 | pinMode on a pin whose directory check fails marks exactly that record and adds the pin to the exported set iff the export file opens |
| `PinControl.PinModeDirection` | src/board_rock64.c:168-179 | the direction cells after pinMode are the old ones with the pin's own cell set to "out" iff mode is Output and "in" iff it is not, when the direction file opens, and the old ones unchanged otherwise; polarity and value cells never change |
| `PinControl.PinModeMarksWithoutExporting` | src/board_rock64.c:163-166 | a record can be marked exported while its pin is not exported (the export file failed to open) |
| `PinControl.PinModeMarksForeignPinWhenCheckFails` | src/board_rock64.c:77-80 | a pin exported by another process whose directory fails to open gets marked by pinMode and is then unexported by teardown |
| `PinControl.PullSetsPolarity` | src/board_rock64.c:182-203 | on success the active_low cell becomes '1' iff mode is PudUp and the record's activeLow becomes mode == PudUp, nothing else changes; when the pin is unmapped or the file does not open, nothing changes |
| `PinControl.PullThenRead` | src/board_rock64.c:182-229 | after a successful pullUpDnControl, a read is the raw level inverted exactly when the mode was PudUp |
| `PinControl.WriteThenRead` | src/board_rock64.c:205-250 | reading, through any logical pin with the same GPIO number, right after a successful write yields value != 0 when that pin's record is not active-low and its negation when it is |
| `PinControl.WriteLeavesOtherPins` | src/board_rock64.c:231-250 | a write does not change what any pin with a different GPIO number reads |
| `PinControl.PullUpWriteHighReadsLow` | src/board_rock64.c:182-250 | pull-up, then writing 1, then reading back yields 0: inversion is applied on read only |
| `PinControl.IsrTouchesOnlyCallbackAndMode` | src/board_rock64.c:148-154 | wiringPiISR sets the record's callback and mode, keeps its other fields, every other record and the store |
| `PinControl.UnexportAllExactly` | src/board_rock64.c:120-127 | after teardown a GPIO number is exported iff it was before and no marked record whose unexport file opens maps to it; the other cells are unchanged |
| `PinControl.ResetRegistryTearsDownNothing` | src/board_rock64.c:120-138 | teardown right after the setup reset leaves the store unchanged |
| `PinControl.TeardownUndoesPinMode` | src/board_rock64.c:120-166 | from a reset registry, pinMode then teardown (all files opening) gives back the exported set the store started with |
| `PinControl.ResetRegistryHasTeardownInvariant` | src/board_rock64.c:133-138 | right after the setup reset, the registry's marks account for the store relative to the exported set the process started with |
| `PinControl.PinModePreservesTeardownInvariant` | src/board_rock64.c:156-180 | pinMode with every file opening keeps that invariant: each marked record names a GPIO the process added, and the exported set is the starting one plus the marked GPIOs |
| `PinControl.OtherOperationsPreserveTeardownInvariant` | src/board_rock64.c:148-250 | pullUpDnControl, digitalWrite and wiringPiISR keep the invariant |
| `PinControl.TeardownRestoresInitialExports` | src/board_rock64.c:120-127 | under the invariant, teardown with every file opening gives back the starting exported set: it unexports every pin this process exported and only those, after any sequence of the calls that keep the invariant |
| `Poller.NextLastRule` | src/board_rock64.c:51-57 | an idle pin (mode 0) keeps its last state; an armed pin's last state becomes the sample, so it changes exactly when the sample differs |
| `Poller.EdgeRule` | src/board_rock64.c:59-63 | on levels 0/1 a callback fires only on a change; rising fires exactly on 0 to 1, falling exactly on 1 to 0, both on any change, any other mode never |
| `Poller.PassKeepsLevels` | src/board_rock64.c:50-57 | a pass over 0/1 last states and 0/1 samples leaves every last state 0 or 1, so the edge rule applies to every pass from the initial zeros |
| `Poller.SamplesAreLevels` | src/board_rock64.c:205-229 | every sample the poller takes is 0 or 1 |
| `Poller.FiredMembership` | src/board_rock64.c:50-64 | a pin is in the fired list exactly when it was visited and its edge rule matched |
| `Poller.FiredIncreasing` | src/board_rock64.c:50-64 | the fired list is strictly increasing and its entries are pin indices already visited |
| `Poller.FiredAtMostOnce` | src/board_rock64.c:50-64 | each pin fires at most once per pass |
| `Poller.RepeatedPassIsQuiet` | src/board_rock64.c:50-64 | a second pass that samples the same levels changes no last state and fires nothing, so a transition fires its callback once |
| `Poller.IdleRegistryIsQuiet` | src/board_rock64.c:50-64 | with every record reset a pass keeps all last states and fires nothing |
| `Poller.UnmappedPinNeverFires` | src/board_rock64.c:43-64 | a logical pin the board does not have keeps last state 0 and never fires, whatever its mode |
| `Rock64.Rock64Gpio.constructor` | src/board_rock64.c:27-32 | the static registry starts with every record all-zero |
| `Rock64.Rock64Gpio.SetupGpio` | src/board_rock64.c:129-146 | every one of the 32 records is reset to exported=false, activeLow=false, no callback, mode 0; the status is 0 |
| `Rock64.Rock64Gpio.WiringPiIsr` | src/board_rock64.c:148-154 | the new state is the ISR effect (only callback and mode of that record); requires 0 <= pin < 32 since the source does no bounds check; the status is 0 |
| `Rock64.Rock64Gpio.IsExported` | src/board_rock64.c:69-86 | the result is IsExportedIn, the check pinMode's effect uses: true iff the GPIO number is not -1, its directory exists and opens |
| `Rock64.Rock64Gpio.ExportPin` | src/board_rock64.c:88-102 | adds the GPIO number to the exported set unless it is -1 or the export file does not open |
| `Rock64.Rock64Gpio.UnexportPin` | src/board_rock64.c:104-118 | removes the GPIO number from the exported set unless it is -1 or the unexport file does not open |
| `Rock64.Rock64Gpio.UnexportAll` | src/board_rock64.c:120-127 | unexports the GPIO numbers of exactly the marked records whose unexport file opens; the registry is unchanged |
| `Rock64.Rock64Gpio.PinMode` | src/board_rock64.c:156-180 | the new registry and store are the pinMode effect of the old ones |
| `Rock64.Rock64Gpio.PullUpDnControl` | src/board_rock64.c:182-203 | the new registry and store are the pull effect of the old ones |
| `Rock64.Rock64Gpio.DigitalRead` | src/board_rock64.c:205-229 | returns the level ReadLevel specifies and changes nothing |
| `Rock64.Rock64Gpio.DigitalWrite` | src/board_rock64.c:231-250 | the value cell becomes '1' iff value != 0, unless the pin is unmapped or the file does not open, in which case nothing changes |
| `Rock64.Rock64Gpio.PollPass` | src/board_rock64.c:50-64 | the last-state array and the fired list after one pass are exactly those of the pass specification, over what digitalRead returns for each pin |
| `Rock64.NewLastState` | src/board_rock64.c:43-47 | the poller starts from a fresh array of 32 zero levels |

## Left out

- Thread creation and detach and the `atexit` hook of `wiringPiSetupGpio`: concurrency and process lifecycle; teardown is the explicit call `UnexportAll`.
- The endless poller loop and its 1 ms sleep: timing is not modelled; `PollPass` is one iteration, and the lemmas relate consecutive passes.
- Concurrency between the poller thread and callers: a pass reads one fixed registry and store.
- Calling the handler: a callback is opaque (`Callback.Handler(id)`), and firing appends the pin index to the returned list. In the source the callback runs synchronously on the poller thread (`src/board_rock64.c:62`) and may call `pinMode`, `digitalWrite` or `wiringPiISR` before later pins of the same pass are sampled; `PollPass` assumes a registry and store that such calls do not change during the pass. The source would call through a null pointer when a pin is armed without a handler; the model records that pin like any other.
- Path strings, `snprintf`, and the decimal text written to the export files: the store is keyed by GPIO number directly.
- Write and close failures after a successful open (`fputs`, `fputc`, `fprintf`, `fclose` results are ignored by the source): a successful open is taken to mean the write lands.
- The kernel's own behaviour behind the files (export creating `direction`/`value`, the kernel applying `active_low` to `value`): the store is a plain cell store, so polarity is applied only where the shim applies it, on read.
- The `ROCK64_EMMC` build's table: only the SD-card table is modelled.
