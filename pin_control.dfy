/**
  The pin-state registry and the file-backed pin operations of the Rock64
  shim, as pure functions from the state before a call to the state after
  it. A Board value is the registry (one record per logical pin) together
  with the sysfs store. Every file open the source performs is an oracle
  parameter: true when the open succeeds.
 */
module PinControl {
  import opened Rock64Header
  import opened PinMap
  import opened Sysfs

  /** An interrupt handler, opaque: only its identity is kept. */
  datatype Callback = NoCallback | Handler(id: nat)

  /** One entry of the registry. `exported` means this process exported the pin. */
  datatype PinRecord = PinRecord(exported: bool, activeLow: bool, callback: Callback, mode: int)

  /** The record every entry is reset to by setup. */
  const DefaultRecord: PinRecord := PinRecord(false, false, NoCallback, 0)

  datatype Board = Board(gpio: seq<PinRecord>, fs: Store)

  predicate WellFormed(b: Board)
  {
    |b.gpio| == GpioPins
  }

  /** Whether the gpio{P} directory of a GPIO number can be opened. */
  predicate IsExportedIn(fs: Store, phys: int, dirOpens: bool)
  {
    phys != Unavailable && phys in fs.exported && dirOpens
  }

  /** Writing a GPIO number to the export file. */
  function ExportStore(fs: Store, phys: int, opens: bool): Store
  {
    if phys == Unavailable || !opens then fs
    else fs.(exported := fs.exported + {phys})
  }

  /** Writing a GPIO number to the unexport file. */
  function UnexportStore(fs: Store, phys: int, opens: bool): Store
  {
    if phys == Unavailable || !opens then fs
    else fs.(exported := fs.exported - {phys})
  }

  /** The text pinMode writes to the direction file. */
  function DirectionText(mode: int): string
  {
    if mode == Output then "out" else "in"
  }

  /**
    pinMode: export the pin (and mark its record) unless its directory is
    already there, then write its direction.
   */
  function PinModeEffect(b: Board, pin: int, mode: int, dirOpens: bool, exportOpens: bool, directionOpens: bool): Board
    requires WellFormed(b)
  {
    var phys := GpioNum(pin);
    if phys == Unavailable then b
    else
      var marked :=
        if IsExportedIn(b.fs, phys, dirOpens) then b
        else Board(b.gpio[pin := b.gpio[pin].(exported := true)], ExportStore(b.fs, phys, exportOpens));
      if !directionOpens then marked
      else marked.(fs := marked.fs.(direction := marked.fs.direction[phys := DirectionText(mode)]))
  }

  /** pullUpDnControl: the active_low cell and the record's flag both follow `mode == PudUp`. */
  function PullEffect(b: Board, pin: int, mode: int, opens: bool): Board
    requires WellFormed(b)
  {
    var phys := GpioNum(pin);
    if phys == Unavailable || !opens then b
    else
      Board(b.gpio[pin := b.gpio[pin].(activeLow := mode == PudUp)],
            b.fs.(activeLow := b.fs.activeLow[phys := if mode == PudUp then '1' else '0']))
  }

  /** digitalRead: the raw level, inverted when the record is active-low; 0 on any failure. */
  function ReadLevel(b: Board, pin: int, opens: bool): (level: int)
    requires WellFormed(b)
    ensures level == 0 || level == 1
    ensures GpioNum(pin) == Unavailable || !opens ==> level == 0
    ensures GpioNum(pin) != Unavailable && opens ==>
              (level == 1 <==> RawHigh(b.fs, GpioNum(pin)) != b.gpio[pin].activeLow)
  {
    var phys := GpioNum(pin);
    if phys == Unavailable || !opens then 0
    else
      var state := if RawHigh(b.fs, phys) then 1 else 0;
      if b.gpio[pin].activeLow then 1 - state else state
  }

  /** digitalWrite: '1' for any non-zero value, with no polarity inversion. */
  function WriteEffect(fs: Store, pin: int, value: int, opens: bool): Store
  {
    var phys := GpioNum(pin);
    if phys == Unavailable || !opens then fs
    else fs.(value := fs.value[phys := if value != 0 then '1' else '0'])
  }

  /** wiringPiISR: store the handler and the edge mode; nothing is checked. */
  function IsrEffect(b: Board, pin: int, mode: int, callback: Callback): Board
    requires WellFormed(b) && 0 <= pin < GpioPins
  {
    b.(gpio := b.gpio[pin := b.gpio[pin].(callback := callback, mode := mode)])
  }

  /**
    The GPIO numbers the teardown loop unexports among the first n records:
    those of marked records whose unexport file opens.
   */
  function TornDown(recs: seq<PinRecord>, opens: seq<bool>, n: nat): set<int>
    requires n <= |recs| && n <= |opens|
  {
    set i | 0 <= i < n && recs[i].exported && opens[i] && GpioNum(i) != Unavailable :: GpioNum(i)
  }

  /** rock64GpioUnexportAll over a whole registry. */
  function UnexportAllStore(b: Board, opens: seq<bool>): Store
    requires WellFormed(b) && |opens| == GpioPins
  {
    b.fs.(exported := b.fs.exported - TornDown(b.gpio, opens, GpioPins))
  }

  // ---------------------------------------------------------------------
  // Properties
  // ---------------------------------------------------------------------

  /** Every operation on a logical pin the board does not have is a no-op or reads 0. */
  lemma UnmappedPinIsInert(b: Board, pin: int, mode: int, value: int, o1: bool, o2: bool, o3: bool)
    requires WellFormed(b) && GpioNum(pin) == Unavailable
    ensures PinModeEffect(b, pin, mode, o1, o2, o3) == b
    ensures PullEffect(b, pin, mode, o1) == b
    ensures WriteEffect(b.fs, pin, value, o1) == b.fs
    ensures ReadLevel(b, pin, o1) == 0
    ensures !IsExportedIn(b.fs, GpioNum(pin), o1)
  {
  }

  /** A successful export makes the directory exist; unexport removes it again. */
  lemma ExportUnexportRoundTrip(fs: Store, phys: int)
    requires phys != Unavailable && phys !in fs.exported
    ensures IsExportedIn(ExportStore(fs, phys, true), phys, true)
    ensures UnexportStore(ExportStore(fs, phys, true), phys, true) == fs
  {
  }

  /** pinMode leaves a pin alone that is already exported, by this process or another. */
  lemma PinModeKeepsExportedPinsUnmarked(b: Board, pin: int, mode: int, exportOpens: bool, directionOpens: bool)
    requires WellFormed(b) && GpioNum(pin) != Unavailable && GpioNum(pin) in b.fs.exported
    ensures var after := PinModeEffect(b, pin, mode, true, exportOpens, directionOpens);
            after.gpio == b.gpio && after.fs.exported == b.fs.exported
  {
  }

  /** pinMode on a pin whose directory cannot be opened marks it and asks to export it. */
  lemma PinModeMarksNewPins(b: Board, pin: int, mode: int, dirOpens: bool, exportOpens: bool, directionOpens: bool)
    requires WellFormed(b) && GpioNum(pin) != Unavailable && !IsExportedIn(b.fs, GpioNum(pin), dirOpens)
    ensures var after := PinModeEffect(b, pin, mode, dirOpens, exportOpens, directionOpens);
            && |after.gpio| == GpioPins
            && after.gpio[pin] == b.gpio[pin].(exported := true)
            && (forall q :: 0 <= q < GpioPins && q != pin ==> after.gpio[q] == b.gpio[q])
            && after.fs.exported == (if exportOpens then b.fs.exported + {GpioNum(pin)} else b.fs.exported)
  {
  }

  /**
    pinMode writes "out" exactly for Output and "in" for every other mode
    into the pin's own direction cell when that file opens; no other
    direction, polarity or value cell changes.
   */
  lemma PinModeDirection(b: Board, pin: int, mode: int, dirOpens: bool, exportOpens: bool, directionOpens: bool)
    requires WellFormed(b) && GpioNum(pin) != Unavailable
    ensures var after := PinModeEffect(b, pin, mode, dirOpens, exportOpens, directionOpens);
            && after.fs.direction ==
                 (if directionOpens then b.fs.direction[GpioNum(pin) := DirectionText(mode)] else b.fs.direction)
            && after.fs.activeLow == b.fs.activeLow && after.fs.value == b.fs.value
    ensures DirectionText(mode) == "out" <==> mode == Output
    ensures DirectionText(mode) == "in" <==> mode != Output
  {
  }

  /**
    The record is marked even when the export file fails to open, so a
    marked record does not imply that the pin's directory exists.
   */
  lemma PinModeMarksWithoutExporting()
    ensures var b := Board(seq(GpioPins, _ => DefaultRecord), Store({}, map[], map[], map[]));
            var after := PinModeEffect(b, 2, Output, true, false, true);
            after.gpio[2].exported && GpioNum(2) !in after.fs.exported
  {
  }

  /**
    When the directory of a pin another process exported fails to open,
    pinMode marks the record, and teardown then unexports that pin.
   */
  lemma PinModeMarksForeignPinWhenCheckFails()
    ensures var b := Board(seq(GpioPins, _ => DefaultRecord), Store({89}, map[], map[], map[]));
            var after := PinModeEffect(b, 2, Input, false, true, true);
            && after.gpio[2].exported
            && 89 !in UnexportAllStore(after, seq(GpioPins, _ => true)).exported
  {
    var b := Board(seq(GpioPins, _ => DefaultRecord), Store({89}, map[], map[], map[]));
    var after := PinModeEffect(b, 2, Input, false, true, true);
    assert 89 in TornDown(after.gpio, seq(GpioPins, _ => true), GpioPins) by {
      assert after.gpio[2].exported && GpioNum(2) == 89;
    }
  }

  /** pullUpDnControl sets both the cell and the flag to `mode == PudUp`, or changes nothing. */
  lemma PullSetsPolarity(b: Board, pin: int, mode: int, opens: bool)
    requires WellFormed(b)
    ensures var after := PullEffect(b, pin, mode, opens);
            if GpioNum(pin) == Unavailable || !opens then after == b
            else
              && |after.gpio| == GpioPins
              && after.gpio[pin] == b.gpio[pin].(activeLow := mode == PudUp)
              && (forall q :: 0 <= q < GpioPins && q != pin ==> after.gpio[q] == b.gpio[q])
              && after.fs.activeLow == b.fs.activeLow[GpioNum(pin) := if mode == PudUp then '1' else '0']
              && after.fs.exported == b.fs.exported && after.fs.direction == b.fs.direction
              && after.fs.value == b.fs.value
  {
  }

  /** After a successful pullUpDnControl, reads are inverted exactly when the mode was PudUp. */
  lemma PullThenRead(b: Board, pin: int, mode: int)
    requires WellFormed(b) && GpioNum(pin) != Unavailable
    ensures var after := PullEffect(b, pin, mode, true);
            WellFormed(after) &&
            (ReadLevel(after, pin, true) == 1 <==> RawHigh(b.fs, GpioNum(pin)) != (mode == PudUp))
  {
  }

  /**
    Write-then-read through any logical pin that shares the written pin's
    GPIO number: the read yields `value != 0`, inverted when that logical
    pin's record is active-low (writes are never inverted).
   */
  lemma WriteThenRead(b: Board, pin: int, q: int, value: int)
    requires WellFormed(b) && GpioNum(pin) != Unavailable && GpioNum(q) == GpioNum(pin)
    ensures var after := b.(fs := WriteEffect(b.fs, pin, value, true));
            ReadLevel(after, q, true) == (if (value != 0) != b.gpio[q].activeLow then 1 else 0)
  {
  }

  /** A write leaves the reads of every other GPIO number as they were. */
  lemma WriteLeavesOtherPins(b: Board, pin: int, q: int, value: int, opens: bool, readOpens: bool)
    requires WellFormed(b) && GpioNum(q) != GpioNum(pin)
    ensures ReadLevel(b.(fs := WriteEffect(b.fs, pin, value, opens)), q, readOpens) == ReadLevel(b, q, readOpens)
  {
  }

  /** Pull-up, then writing 1, then reading back yields 0: inversion is applied on read only. */
  lemma PullUpWriteHighReadsLow(b: Board, pin: int)
    requires WellFormed(b) && GpioNum(pin) != Unavailable
    ensures var pulled := PullEffect(b, pin, PudUp, true);
            var written := pulled.(fs := WriteEffect(pulled.fs, pin, 1, true));
            WellFormed(written) && ReadLevel(written, pin, true) == 0
  {
    var pulled := PullEffect(b, pin, PudUp, true);
    assert pulled.gpio[pin].activeLow;
    WriteThenRead(pulled, pin, pin, 1);
  }

  /** wiringPiISR changes only the callback and mode of the one record. */
  lemma IsrTouchesOnlyCallbackAndMode(b: Board, pin: int, mode: int, callback: Callback)
    requires WellFormed(b) && 0 <= pin < GpioPins
    ensures var after := IsrEffect(b, pin, mode, callback);
            && |after.gpio| == GpioPins && after.fs == b.fs
            && after.gpio[pin].callback == callback && after.gpio[pin].mode == mode
            && after.gpio[pin].exported == b.gpio[pin].exported
            && after.gpio[pin].activeLow == b.gpio[pin].activeLow
            && (forall q :: 0 <= q < GpioPins && q != pin ==> after.gpio[q] == b.gpio[q])
  {
  }

  /**
    Teardown removes a GPIO number exactly when some marked record maps to
    it and that record's unexport file opens; all other cells stay.
   */
  lemma UnexportAllExactly(b: Board, opens: seq<bool>, p: int)
    requires WellFormed(b) && |opens| == GpioPins
    ensures var after := UnexportAllStore(b, opens);
            && (p in after.exported <==>
                  p in b.fs.exported &&
                  !(exists i :: 0 <= i < GpioPins && b.gpio[i].exported && opens[i] &&
                                GpioNum(i) != Unavailable && GpioNum(i) == p))
            && after.direction == b.fs.direction && after.activeLow == b.fs.activeLow
            && after.value == b.fs.value
  {
    if exists i :: 0 <= i < GpioPins && b.gpio[i].exported && opens[i] && GpioNum(i) != Unavailable && GpioNum(i) == p {
      var i :| 0 <= i < GpioPins && b.gpio[i].exported && opens[i] && GpioNum(i) != Unavailable && GpioNum(i) == p;
      assert p in TornDown(b.gpio, opens, GpioPins);
    }
  }

  /** A freshly reset registry has nothing to tear down. */
  lemma ResetRegistryTearsDownNothing(b: Board, opens: seq<bool>)
    requires WellFormed(b) && |opens| == GpioPins
    requires forall i :: 0 <= i < GpioPins ==> b.gpio[i] == DefaultRecord
    ensures UnexportAllStore(b, opens) == b.fs
  {
    assert TornDown(b.gpio, opens, GpioPins) == {};
  }

  /**
    From a freshly reset registry, pinMode followed by teardown (every file
    opening) gives back the exported set the pin started with: a pin this
    call exported is unexported, one exported by someone else is kept.
   */
  lemma TeardownUndoesPinMode(b: Board, pin: int, mode: int)
    requires WellFormed(b) && GpioNum(pin) != Unavailable
    requires forall i :: 0 <= i < GpioPins ==> b.gpio[i] == DefaultRecord
    ensures var after := PinModeEffect(b, pin, mode, true, true, true);
            WellFormed(after) &&
            UnexportAllStore(after, seq(GpioPins, _ => true)).exported == b.fs.exported
  {
    var after := PinModeEffect(b, pin, mode, true, true, true);
    var opens := seq(GpioPins, _ => true);
    var phys := GpioNum(pin);
    if phys in b.fs.exported {
      assert after.gpio == b.gpio;
      ResetRegistryTearsDownNothing(after, opens);
    } else {
      assert TornDown(after.gpio, opens, GpioPins) == {phys} by {
        assert phys in TornDown(after.gpio, opens, GpioPins) by {
          assert after.gpio[pin].exported;
        }
        forall p | p in TornDown(after.gpio, opens, GpioPins) ensures p == phys {
          var i :| 0 <= i < GpioPins && after.gpio[i].exported && opens[i] && GpioNum(i) != Unavailable && GpioNum(i) == p;
        }
      }
    }
  }

  /**
    The registry's marks account for the store relative to the exported set
    `init` the process started with: each marked record names a GPIO the
    process added, and the exported set is `init` plus the marked GPIOs.
   */
  ghost predicate TeardownInvariant(init: set<int>, b: Board)
    requires WellFormed(b)
  {
    && (forall i :: 0 <= i < GpioPins && b.gpio[i].exported ==>
          GpioNum(i) != Unavailable && GpioNum(i) !in init && GpioNum(i) in b.fs.exported)
    && (forall p :: p in b.fs.exported <==>
          p in init || exists i :: 0 <= i < GpioPins && b.gpio[i].exported && GpioNum(i) == p)
  }

  /** Right after setup, with the store as the process found it, the invariant holds. */
  lemma ResetRegistryHasTeardownInvariant(b: Board)
    requires WellFormed(b)
    requires forall i :: 0 <= i < GpioPins ==> b.gpio[i] == DefaultRecord
    ensures TeardownInvariant(b.fs.exported, b)
  {
  }

  /** pinMode with every file opening keeps the invariant. */
  lemma PinModePreservesTeardownInvariant(init: set<int>, b: Board, pin: int, mode: int)
    requires WellFormed(b) && TeardownInvariant(init, b)
    ensures var after := PinModeEffect(b, pin, mode, true, true, true);
            WellFormed(after) && TeardownInvariant(init, after)
  {
    var after := PinModeEffect(b, pin, mode, true, true, true);
    var phys := GpioNum(pin);
    if phys != Unavailable && phys !in b.fs.exported {
      assert phys !in init;
      forall p ensures p in after.fs.exported <==>
                       p in init || exists i :: 0 <= i < GpioPins && after.gpio[i].exported && GpioNum(i) == p {
        if p == phys {
          assert after.gpio[pin].exported;
        } else if exists i :: 0 <= i < GpioPins && after.gpio[i].exported && GpioNum(i) == p {
          var i :| 0 <= i < GpioPins && after.gpio[i].exported && GpioNum(i) == p;
          assert i != pin && b.gpio[i].exported;
        }
      }
    }
  }

  /** pullUpDnControl, digitalWrite and wiringPiISR keep the invariant. */
  lemma OtherOperationsPreserveTeardownInvariant(init: set<int>, b: Board, pin: int, mode: int,
                                                 value: int, callback: Callback, opens: bool)
    requires WellFormed(b) && TeardownInvariant(init, b)
    ensures WellFormed(PullEffect(b, pin, mode, opens)) && TeardownInvariant(init, PullEffect(b, pin, mode, opens))
    ensures TeardownInvariant(init, b.(fs := WriteEffect(b.fs, pin, value, opens)))
    ensures 0 <= pin < GpioPins ==> TeardownInvariant(init, IsrEffect(b, pin, mode, callback))
  {
    var pulled := PullEffect(b, pin, mode, opens);
    assert forall i :: 0 <= i < GpioPins ==> pulled.gpio[i].exported == b.gpio[i].exported;
    if 0 <= pin < GpioPins {
      var armed := IsrEffect(b, pin, mode, callback);
      assert forall i :: 0 <= i < GpioPins ==> armed.gpio[i].exported == b.gpio[i].exported;
    }
  }

  /**
    Under the invariant, teardown with every file opening gives back the
    exported set the process started with: it unexports every pin this
    process exported and only those.
   */
  lemma TeardownRestoresInitialExports(init: set<int>, b: Board)
    requires WellFormed(b) && TeardownInvariant(init, b)
    ensures UnexportAllStore(b, seq(GpioPins, _ => true)).exported == init
  {
    var opens := seq(GpioPins, _ => true);
    var after := UnexportAllStore(b, opens);
    forall p ensures p in after.exported <==> p in init {
      UnexportAllExactly(b, opens, p);
    }
  }
}
