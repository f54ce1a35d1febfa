/**
  The Rock64 shim as the source runs it: the registry is a fixed array of
  32 records updated in place, and the sysfs store is the state the file
  operations write. Each method's new state is the matching effect
  function of PinControl applied to the old state, so the properties
  proved there are properties of these methods.
 */
module Rock64 {
  import opened Rock64Header
  import opened PinMap
  import opened Sysfs
  import opened PinControl
  import opened Poller

  class Rock64Gpio {
    /** The pin-state registry, one record per logical pin. */
    const gpio: array<PinRecord>
    /** The kernel's GPIO control tree. */
    var fs: Store

    ghost predicate Valid()
      reads this
    {
      gpio.Length == GpioPins
    }

    /** The registry and the store as one value. */
    ghost function Abstract(): (b: Board)
      reads this, gpio
      requires Valid()
      ensures WellFormed(b)
    {
      Board(gpio[..], fs)
    }

    /** Process start: the registry is zero-initialised, the store is whatever the kernel has. */
    constructor (initial: Store)
      ensures Valid() && fresh(gpio) && fs == initial
      ensures forall i :: 0 <= i < GpioPins ==> gpio[i] == DefaultRecord
    {
      gpio := new PinRecord[GpioPins](_ => DefaultRecord);
      fs := initial;
    }

    /** The reset loop of wiringPiSetupGpio; the exit hook and poller thread are left to the caller. */
    method SetupGpio() returns (status: int)
      requires Valid()
      modifies gpio
      ensures status == 0
      ensures forall i :: 0 <= i < GpioPins ==> gpio[i] == DefaultRecord
    {
      for i := 0 to GpioPins
        invariant forall k :: 0 <= k < i ==> gpio[k] == DefaultRecord
      {
        gpio[i] := gpio[i].(exported := false, activeLow := false, callback := NoCallback, mode := 0);
      }
      status := 0;
    }

    /** Registers a handler with no bounds check: callers must pass a logical pin in range. */
    method WiringPiIsr(pin: int, mode: int, callback: Callback) returns (status: int)
      requires Valid() && 0 <= pin < GpioPins
      modifies gpio
      ensures status == 0
      ensures Abstract() == IsrEffect(old(Abstract()), pin, mode, callback)
    {
      gpio[pin] := gpio[pin].(callback := callback, mode := mode);
      status := 0;
    }

    /** rock64GpioIsExported: whether the pin's directory exists and opens. */
    method IsExported(phys: int, dirOpens: bool) returns (exported: bool)
      ensures exported == IsExportedIn(fs, phys, dirOpens)
    {
      if phys == Unavailable {
        return false;
      }
      if !dirOpens {
        return false;
      }
      exported := phys in fs.exported;
    }

    method ExportPin(phys: int, opens: bool)
      modifies this
      ensures fs == ExportStore(old(fs), phys, opens)
    {
      if phys == Unavailable {
        return;
      }
      if !opens {
        return;
      }
      fs := fs.(exported := fs.exported + {phys});
    }

    method UnexportPin(phys: int, opens: bool)
      modifies this
      ensures fs == UnexportStore(old(fs), phys, opens)
    {
      if phys == Unavailable {
        return;
      }
      if !opens {
        return;
      }
      fs := fs.(exported := fs.exported - {phys});
    }

    /**
      rock64GpioUnexportAll: unexports the GPIO of every marked record;
      `opens[i]` says whether record i's unexport file opens.
     */
    method UnexportAll(opens: seq<bool>)
      requires Valid() && |opens| == GpioPins
      modifies this
      ensures Valid() && gpio[..] == old(gpio[..])
      ensures fs == UnexportAllStore(old(Abstract()), opens)
    {
      for i := 0 to GpioPins
        invariant fs == old(fs).(exported := old(fs).exported - TornDown(gpio[..], opens, i))
      {
        if gpio[i].exported {
          UnexportPin(GpioNum(i), opens[i]);
        }
        assert TornDown(gpio[..], opens, i + 1) ==
               TornDown(gpio[..], opens, i) +
               (if gpio[i].exported && opens[i] && GpioNum(i) != Unavailable then {GpioNum(i)} else {});
      }
    }

    /**
      pinMode: `dirOpens`, `exportOpens` and `directionOpens` say whether the
      pin's directory, the export file and the direction file open.
     */
    method PinMode(pin: int, mode: int, dirOpens: bool, exportOpens: bool, directionOpens: bool)
      requires Valid()
      modifies this, gpio
      ensures Abstract() == PinModeEffect(old(Abstract()), pin, mode, dirOpens, exportOpens, directionOpens)
    {
      var phys := GpioNum(pin);
      if phys == Unavailable {
        return;
      }
      var present := IsExported(phys, dirOpens);
      if !present {
        ExportPin(phys, exportOpens);
        gpio[pin] := gpio[pin].(exported := true);
      }
      if !directionOpens {
        return;
      }
      if mode == Output {
        fs := fs.(direction := fs.direction[phys := "out"]);
      } else {
        fs := fs.(direction := fs.direction[phys := "in"]);
      }
    }

    /** pullUpDnControl: `opens` says whether the pin's active_low file opens. */
    method PullUpDnControl(pin: int, mode: int, opens: bool)
      requires Valid()
      modifies this, gpio
      ensures Abstract() == PullEffect(old(Abstract()), pin, mode, opens)
    {
      var phys := GpioNum(pin);
      if phys == Unavailable {
        return;
      }
      if !opens {
        return;
      }
      if mode == PudUp {
        fs := fs.(activeLow := fs.activeLow[phys := '1']);
      } else {
        fs := fs.(activeLow := fs.activeLow[phys := '0']);
      }
      gpio[pin] := gpio[pin].(activeLow := mode == PudUp);
    }

    /** digitalRead: `opens` says whether the pin's value file opens. */
    method DigitalRead(pin: int, opens: bool) returns (level: int)
      requires Valid()
      ensures level == ReadLevel(Abstract(), pin, opens)
    {
      var phys := GpioNum(pin);
      if phys == Unavailable {
        return 0;
      }
      if !opens {
        return 0;
      }
      level := 0;
      if RawHigh(fs, phys) {
        level := 1;
      }
      if gpio[pin].activeLow {
        level := 1 - level;
      }
    }

    /** digitalWrite: `opens` says whether the pin's value file opens. */
    method DigitalWrite(pin: int, value: int, opens: bool)
      modifies this
      ensures fs == WriteEffect(old(fs), pin, value, opens)
    {
      var phys := GpioNum(pin);
      if phys == Unavailable {
        return;
      }
      if !opens {
        return;
      }
      if value != 0 {
        fs := fs.(value := fs.value[phys := '1']);
      } else {
        fs := fs.(value := fs.value[phys := '0']);
      }
    }

    /**
      One pass of the poller over `last`, the poller's last observed levels.
      `opens[i]` says whether pin i's value file opens when it is sampled.
      Returns the pins whose callbacks fired, in the order they fired.
     */
    method PollPass(last: array<int>, opens: seq<bool>) returns (fired: seq<int>)
      requires Valid() && last.Length == GpioPins && |opens| == GpioPins
      modifies last
      ensures last[..] == PassLast(old(last[..]), ModesOf(gpio[..]), Samples(Abstract(), opens))
      ensures fired == FiredUpTo(old(last[..]), ModesOf(gpio[..]), Samples(Abstract(), opens), GpioPins)
    {
      ghost var before := last[..];
      ghost var modes := ModesOf(gpio[..]);
      ghost var samples := Samples(Abstract(), opens);
      fired := [];
      for i := 0 to GpioPins
        invariant forall k :: 0 <= k < i ==> last[k] == NextLast(before[k], modes[k], samples[k])
        invariant forall k :: i <= k < GpioPins ==> last[k] == before[k]
        invariant fired == FiredUpTo(before, modes, samples, i)
      {
        assert gpio[i].mode == modes[i];
        if gpio[i].mode == IntEdgeSetup {
          continue;
        }
        var state := DigitalRead(i, opens[i]);
        assert state == samples[i];
        if last[i] == state {
          continue;
        }
        last[i] := state;
        var mode := gpio[i].mode;
        if (state == 1 && (mode == IntEdgeBoth || mode == IntEdgeRising)) ||
           (state == 0 && (mode == IntEdgeBoth || mode == IntEdgeFalling)) {
          fired := fired + [i];
        }
      }
      assert last[..] == PassLast(before, modes, samples);
    }
  }

  /** The poller's start: a fresh last-state array with every level 0. */
  method NewLastState() returns (last: array<int>)
    ensures fresh(last) && last.Length == GpioPins
    ensures forall i :: 0 <= i < GpioPins ==> last[i] == 0
  {
    last := new int[GpioPins];
    for i := 0 to GpioPins
      invariant forall k :: 0 <= k < i ==> last[k] == 0
    {
      last[i] := 0;
    }
  }
}
