/**
  The pin map: a fixed table from logical (wiringPi) pin numbers to the
  Rock64's sysfs GPIO numbers, for the build that boots from an SD card.
 */
module PinMap {
  /** Number of logical pins, and of records in the pin-state registry. */
  const GpioPins: nat := 32

  /** The sentinel for "this logical pin is not available on the board". */
  const Unavailable: int := -1

  const Rock64Table: seq<int> := [
     -1,  -1,  89,  88,  60,  70,   2,  76, 104,  98,  67,  96,  -1,  -1,  64,  65,
     -1,  66,  67,  -1,  -1,  -1, 100, 101, 102, 103,  -1,   0,  -1,  -1,  -1,  -1
  ]

  /** The table has one entry per logical pin, each the sentinel or a GPIO number. */
  lemma TableShape()
    ensures |Rock64Table| == GpioPins
    ensures forall i :: 0 <= i < GpioPins ==> Rock64Table[i] == Unavailable || Rock64Table[i] >= 0
  {
  }

  /** The bounds-checked lookup of a logical pin's sysfs GPIO number. */
  function GpioNum(pin: int): (r: int)
    ensures !(0 <= pin < GpioPins) ==> r == Unavailable
    ensures r == Unavailable || r >= 0
  {
    if pin < 0 || pin >= GpioPins then Unavailable
    else TableShape(); Rock64Table[pin]
  }

  /** The map is not injective: logical pins 10 and 18 are both GPIO 67. */
  lemma GpioNumNotInjective()
    ensures GpioNum(10) == GpioNum(18) == 67
  {
  }
}
