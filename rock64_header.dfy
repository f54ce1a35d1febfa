/**
  The mode, pull and interrupt-edge constants of the wiringPi-style API
  that the Rock64 shim implements (src/board_rock64.h).
 */
module Rock64Header {
  // Pin modes accepted by PinMode.
  const Input: int := 0
  const Output: int := 1

  // Pull settings accepted by PullUpDnControl.
  const PudOff: int := 0
  const PudDown: int := 1
  const PudUp: int := 2

  // Interrupt edges accepted by WiringPiIsr. A record whose mode is
  // IntEdgeSetup (0) is not polled at all.
  const IntEdgeSetup: int := 0
  const IntEdgeFalling: int := 1
  const IntEdgeRising: int := 2
  const IntEdgeBoth: int := 3
}
