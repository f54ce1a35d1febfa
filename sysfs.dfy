/**
  The kernel's GPIO control tree (/sys/class/gpio), abstracted to a store
  keyed by physical GPIO number. Paths and the decimal text written to the
  export files are not modelled; only the cells the shim reads and writes.
 */
module Sysfs {
  datatype Store = Store(
    exported: set<int>,            // GPIO numbers whose gpio{P} directory exists
    direction: map<int, string>,   // contents of gpio{P}/direction
    activeLow: map<int, char>,     // contents of gpio{P}/active_low
    value: map<int, char>)         // contents of gpio{P}/value

  /** The first character of gpio{P}/value is '1'; an absent cell reads as end of file. */
  predicate RawHigh(s: Store, p: int)
  {
    p in s.value && s.value[p] == '1'
  }
}
