/** Timestamps as `gettimeofday` delivers them. */
module Clock {

  datatype TimeVal = TimeVal(sec: int, usec: int)

  /** The instant a timestamp denotes, in microseconds; carry between the fields does not matter. */
  function Micros(t: TimeVal): int {
    t.sec * 1000000 + t.usec
  }

  /** The normalised timestamp of an instant. */
  function FromMicros(m: int): (t: TimeVal)
    ensures Micros(t) == m && 0 <= t.usec < 1000000
  {
    TimeVal(m / 1000000, m % 1000000)
  }

  function TimevalDiff(big: TimeVal, small: TimeVal): (d: int)
    ensures d == Micros(big) - Micros(small)
  {
    (big.sec - small.sec) * 1000000 + big.usec - small.usec
  }
}
