/** The tick counter: each read returns a value no smaller than the one before. */
module Clock {
  class Clock {
    var now: int

    constructor (start: int)
      ensures now == start
    {
      now := start;
    }

    /** GetTickCount: time may pass before the read, by an unknown amount. */
    method GetTickCount() returns (t: int)
      modifies this
      ensures t == now && old(now) <= now
    {
      var elapsed :| elapsed >= 0;
      now := now + elapsed;
      t := now;
    }
  }
}
