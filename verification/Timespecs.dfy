/** Times of seconds and nanoseconds (src/timespec.h). */
module Timespecs {
  import opened Words

  const BILLION := 1_000_000_000

  datatype Timespec = Timespec(sec: int, nsec: int)
  {
    predicate Normal() { sec >= 0 && 0 <= nsec < BILLION }

    function Total(): int { sec * BILLION + nsec }

    function Plus(b: Timespec): Timespec { Make(sec + b.sec, nsec + b.nsec) }

    function Minus(b: Timespec): Timespec { Make(sec - b.sec, nsec - b.nsec) }

    predicate AtLeast(b: Timespec) { sec > b.sec || (sec == b.sec && nsec >= b.nsec) }
  }

  /** The normalising constructor. */
  function Make(sec: int, nsec: int): Timespec {
    var s, n := sec + Quotient(nsec, BILLION), Remainder(nsec, BILLION);
    if s > 0 && n < 0 then Timespec(s - 1, n + BILLION) else Timespec(s, n)
  }

  function Ms(ms: nat): Timespec { Make(ms / 1000, ms % 1000 * 1_000_000) }

  /** The constructor keeps the total and gives the normal form exactly for times that are not negative. */
  lemma MakeNormalises(sec: int, nsec: int)
    ensures Make(sec, nsec).Total() == sec * BILLION + nsec
    ensures Make(sec, nsec).Normal() <==> sec * BILLION + nsec >= 0
  {
  }

  lemma MsTotal(ms: nat)
    ensures Ms(ms).Normal() && Ms(ms).Total() == ms * 1_000_000
  {
    MakeNormalises(ms / 1000, ms % 1000 * 1_000_000);
  }

  /** On normal times the operators are those of the total number of nanoseconds. */
  lemma Arithmetic(a: Timespec, b: Timespec)
    requires a.Normal() && b.Normal()
    ensures a.Plus(b).Normal() && a.Plus(b).Total() == a.Total() + b.Total()
    ensures a.AtLeast(b) <==> a.Total() >= b.Total()
    ensures a.Minus(b).Total() == a.Total() - b.Total()
    ensures a.Minus(b).Normal() <==> a.AtLeast(b)
  {
  }
}
