/** Monotonic timestamps as `(seconds, nanoseconds)` pairs, and the two
    helpers the readiness poller applies to them: the difference of two
    samples with a nanosecond borrow, and the conversion to whole
    milliseconds truncated to an unsigned 32-bit value. */
module Timing {

  const NS_PER_SEC := 1_000_000_000
  const NS_PER_MS := 1_000_000
  const MS_PER_SEC := 1000
  const UINT32_MODULUS := 0x1_0000_0000

  type uint32 = x: int | 0 <= x < 0x1_0000_0000

  /** A `struct timespec`; `time_t` and `long` are taken as unbounded. */
  datatype Timespec = Timespec(sec: int, nsec: int)

  /** The form a clock returns: the nanosecond part is a fraction of a second. */
  predicate Normalised(t: Timespec) {
    0 <= t.nsec < NS_PER_SEC
  }

  /** The instant a timestamp denotes, in nanoseconds. */
  function TotalNs(t: Timespec): (ns: int) {
    t.sec * NS_PER_SEC + t.nsec
  }

  /** The ordering that ts_diff asserts of its arguments: `t1` is not
      earlier than `t2`, compared field by field. */
  predicate NotEarlier(t1: Timespec, t2: Timespec) {
    t1.sec > t2.sec || (t1.sec == t2.sec && t1.nsec >= t2.nsec)
  }

  /** ts_diff: `t1 - t2`, borrowing one second when the nanosecond part of
      `t1` is the smaller. The difference denotes exactly the elapsed
      nanoseconds, its seconds are never negative, and it is normalised
      whenever both samples are. */
  function Diff(t1: Timespec, t2: Timespec): (d: Timespec)
    requires NotEarlier(t1, t2)
    ensures TotalNs(d) == TotalNs(t1) - TotalNs(t2)
    ensures d.sec >= 0
    ensures Normalised(t1) && Normalised(t2) ==> Normalised(d)
  {
    if t1.nsec >= t2.nsec then
      Timespec(t1.sec - t2.sec, t1.nsec - t2.nsec)
    else
      Timespec(t1.sec - t2.sec - 1, t1.nsec + NS_PER_SEC - t2.nsec)
  }

  /** C's integer division, which truncates toward zero (Dafny's `/`
      rounds toward negative infinity for a negative dividend). */
  function CDiv(a: int, b: int): (q: int)
    requires b > 0
    ensures 0 <= a ==> 0 <= a - q * b < b
    ensures a < 0 ==> -b < a - q * b <= 0
  {
    if a >= 0 then a / b else -((-a) / b)
  }

  /** Whole milliseconds of `q` milliseconds plus `r` nanoseconds, `r` not negative. */
  lemma DivAfterWholeMs(q: int, r: int)
    ensures r >= 0 ==> (q * NS_PER_MS + r) / NS_PER_MS == q + r / NS_PER_MS
  {
  }

  /** ts_to_ms: `sec * 1000 + nsec / 1000000` in C arithmetic, then
      converted to `uint32_t`, which keeps the value modulo 2^32. For a
      normalised timestamp this is the floor of its nanoseconds divided
      by one million, modulo 2^32. */
  function ToMs(t: Timespec): (ms: uint32)
    ensures Normalised(t) ==> ms == (TotalNs(t) / NS_PER_MS) % UINT32_MODULUS
  {
    DivAfterWholeMs(t.sec * MS_PER_SEC, t.nsec);
    (t.sec * MS_PER_SEC + CDiv(t.nsec, NS_PER_MS)) % UINT32_MODULUS
  }

  /** Subtracting a timestamp from itself gives zero. */
  lemma DiffSelf(t: Timespec)
    ensures Diff(t, t) == Timespec(0, 0)
  {
  }

  /** The borrow branch of ts_diff is taken exactly when the nanosecond
      part of `t1` is below that of `t2`. */
  lemma DiffBorrow(t1: Timespec, t2: Timespec)
    requires NotEarlier(t1, t2)
    ensures Diff(t1, t2).sec == t1.sec - t2.sec - 1 <==> t1.nsec < t2.nsec
    ensures Diff(t1, t2).sec == t1.sec - t2.sec <==> t1.nsec >= t2.nsec
  {
  }

  /** A normalised timestamp is determined by the instant it denotes. */
  lemma NormalisedUnique(a: Timespec, b: Timespec)
    requires Normalised(a) && Normalised(b)
    requires TotalNs(a) == TotalNs(b)
    ensures a == b
  {
  }

  /** The normalised timestamp for a number of nanoseconds. */
  function FromNs(ns: int): (t: Timespec)
    ensures Normalised(t) && TotalNs(t) == ns
  {
    Timespec(ns / NS_PER_SEC, ns % NS_PER_SEC)
  }

  /** For normalised samples, field-wise ordering is ordering of instants. */
  lemma NotEarlierIsInstantOrder(t1: Timespec, t2: Timespec)
    requires Normalised(t1) && Normalised(t2)
    ensures NotEarlier(t1, t2) <==> TotalNs(t1) >= TotalNs(t2)
  {
  }

  /** ts_diff agrees with the reference definition: the normalised
      timestamp of the difference of the two instants. */
  lemma DiffIsInstantDifference(t1: Timespec, t2: Timespec)
    requires Normalised(t1) && Normalised(t2) && NotEarlier(t1, t2)
    ensures Diff(t1, t2) == FromNs(TotalNs(t1) - TotalNs(t2))
  {
    NormalisedUnique(Diff(t1, t2), FromNs(TotalNs(t1) - TotalNs(t2)));
  }

  /** Below the 32-bit wrap-around, ts_to_ms is monotone in the instant. */
  lemma ToMsMonotone(a: Timespec, b: Timespec)
    requires Normalised(a) && Normalised(b)
    requires 0 <= TotalNs(a) <= TotalNs(b) < UINT32_MODULUS * NS_PER_MS
    ensures ToMs(a) <= ToMs(b)
  {
  }

  /** Concrete values: the borrow example of ts_diff and two conversions. */
  lemma Examples()
    ensures Diff(Timespec(10, 100), Timespec(9, 999_999_999)) == Timespec(0, 101)
    ensures ToMs(Timespec(1, 0)) == 1000
    ensures ToMs(Timespec(0, 500_000_000)) == 500
    ensures ToMs(Timespec(0, -1_500_000)) == UINT32_MODULUS - 1
    ensures ToMs(Timespec(4_294_967, 296_000_000)) == 0
  {
  }
}
