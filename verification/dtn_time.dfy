/** DTN time (`dtn-time.cc`): seconds since the DTN epoch 2000-01-01T00:00:00Z
    (section 4.2.6 of RFC 9171) plus a nanosecond part, with the comparison
    operators and the conversion to and from simulation time. */
module DtnTime {
  import opened BoundedInts

  /** Unix time of the DTN epoch. */
  const DTN_TIME_EPOCH: nat := 946684800
  const NANOS_PER_SECOND: nat := 1_000_000_000

  datatype DtnTime = DtnTime(seconds: uint64, nanoseconds: uint64)

  /** Simulation time, `ns3::Time`: a signed 64-bit count of nanoseconds.
      Clock readings are non-negative; sums that overflow wrap around. */
  type Time = int

  /** A time whose nanosecond part is below one second, as `FromTime` and
      the clock produce. */
  predicate Normalized(t: DtnTime) {
    t.nanoseconds < NANOS_PER_SECOND
  }

  /** The instant a DTN time denotes, as an exact count of nanoseconds. */
  function Instant(t: DtnTime): nat {
    t.seconds * NANOS_PER_SECOND + t.nanoseconds
  }

  /** `ToTime`: `Seconds(s) + NanoSeconds(n)`. The result is an `int64_t`
      count of nanoseconds, so beyond `INT64_MAX` it wraps around. */
  function ToTime(t: DtnTime): (r: Time)
    ensures INT64_MIN <= r <= INT64_MAX
    ensures (r - Instant(t)) % TWO_TO_THE_64 == 0
    ensures Instant(t) <= INT64_MAX ==> r == Instant(t)
  {
    Int64Of(Instant(t))
  }

  /** Ten billion seconds, about 317 years, is past the range of `ns3::Time`:
      `ToTime` gives a time before the epoch. */
  lemma ToTimeWraps()
    ensures Instant(DtnTime(10_000_000_000, 0)) > INT64_MAX
    ensures ToTime(DtnTime(10_000_000_000, 0)) == -8_446_744_073_709_551_616
  {
    assert Instant(DtnTime(10_000_000_000, 0)) == 10_000_000_000_000_000_000;
  }

  /** `FromTime`: whole seconds and the nanoseconds left over, for a clock
      reading. */
  function FromTime(time: Time): (t: DtnTime)
    requires 0 <= time <= INT64_MAX
    ensures Normalized(t)
    ensures Instant(t) == time
  {
    var t := DtnTime(time / NANOS_PER_SECOND, time % NANOS_PER_SECOND);
    assert time == (time / NANOS_PER_SECOND) * NANOS_PER_SECOND + time % NANOS_PER_SECOND;
    t
  }

  /** Every clock reading converts to a DTN time and back unchanged. */
  lemma FromTimeToTime(time: Time)
    requires 0 <= time <= INT64_MAX
    ensures ToTime(FromTime(time)) == time
  {
  }

  /** A normalized DTN time comes back from `ToTime` then `FromTime` exactly
      when its instant fits in an `ns3::Time`; past that, the wrapped time is
      negative or names another instant. */
  lemma ToTimeFromTime(t: DtnTime)
    requires Normalized(t)
    ensures Instant(t) <= INT64_MAX <==> (ToTime(t) >= 0 && FromTime(ToTime(t)) == t)
  {
    var n := Instant(t);
    if n <= INT64_MAX {
      assert n / NANOS_PER_SECOND == t.seconds && n % NANOS_PER_SECOND == t.nanoseconds by {
        var q, r := n / NANOS_PER_SECOND, n % NANOS_PER_SECOND;
        assert n == q * NANOS_PER_SECOND + r;
      }
    } else if ToTime(t) >= 0 {
      assert Instant(FromTime(ToTime(t))) == ToTime(t) != n;
    }
  }

  /** `operator<`: by seconds, then by nanoseconds. */
  predicate Less(a: DtnTime, b: DtnTime) {
    if a.seconds < b.seconds then true
    else if a.seconds == b.seconds then a.nanoseconds < b.nanoseconds
    else false
  }

  predicate LessOrEqual(a: DtnTime, b: DtnTime) {
    Less(a, b) || a == b
  }

  predicate Greater(a: DtnTime, b: DtnTime) {
    !LessOrEqual(a, b)
  }

  predicate GreaterOrEqual(a: DtnTime, b: DtnTime) {
    !Less(a, b)
  }

  /** `operator<` is a strict total order, and the derived operators are its
      converse and reflexive closures. */
  lemma OrderLaws(a: DtnTime, b: DtnTime, c: DtnTime)
    ensures !Less(a, a)
    ensures Less(a, b) && Less(b, c) ==> Less(a, c)
    ensures a == b || Less(a, b) || Less(b, a)
    ensures Greater(a, b) <==> Less(b, a)
    ensures GreaterOrEqual(a, b) <==> LessOrEqual(b, a)
  {
  }

  /** On normalized times the order is the order of the instants they
      denote, and of their simulation times while those do not wrap. */
  lemma LessIsEarlier(a: DtnTime, b: DtnTime)
    requires Normalized(a) && Normalized(b)
    ensures Less(a, b) <==> Instant(a) < Instant(b)
    ensures Instant(a) <= INT64_MAX && Instant(b) <= INT64_MAX ==> (Less(a, b) <==> ToTime(a) < ToTime(b))
  {
    if a.seconds < b.seconds {
      assert Instant(a) < (a.seconds + 1) * NANOS_PER_SECOND <= Instant(b);
    } else if a.seconds > b.seconds {
      assert Instant(b) < (b.seconds + 1) * NANOS_PER_SECOND <= Instant(a);
    }
  }
}
