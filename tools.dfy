/**
 * The formatting helpers of `bot/utils/tools.py`: byte counts scaled to the
 * largest binary unit up to PB, and microsecond durations reduced to one or
 * two dominant components. Floating-point division is modelled with exact
 * reals; Python's `int()` on a float is truncation toward zero (`Trunc`).
 */
module Tools {
  import opened Wrappers

  /** The unit names, indexed by the number of divisions by 1024. */
  const Units: seq<string> := ["B", "KB", "MB", "GB", "TB", "PB"]
  const TopUnit: nat := 5

  function Pow1024(k: nat): (r: nat)
    ensures r >= 1
  {
    if k == 0 then 1 else 1024 * Pow1024(k - 1)
  }

  /** A size expressed as `value` times 1024^`unit`. */
  datatype Scaled = Scaled(value: real, unit: nat)

  /**
   * Reference definition of the unit choice: keep dividing by 1024 while the
   * value is at least 1024 and a larger unit exists.
   */
  function ScaleFrom(v: real, unit: nat): Scaled
    requires unit <= TopUnit
    decreases TopUnit - unit
  {
    if v < 1024.0 || unit == TopUnit then Scaled(v, unit)
    else ScaleFrom(v / 1024.0, unit + 1)
  }

  function Scale(size: real): Scaled {
    ScaleFrom(size, 0)
  }

  lemma {:induction false} ScaleFromSpec(v: real, u: nat)
    requires u <= TopUnit
    decreases TopUnit - u
    ensures ScaledFrom(v, u, ScaleFrom(v, u))
  {
    if v < 1024.0 || u == TopUnit {
      assert Pow1024(0) == 1;
    } else {
      ScaleFromSpec(v / 1024.0, u + 1);
      ScaleOneMore(v, u, ScaleFrom(v / 1024.0, u + 1));
    }
  }

  /**
   * What the unit choice guarantees about its result `r` when started on
   * `v` at `u`: the unit only grows, the value times the powers divided out
   * is `v`, the value is below 1024 unless the unit is the top one, and `v`
   * reaches every power divided out.
   */
  predicate ScaledFrom(v: real, u: nat, r: Scaled) {
    && u <= r.unit <= TopUnit
    && r.value * (Pow1024(r.unit - u) as real) == v
    && (r.unit < TopUnit ==> r.value < 1024.0)
    && (r.unit == u || v >= Pow1024(r.unit - u) as real)
  }

  /** One more division by 1024 in front of a result keeps its guarantees. */
  lemma ScaleOneMore(v: real, u: nat, r: Scaled)
    requires u < TopUnit && v >= 1024.0
    requires ScaledFrom(v / 1024.0, u + 1, r)
    ensures ScaledFrom(v, u, r)
  {
    var k := r.unit - (u + 1);
    PowStep(k);
    ScaleStep(v, v / 1024.0, r.value, Pow1024(k) as real, k == 0);
  }

  lemma PowStep(k: nat)
    ensures Pow1024(k + 1) as real == 1024.0 * (Pow1024(k) as real)
  {
  }

  /** One division step of the unit choice, isolated from the recursion. */
  lemma ScaleStep(v: real, w: real, x: real, p: real, first: bool)
    requires w == v / 1024.0 && x * p == w
    requires first || w >= p
    ensures x * (1024.0 * p) == v
    ensures v >= 1024.0 ==> first || v >= 1024.0 * p
  {
  }

  /**
   * The unit chosen for `size` is the largest one whose power of 1024 does
   * not exceed `size`, capped at PB; the scaled value times that power is
   * `size`, and is below 1024 unless the unit is PB.
   */
  lemma ScaleSpec(size: real)
    ensures var r := Scale(size);
      && r.unit <= TopUnit
      && r.value * (Pow1024(r.unit) as real) == size
      && (r.unit < TopUnit ==> r.value < 1024.0 && size < Pow1024(r.unit + 1) as real)
      && (r.unit == 0 || size >= Pow1024(r.unit) as real)
      && (size < 1024.0 ==> r == Scaled(size, 0))
  {
    ScaleFromSpec(size, 0);
    var r := Scale(size);
    if r.unit < TopUnit {
      assert Pow1024(r.unit + 1) == 1024 * Pow1024(r.unit);
      assert r.value * (Pow1024(r.unit) as real) < 1024.0 * (Pow1024(r.unit) as real);
    }
  }

  /**
   * `readable_bytes`: a negative size is a ValueError; otherwise the size is
   * divided by 1024 while it is at least 1024 and below the top unit.
   */
  method ReadableBytes(size: int) returns (r: Result<Scaled, string>)
    ensures r.Failure? <==> size < 0
    ensures r.Success? ==> r.value == Scale(size as real)
  {
    if size < 0 {
      return Failure("Size cannot be negative.");
    }
    var v := size as real;
    var index := 0;
    while v >= 1024.0 && index < |Units| - 1
      invariant 0 <= index <= TopUnit
      invariant ScaleFrom(v, index) == Scale(size as real)
    {
      v := v / 1024.0;
      index := index + 1;
    }
    return Success(Scaled(v, index));
  }

  /** Python's `int()` applied to a float: truncation toward zero. */
  function Trunc(x: real): (r: int)
    ensures x >= 0.0 ==> r >= 0 && r as real <= x < r as real + 1.0
    ensures x < 0.0 ==> r <= 0 && r as real - 1.0 < x <= r as real
  {
    if x >= 0.0 then x.Floor else -((-x).Floor)
  }

  /** Python's float `%` for a positive modulus: the result has the modulus's sign. */
  function FloatMod(x: real, m: real): real
    requires m > 0.0
  {
    x - m * ((x / m).Floor as real)
  }

  const MsUs: nat := 1000
  const SecUs: nat := 1000000
  const MinUs: nat := 60000000
  const HourUs: nat := 3600000000
  const DayUs: nat := 86400000000

  /** The components a duration is shown with; the variant is the dominant unit. */
  datatype Duration =
    | DaysHours(days: int, hours: int)
    | HoursMinutes(hours: int, minutes: int)
    | MinutesSeconds(minutes: int, seconds: int)
    | Seconds(seconds: int)
    | Millis(millis: int)
    | Micros(micros: int)

  /**
   * Reference decomposition of a whole number of microseconds, in integer
   * arithmetic: the dominant unit is the largest one the duration reaches,
   * and the second component is the remainder in the next unit.
   */
  function DurationOf(us: int): (r: Duration)
    ensures r.DaysHours? <==> us >= DayUs as int
    ensures r.HoursMinutes? <==> HourUs as int <= us < DayUs as int
    ensures r.MinutesSeconds? <==> MinUs as int <= us < HourUs as int
    ensures r.Seconds? <==> SecUs as int <= us < MinUs as int
    ensures r.Millis? <==> MsUs as int <= us < SecUs as int
    ensures r.Micros? <==> us < MsUs as int
    ensures r.DaysHours? ==> r.days >= 1 && 0 <= r.hours < 24
    ensures r.HoursMinutes? ==> 1 <= r.hours < 24 && 0 <= r.minutes < 60
    ensures r.MinutesSeconds? ==> 1 <= r.minutes < 60 && 0 <= r.seconds < 60
    ensures r.Seconds? ==> 1 <= r.seconds < 60
    ensures r.Millis? ==> 1 <= r.millis < 1000
    ensures r.Micros? ==> r.micros == us
  {
    if us >= DayUs as int then DaysHours(us / DayUs as int, us / HourUs as int % 24)
    else if us >= HourUs as int then HoursMinutes(us / HourUs as int, us / MinUs as int % 60)
    else if us >= MinUs as int then MinutesSeconds(us / MinUs as int, us / SecUs as int % 60)
    else if us >= SecUs as int then Seconds(us / SecUs as int)
    else if us >= MsUs as int then Millis(us / MsUs as int)
    else Micros(us)
  }

  /**
   * `format_duration_us`, computed as the source does: truncate the input,
   * derive the fractional ms/s/min/h/d values, pick the first one that is at
   * least 1, and truncate the shown components (the second via float `%`).
   */
  function FormatDurationUs(t: real): Duration {
    var us := Trunc(t);
    var ms := us as real / 1000.0;
    var s := ms / 1000.0;
    var m := s / 60.0;
    var h := m / 60.0;
    var d := h / 24.0;
    if d >= 1.0 then DaysHours(Trunc(d), Trunc(FloatMod(h, 24.0)))
    else if h >= 1.0 then HoursMinutes(Trunc(h), Trunc(FloatMod(m, 60.0)))
    else if m >= 1.0 then MinutesSeconds(Trunc(m), Trunc(FloatMod(s, 60.0)))
    else if s >= 1.0 then Seconds(Trunc(s))
    else if ms >= 1.0 then Millis(Trunc(ms))
    else Micros(us)
  }

  /** For a whole n >= 0 and k > 0, the floor of the real quotient is the integer quotient. */
  lemma FloorOfQuotient(n: int, k: int)
    requires n >= 0 && k > 0
    ensures Trunc(n as real / k as real) == n / k
  {
    var q, r := n / k, n % k;
    assert n == q * k + r;
    assert (n as real) / (k as real) == q as real + (r as real) / (k as real);
    assert 0.0 <= (r as real) / (k as real) < 1.0;
  }

  /** Taking the float remainder then truncating equals the integer remainder of the truncation. */
  lemma TruncOfFloatMod(n: int, a: int, b: int)
    requires n >= 0 && a > 0 && b > 0
    ensures Trunc(FloatMod(n as real / a as real, b as real)) == n / a % b
  {
    FloorOfQuotient(n, a);
    QuotientOfQuotient(n, a, b);
    ModFromFloor(n as real / a as real, n / a, b, n / a / b);
  }

  /** Dividing by a and then by b, in reals, floors to the integer quotients taken in turn. */
  lemma QuotientOfQuotient(n: int, a: int, b: int)
    requires n >= 0 && a > 0 && b > 0
    ensures (n as real / a as real / b as real).Floor == n / a / b
  {
    FloorOfQuotient(n, a * b);
    assert n as real / a as real / b as real == n as real / (a * b) as real;
    DivDiv(n, a, b);
  }

  /** The fractional part of x does not change which remainder its truncation has. */
  lemma ModFromFloor(x: real, q: int, b: int, d: int)
    requires b > 0 && q >= 0 && q as real <= x < q as real + 1.0 && d == q / b
    ensures Trunc(x - b as real * d as real) == q % b
  {
    assert q - b * d == q % b;
    assert x - b as real * d as real == (x - q as real) + ((q - b * d) as real);
  }

  lemma DivDiv(n: int, a: int, b: int)
    requires n >= 0 && a > 0 && b > 0
    ensures n / a / b == n / (a * b)
  {
    var q := n / a;
    var D := q / b;
    var rest := a * (q % b) + n % a;
    assert n == a * q + n % a;
    assert q == b * D + q % b;
    assert a * q == (a * b) * D + a * (q % b) by {
      assert a * (b * D + q % b) == a * (b * D) + a * (q % b);
      assert a * (b * D) == (a * b) * D;
    }
    assert 0 <= a * (q % b) <= a * (b - 1) by {
      MulMonotone(a, q % b, b - 1);
    }
    assert a * (b - 1) == a * b - a;
    DivUnique(n, a * b, D, rest);
  }

  lemma MulMonotone(a: int, x: int, y: int)
    requires a > 0 && 0 <= x <= y
    ensures 0 <= a * x <= a * y
  {
  }

  lemma DivUnique(n: int, d: int, q: int, r: int)
    requires d > 0 && 0 <= r < d && n == d * q + r
    ensures n / d == q
  {
    var q', r' := n / d, n % d;
    assert n == d * q' + r';
    assert d * (q - q') == r' - r by {
      assert d * (q - q') == d * q - d * q';
    }
    if q > q' {
      MulMonotone(d, 1, q - q');
    } else if q < q' {
      MulMonotone(d, 1, q' - q);
    }
  }

  /**
   * The float computation of `format_duration_us` agrees with the integer
   * decomposition of the truncated input, for every input.
   */
  lemma FormatDurationUsSpec(t: real)
    ensures FormatDurationUs(t) == DurationOf(Trunc(t))
  {
    var us := Trunc(t);
    if us < 0 {
      return;
    }
    var ms := us as real / 1000.0;
    var s := ms / 1000.0;
    var m := s / 60.0;
    var h := m / 60.0;
    var d := h / 24.0;
    assert s == us as real / SecUs as real;
    assert m == us as real / MinUs as real;
    assert h == us as real / HourUs as real;
    assert d == us as real / DayUs as real;
    if d >= 1.0 {
      FloorOfQuotient(us, DayUs);
      TruncOfFloatMod(us, HourUs, 24);
    } else if h >= 1.0 {
      FloorOfQuotient(us, HourUs);
      TruncOfFloatMod(us, MinUs, 60);
    } else if m >= 1.0 {
      FloorOfQuotient(us, MinUs);
      TruncOfFloatMod(us, SecUs, 60);
    } else if s >= 1.0 {
      FloorOfQuotient(us, SecUs);
    } else if ms >= 1.0 {
      FloorOfQuotient(us, MsUs);
    }
  }
}
