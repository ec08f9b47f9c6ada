/** Random cooldowns: unbiased bounded draws and the exact arithmetic around them (internal/algorithm.go). */
module Algorithm {
  import opened Division

  type uint64 = v: int | 0 <= v < 0x1_0000_0000_0000_0000
  type int64 = v: int | -0x8000_0000_0000_0000 <= v < 0x8000_0000_0000_0000

  const MAX_INT64: int64 := 0x7fff_ffff_ffff_ffff
  const MAX_UINT64: uint64 := 0xffff_ffff_ffff_ffff

  /** uint64 arithmetic keeps the low 64 bits; also of negative numbers. */
  function Wrap64(x: int): uint64
  {
    x % 0x1_0000_0000_0000_0000
  }

  /** Conversion of a 64-bit pattern to int64. */
  function Signed64(x: int): int64
  {
    var low := x % 0x1_0000_0000_0000_0000;
    if low < 0x8000_0000_0000_0000 then low else low - 0x1_0000_0000_0000_0000
  }

  // ----- bounded draws -----

  /** The values below the threshold are drawn again. */
  function Threshold(size: nat): nat
    requires size > 0
  {
    0x1_0000_0000_0000_0000 % size
  }

  predicate Accepted(size: nat, value: uint64)
    requires size > 0
  {
    value >= Threshold(size)
  }

  /** In 64-bit arithmetic, negating before taking the remainder gives the remainder of 2^64. */
  lemma NegatedRemainder(size: uint64)
    requires size > 0
    ensures Wrap64(-(size as int)) % size == Threshold(size)
  {
    var s: int := size;
    var k := 0x1_0000_0000_0000_0000 / s;
    Euclid(0x1_0000_0000_0000_0000, s);
    assert Wrap64(-s) == 0x1_0000_0000_0000_0000 - s;
    assert 0x1_0000_0000_0000_0000 - s == s * (k - 1) + Threshold(size);
    Remainder(0x1_0000_0000_0000_0000 - s, s, k - 1, Threshold(size));
  }

  /** The first accepted value of a stream at or after position i, if the stream has one. */
  function FirstAccepted(size: nat, stream: seq<uint64>, i: nat): (k: nat)
    requires size > 0 && i <= |stream|
    ensures i <= k <= |stream|
    ensures k < |stream| ==> Accepted(size, stream[k])
    ensures forall j :: i <= j < k ==> !Accepted(size, stream[j])
    decreases |stream| - i
  {
    if i == |stream| || Accepted(size, stream[i]) then i else FirstAccepted(size, stream, i + 1)
  }

  /**
  randomUint64Inclusive on the 64-bit values that the generator will give. ok is false when the stream
  ends before a value is accepted; used is the number of values taken.
  */
  method RandomUint64Inclusive(max: uint64, stream: seq<uint64>) returns (ok: bool, value: uint64, used: nat)
    ensures max == MAX_UINT64 ==> ok == (stream != []) && (ok ==> value == stream[0] && used == 1)
    ensures max < MAX_UINT64 ==>
              var k := FirstAccepted(max + 1, stream, 0);
              && ok == (k < |stream|)
              && (ok ==> value == stream[k] % (max + 1) && used == k + 1)
    ensures ok ==> value <= max
  {
    if max == MAX_UINT64 {
      if stream == [] {
        return false, 0, 0;
      }
      return true, stream[0], 1;
    }
    var size: uint64 := max + 1;
    NegatedRemainder(size);
    var threshold := Wrap64(-(size as int)) % size;
    used := 0;
    while used < |stream|
      invariant used <= |stream|
      invariant forall j :: 0 <= j < used ==> !Accepted(size, stream[j])
    {
      var drawn := stream[used];
      used := used + 1;
      if drawn >= threshold {
        var k := FirstAccepted(size, stream, 0);
        assert k == used - 1;
        return true, drawn % size, used;
      }
    }
    assert FirstAccepted(size, stream, 0) == |stream|;
    return false, 0, used;
  }

  // ----- no result is favoured -----

  /** The accepted 64-bit values that give result r. */
  ghost function Preimages(size: nat, r: nat): set<int>
    requires size > 0
  {
    set v: int | 0 <= v < 0x1_0000_0000_0000_0000 && v >= Threshold(size) && v % size == r
  }

  /** The arithmetic progression start, start + step, ... of n terms. */
  ghost function Progression(start: int, step: int, n: nat): set<int>
    decreases n
  {
    if n == 0 then {} else Progression(start, step, n - 1) + {start + step * (n - 1)}
  }

  lemma {:induction false} ProgressionMembers(start: int, step: int, n: nat, v: int)
    requires step > 0
    ensures v in Progression(start, step, n) <==> exists k :: 0 <= k < n && v == start + step * k
    decreases n
  {
    if n > 0 {
      ProgressionMembers(start, step, n - 1, v);
      if v in Progression(start, step, n - 1) {
        var k :| 0 <= k < n - 1 && v == start + step * k;
        assert 0 <= k < n && v == start + step * k;
      } else if v == start + step * (n - 1) {
        assert 0 <= n - 1 < n && v == start + step * (n - 1);
      }
    }
  }

  lemma {:induction false} ProgressionBelow(start: int, step: int, n: nat, v: int)
    requires step > 0 && v in Progression(start, step, n)
    ensures v < start + step * n
    decreases n
  {
    Distribute(step, n, n - 1);
    if v in Progression(start, step, n - 1) {
      ProgressionBelow(start, step, n - 1, v);
    }
  }

  lemma {:induction false} ProgressionSize(start: int, step: int, n: nat)
    requires step > 0
    ensures |Progression(start, step, n)| == n
    decreases n
  {
    if n > 0 {
      ProgressionSize(start, step, n - 1);
      if start + step * (n - 1) in Progression(start, step, n - 1) {
        ProgressionBelow(start, step, n - 1, start + step * (n - 1));
      }
    }
  }

  /** The smallest value from the threshold on that is congruent to r. */
  function FirstPreimage(size: nat, r: nat): int
    requires r < size
  {
    if r >= Threshold(size) then r else size + r
  }

  lemma PreimageIsTerm(size: nat, r: nat, v: int)
    requires r < size <= 0x1_0000_0000_0000_0000
    requires v in Preimages(size, r)
    ensures exists k :: 0 <= k < 0x1_0000_0000_0000_0000 / size && v == FirstPreimage(size, r) + size * k
  {
    var t := Threshold(size);
    var n := 0x1_0000_0000_0000_0000 / size;
    var q := v / size;
    Euclid(0x1_0000_0000_0000_0000, size);
    Euclid(v, size);
    QuotientBounds(v, size, q, r, n, t);
    Distribute(size, q, 1);
    var k := if r >= t then q else q - 1;
    assert 0 <= k < n && v == FirstPreimage(size, r) + size * k;
  }

  lemma TermIsPreimage(size: nat, r: nat, k: int)
    requires r < size <= 0x1_0000_0000_0000_0000
    requires 0 <= k < 0x1_0000_0000_0000_0000 / size
    ensures FirstPreimage(size, r) + size * k in Preimages(size, r)
  {
    var t := Threshold(size);
    var n := 0x1_0000_0000_0000_0000 / size;
    var v := FirstPreimage(size, r) + size * k;
    var q := if r >= t then k else k + 1;
    Euclid(0x1_0000_0000_0000_0000, size);
    Distribute(size, k + 1, 1);
    assert v == size * q + r;
    Remainder(v, size, q, r);
    TermBounds(size, r, n, t, q);
  }

  lemma QuotientBounds(v: int, size: int, q: int, r: int, n: int, t: int)
    requires 0 < size && v == size * q + r && 0 <= r < size && 0 <= t < size && t <= v < size * n + t
    ensures if r >= t then 0 <= q < n else 1 <= q <= n
  {
    if r >= t {
      if q >= n {
        MulMonotone(size, n, q);
      }
      if q < 0 {
        MulMonotone(size, q, -1);
      }
    } else {
      if q <= 0 {
        MulMonotone(size, q, 0);
      }
      if q >= n + 1 {
        MulMonotone(size, n + 1, q);
      }
    }
  }

  lemma TermBounds(size: int, r: int, n: int, t: int, q: int)
    requires 0 < size && 0 <= r < size && 0 <= t < size
    requires if r >= t then 0 <= q < n else 1 <= q <= n
    ensures t <= size * q + r < size * n + t
  {
    if r >= t {
      MulMonotone(size, 0, q);
      MulMonotone(size, q, n - 1);
    } else {
      MulMonotone(size, 1, q);
      MulMonotone(size, q, n);
    }
  }

  /** Rejection sampling has no bias: every result has exactly floor(2^64 / size) accepted preimages. */
  lemma DrawIsUniform(size: nat, r: nat)
    requires r < size <= 0x1_0000_0000_0000_0000
    ensures |Preimages(size, r)| == 0x1_0000_0000_0000_0000 / size
  {
    var n := 0x1_0000_0000_0000_0000 / size;
    var first := FirstPreimage(size, r);
    hide Preimages, FirstPreimage;
    forall v
      ensures v in Preimages(size, r) <==> v in Progression(first, size, n)
    {
      ProgressionMembers(first, size, n, v);
      if v in Preimages(size, r) {
        PreimageIsTerm(size, r, v);
      }
      if k :| 0 <= k < n && v == first + size * k {
        TermIsPreimage(size, r, k);
      }
    }
    assert Preimages(size, r) == Progression(first, size, n);
    ProgressionSize(first, size, n);
  }

  /** More than half of all 64-bit values are accepted, so a draw is repeated less than once on average. */
  lemma MostValuesAreAccepted(size: nat)
    requires 0 < size <= 0x1_0000_0000_0000_0000
    ensures 2 * (0x1_0000_0000_0000_0000 - Threshold(size)) > 0x1_0000_0000_0000_0000
  {
    var n := 0x1_0000_0000_0000_0000 / size;
    Euclid(0x1_0000_0000_0000_0000, size);
    assert n >= 1;
    MulMonotone(size, 1, n);
  }

  // ----- the algorithms -----

  datatype Algorithm =
    | Fixed(cooldown: int64)
    | Random(min: int64, max: int64)
    | Jitter(base: int64, jitter: int64)

  function NonNegative(d: int64): int64
  {
    if d < 0 then 0 else d
  }

  /** The largest value the algorithm asks the generator for, or None when it does not draw. */
  function DrawLimit(a: Algorithm): (r: int)
  {
    match a
    case Fixed(_) => -1
    case Random(min, max) => if max <= NonNegative(min) then -1 else Wrap64(max - NonNegative(min))
    case Jitter(base, jitter) => if jitter <= 0 then -1 else Wrap64(jitter * 2)
  }

  /** Next, with raw for the bounded draw and the source's 64-bit conversions written out. */
  function Next(a: Algorithm, raw: uint64): int64
  {
    match a
    case Fixed(cooldown) => cooldown
    case Random(min0, max) =>
      var min := NonNegative(min0);
      if max <= min then min
      else Signed64(min + Signed64(raw))
    case Jitter(base0, jitter0) =>
      var base := NonNegative(base0);
      if jitter0 <= 0 then base
      else
        var jitter := Wrap64(jitter0);
        if raw <= jitter then
          var negativeOffset := Wrap64(jitter - raw);
          if negativeOffset >= Wrap64(base) then 0 else Signed64(base - Signed64(negativeOffset))
        else
          var positiveOffset := Wrap64(raw - jitter);
          var maxPositiveOffset := Wrap64(MAX_INT64 - base);
          if positiveOffset > maxPositiveOffset then MAX_INT64 else Signed64(base + Signed64(positiveOffset))
  }

  function Clamp(x: int, low: int, high: int): int
  {
    if x < low then low else if x > high then high else x
  }

  lemma Signed64Id(x: int64)
    ensures Signed64(x) == x
  {
  }

  lemma Wrap64Id(x: uint64)
    ensures Wrap64(x) == x
  {
  }

  /** No wrap-around anywhere: jitter is the exact integer offset clamped to the range of a duration. */
  lemma JitterIsExact(base: int64, jitter: int64, raw: uint64)
    requires jitter > 0 && raw <= 2 * jitter
    ensures DrawLimit(Jitter(base, jitter)) == 2 * jitter
    ensures Next(Jitter(base, jitter), raw) == Clamp(NonNegative(base) - jitter + raw, 0, MAX_INT64)
  {
    hide Signed64, Wrap64;
    var b: int := NonNegative(base);
    Wrap64Id(2 * jitter);
    Wrap64Id(jitter);
    Wrap64Id(b);
    if raw <= jitter {
      Wrap64Id(jitter - raw);
      Signed64Id(jitter - raw);
      if jitter - raw < b {
        Signed64Id(b - (jitter - raw));
      }
    } else {
      Wrap64Id(raw - jitter);
      Signed64Id(raw - jitter);
      Wrap64Id(MAX_INT64 - b);
      if raw - jitter <= MAX_INT64 - b {
        Signed64Id(b + (raw - jitter));
      }
    }
  }

  /** Each offset in [-jitter, jitter] is one draw, which comes from 2^64 in equally many ways as any other. */
  lemma JitterIsUniform(base: int64, jitter: int64, offset: int)
    requires jitter > 0 && -jitter <= offset <= jitter
    ensures Next(Jitter(base, jitter), jitter + offset) == Clamp(NonNegative(base) + offset, 0, MAX_INT64)
    ensures |Preimages(DrawLimit(Jitter(base, jitter)) + 1, jitter + offset)|
            == 0x1_0000_0000_0000_0000 / (2 * jitter + 1)
  {
    hide Signed64, Wrap64, Preimages, Next;
    JitterIsExact(base, jitter, jitter + offset);
    DrawIsUniform(2 * jitter + 1, jitter + offset);
  }

  /** No wrap-around here either, for all bounds: the draw is added to the lower one, or to zero if that is negative. */
  lemma RandomIsExact(min: int64, max: int64, raw: uint64)
    ensures var low: int := if min < 0 then 0 else min;
            if max <= low then DrawLimit(Random(min, max)) < 0 && Next(Random(min, max), raw) == low
            else
              && DrawLimit(Random(min, max)) == max - low
              && (raw <= max - low ==> Next(Random(min, max), raw) == low + raw)
  {
    hide Signed64, Wrap64;
    var low: int := NonNegative(min);
    if max > low {
      Wrap64Id(max - low);
      if raw <= max - low {
        Signed64Id(raw);
        Signed64Id(low + raw);
      }
    }
  }

  /** Every duration of [min, max] is drawn in equally many ways, and no sum overflows. */
  lemma RandomIsUniform(min: int64, max: int64, d: int)
    requires 0 <= min < max && min <= d <= max
    ensures DrawLimit(Random(min, max)) == max - min
    ensures Next(Random(min, max), d - min) == d
    ensures forall raw: uint64 :: raw <= max - min && Next(Random(min, max), raw) == d ==> raw == d - min
    ensures |Preimages(max - min + 1, d - min)| == 0x1_0000_0000_0000_0000 / (max - min + 1)
  {
    hide Signed64, Wrap64, Preimages;
    RandomIsExact(min, max, 0);
    forall raw: uint64 | raw <= max - min
      ensures Next(Random(min, max), raw) == min + raw
    {
      RandomIsExact(min, max, raw);
    }
    DrawIsUniform(max - min + 1, d - min);
  }

  // ----- configuration -----

  datatype NewResult = Built(algorithm: Algorithm) | Rejected

  function NewAlgorithm(mode: string, cooldown: int64, minDelay: int64, maxDelay: int64, jitter: int64): NewResult
  {
    if mode == "fixed" then
      if cooldown < 0 then Rejected else Built(Fixed(cooldown))
    else if mode == "random" then
      if minDelay < 0 then Rejected
      else if maxDelay < minDelay then Rejected
      else Built(Random(minDelay, maxDelay))
    else if mode == "jitter" then
      if cooldown < 0 then Rejected
      else if jitter < 0 then Rejected
      else Built(Jitter(cooldown, jitter))
    else Rejected
  }

  /** The longest and the shortest cooldown that the algorithm can draw. */
  function Longest(a: Algorithm): int
  {
    match a
    case Fixed(cooldown) => cooldown
    case Random(min, max) => max
    case Jitter(base, jitter) => if base + jitter > MAX_INT64 then MAX_INT64 else base + jitter
  }

  function Shortest(a: Algorithm): int
  {
    match a
    case Fixed(cooldown) => cooldown
    case Random(min, max) => min
    case Jitter(base, jitter) => if base < jitter then 0 else base - jitter
  }

  /** What a validated algorithm draws lies between its extremes, and both extremes are drawn. */
  lemma NextIsBounded(mode: string, cooldown: int64, minDelay: int64, maxDelay: int64, jitter: int64, raw: uint64)
    requires NewAlgorithm(mode, cooldown, minDelay, maxDelay, jitter).Built?
    ensures var a := NewAlgorithm(mode, cooldown, minDelay, maxDelay, jitter).algorithm;
            && (raw <= DrawLimit(a) || DrawLimit(a) < 0 ==> 0 <= Shortest(a) <= Next(a, raw) <= Longest(a))
            && Next(a, 0) == Shortest(a)
            && (DrawLimit(a) >= 0 ==> DrawLimit(a) <= MAX_UINT64 && Next(a, DrawLimit(a)) == Longest(a))
            && (DrawLimit(a) < 0 ==> Longest(a) == Shortest(a))
  {
    hide Signed64, Wrap64;
    match NewAlgorithm(mode, cooldown, minDelay, maxDelay, jitter).algorithm
    case Fixed(_) =>
    case Random(min, max) =>
      if min < max {
        Wrap64Id(max - min);
        RandomIsExact(min, max, 0);
        RandomIsExact(min, max, max - min);
        RandomIsExact(min, max, raw);
      }
    case Jitter(base, j) =>
      if j > 0 {
        JitterIsExact(base, j, 0);
        JitterIsExact(base, j, 2 * j);
        if raw <= 2 * j {
          JitterIsExact(base, j, raw);
        }
      }
  }

  /** The algorithm can give the cooldown d. */
  ghost predicate Gives(a: Algorithm, d: int)
  {
    exists raw: uint64 :: (DrawLimit(a) < 0 || raw <= DrawLimit(a)) && Next(a, raw) == d
  }

  /** A configuration is accepted exactly if its own values are not negative and its bounds are in order. */
  lemma AcceptedExactly(mode: string, cooldown: int64, minDelay: int64, maxDelay: int64, jitter: int64)
    ensures NewAlgorithm(mode, cooldown, minDelay, maxDelay, jitter).Built?
            <==> || (mode == "fixed" && 0 <= cooldown)
                 || (mode == "random" && 0 <= minDelay <= maxDelay)
                 || (mode == "jitter" && 0 <= cooldown && 0 <= jitter)
  {
  }

  /** What an accepted configuration asks the generator for and makes of its answer, in its own values. */
  lemma ConfiguredExactly(mode: string, cooldown: int64, minDelay: int64, maxDelay: int64, jitter: int64, raw: uint64)
    requires NewAlgorithm(mode, cooldown, minDelay, maxDelay, jitter).Built?
    ensures var a := NewAlgorithm(mode, cooldown, minDelay, maxDelay, jitter).algorithm;
            && (mode == "fixed" ==> DrawLimit(a) < 0 && Next(a, raw) == cooldown)
            && (mode == "random" && minDelay == maxDelay ==> DrawLimit(a) < 0 && Next(a, raw) == minDelay)
            && (mode == "random" && minDelay < maxDelay ==>
                  DrawLimit(a) == maxDelay - minDelay
                    && (raw <= maxDelay - minDelay ==> Next(a, raw) == minDelay + raw))
            && (mode == "jitter" && jitter == 0 ==> DrawLimit(a) < 0 && Next(a, raw) == cooldown)
            && (mode == "jitter" && jitter > 0 ==>
                  && DrawLimit(a) == 2 * jitter
                  && (raw <= 2 * jitter ==> Next(a, raw) == Clamp(cooldown - jitter + raw, 0, MAX_INT64)))
  {
    hide Signed64, Wrap64;
    if mode == "random" && minDelay < maxDelay {
      RandomIsExact(minDelay, maxDelay, raw);
    } else if mode == "jitter" && jitter > 0 {
      JitterIsExact(cooldown, jitter, 0);
      if raw <= 2 * jitter {
        JitterIsExact(cooldown, jitter, raw);
      }
    }
  }

  /** Exactly the cooldowns that an accepted configuration can give, in its own values. */
  lemma GivesExactly(mode: string, cooldown: int64, minDelay: int64, maxDelay: int64, jitter: int64, d: int)
    requires NewAlgorithm(mode, cooldown, minDelay, maxDelay, jitter).Built?
    ensures Gives(NewAlgorithm(mode, cooldown, minDelay, maxDelay, jitter).algorithm, d)
            <==> || (mode == "fixed" && d == cooldown)
                 || (mode == "random" && minDelay <= d <= maxDelay)
                 || (mode == "jitter" && 0 <= d <= MAX_INT64 && cooldown - jitter <= d <= cooldown + jitter)
  {
    var a := NewAlgorithm(mode, cooldown, minDelay, maxDelay, jitter).algorithm;
    forall raw: uint64 | Next(a, raw) == d && (DrawLimit(a) < 0 || raw <= DrawLimit(a))
      ensures || (mode == "fixed" && d == cooldown)
              || (mode == "random" && minDelay <= d <= maxDelay)
              || (mode == "jitter" && 0 <= d <= MAX_INT64 && cooldown - jitter <= d <= cooldown + jitter)
    {
      ConfiguredExactly(mode, cooldown, minDelay, maxDelay, jitter, raw);
      hide Next, DrawLimit;
    }
    var raw :=
      if mode == "random" && minDelay <= d <= maxDelay then d - minDelay
      else if mode == "jitter" && cooldown - jitter <= d <= cooldown + jitter then d - cooldown + jitter
      else 0;
    AcceptedExactly(mode, cooldown, minDelay, maxDelay, jitter);
    ConfiguredExactly(mode, cooldown, minDelay, maxDelay, jitter, raw);
    hide Next, DrawLimit, NewAlgorithm;
  }
}
