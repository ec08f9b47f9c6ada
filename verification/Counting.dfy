/** How many events of a spaced sequence fit into a window of time. */
module Counting {
  import opened Division

  /** Later times are at least gap after every earlier one. */
  ghost predicate Spaced(times: seq<int>, gap: int)
  {
    forall i, j :: 0 <= i < j < |times| ==> times[j] - times[i] >= gap
  }

  lemma SpacedSnoc(times: seq<int>, gap: int, t: int)
    requires gap > 0 && Spaced(times, gap) && (times != [] ==> t - times[|times| - 1] >= gap)
    ensures Spaced(times + [t], gap)
  {
  }

  /** The number of times in the closed window [low, high]. */
  function CountIn(times: seq<int>, low: int, high: int): nat
  {
    if times == [] then 0
    else CountIn(times[..|times| - 1], low, high) + if low <= times[|times| - 1] <= high then 1 else 0
  }

  lemma {:induction false} LowerHigh(times: seq<int>, low: int, high: int, high': int)
    requires high' <= high && forall i :: 0 <= i < |times| ==> times[i] <= high'
    ensures CountIn(times, low, high) == CountIn(times, low, high')
  {
    if times != [] {
      LowerHigh(times[..|times| - 1], low, high, high');
    }
  }

  /** Each further event in the window costs a whole gap. */
  lemma {:induction false} GapsFit(times: seq<int>, gap: int, low: int, high: int)
    requires gap > 0 && Spaced(times, gap) && CountIn(times, low, high) > 0
    ensures gap * (CountIn(times, low, high) - 1) <= high - low
  {
    var before, last := times[..|times| - 1], times[|times| - 1];
    if low <= last <= high {
      LowerHigh(before, low, high, last - gap);
      var m := CountIn(before, low, high);
      if m > 0 {
        GapsFit(before, gap, low, last - gap);
        Distribute(gap, m, m - 1);
      }
    } else {
      GapsFit(before, gap, low, high);
    }
  }

  /** A closed window of length T holds at most 1 + floor(T / gap) of them. */
  lemma WindowBound(times: seq<int>, gap: int, low: int, high: int)
    requires gap > 0 && low <= high && Spaced(times, gap)
    ensures CountIn(times, low, high) <= 1 + (high - low) / gap
  {
    if CountIn(times, low, high) > 0 {
      GapsFit(times, gap, low, high);
      QuotientBound(high - low, gap, CountIn(times, low, high) - 1);
    }
  }

  lemma {:induction false} SubsetSize<T>(a: set<T>, b: set<T>)
    requires a <= b
    ensures |a| <= |b|
    decreases |a|
  {
    if x :| x in a {
      SubsetSize(a - {x}, b - {x});
    }
  }
}
