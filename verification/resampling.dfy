/** Fitting a waveform into a given number of bars (src/waveformmanager.cpp:42-68). */
module Resampling {

  /** The sum of the samples from `from` up to, but not including, `to`. */
  function Sum(waveform: seq<real>, from: nat, to: nat): real
    requires from <= to <= |waveform|
    decreases if from <= to then to - from else 0
  {
    if from == to then 0.0 else Sum(waveform, from, to - 1) + waveform[to - 1]
  }

  /** Scales a value so that 0 is visible. */
  function Visible(value: real): real {
    (value + 0.06) / 1.06
  }

  predicate InUnit(waveform: seq<real>) {
    forall k :: 0 <= k < |waveform| ==> 0.0 <= waveform[k] <= 1.0
  }

  lemma {:induction false} SumBounds(waveform: seq<real>, from: nat, to: nat)
    requires from <= to <= |waveform| && InUnit(waveform)
    ensures 0.0 <= Sum(waveform, from, to) <= (to - from) as real
    decreases if from <= to then to - from else 0
  {
    if from < to {
      SumBounds(waveform, from, to - 1);
    }
  }

  lemma {:induction false} SumSplit(waveform: seq<real>, from: nat, mid: nat, to: nat)
    requires from <= mid <= to <= |waveform|
    ensures Sum(waveform, from, to) == Sum(waveform, from, mid) + Sum(waveform, mid, to)
    decreases if mid <= to then to - mid else 0
  {
    if mid < to {
      SumSplit(waveform, from, mid, to - 1);
    }
  }

  /** A sum over at most as many samples as it is divided by gives a value between 0 and 1. */
  lemma {:induction false} MeanInUnit(sum: real, added: nat, divisor: nat)
    requires 0.0 <= sum <= added as real && added <= divisor && divisor > 0
    ensures 0.0 <= sum / divisor as real <= 1.0
    ensures 0.0 <= Visible(sum / divisor as real) <= 1.0
  {
    var d := divisor as real;
    assert sum <= d && d > 0.0;
    assert sum / d * d == sum;
    assert sum / d <= 1.0;
  }

  /** Bar i of a waveform that is longer than wanted: the mean of a chunk, and for the last bar a sum over the last
      sample and the remainder, divided by the length of the last chunk. */
  function Bar(waveform: seq<real>, count: nat, i: nat): real
    requires 0 <= i < count < |waveform|
  {
    var chunk, remainder := |waveform| / count, |waveform| % count;
    ChunkFits(|waveform|, count, i);
    if i < count - 1 then Visible(Sum(waveform, i * chunk, (i + 1) * chunk) / chunk as real)
    else Visible(Sum(waveform, |waveform| - 1 - remainder, |waveform|) / (chunk + remainder) as real)
  }

  lemma {:induction false} ChunkFits(size: nat, count: nat, i: nat)
    requires i < count < size
    ensures size / count >= 1
    ensures 0 <= i * (size / count) <= (i + 1) * (size / count) <= size
    ensures (i + 1) * (size / count) - i * (size / count) == size / count
    ensures (count - 1) * (size / count) + size / count + size % count == size
  {
    var chunk := size / count;
    assert chunk * count + size % count == size;
    assert (i + 1) * chunk == i * chunk + chunk;
    assert (count - 1) * chunk == count * chunk - chunk;
    var rest := count - (i + 1);
    assert count * chunk == (i + 1) * chunk + rest * chunk;
    assert i * chunk >= 0 && rest * chunk >= 0;
  }

  /** Made visible, the bar stands for the sum of the samples from..to, divided. */
  ghost predicate Shows(bar: real, waveform: seq<real>, from: int, to: int, divisor: int)
  {
    0 <= from <= to <= |waveform| && (bar * 1.06 - 0.06) * divisor as real == Sum(waveform, from, to)
  }

  /** It stands for their mean. */
  ghost predicate ShowsMean(bar: real, waveform: seq<real>, from: int, to: int)
  {
    from < to && Shows(bar, waveform, from, to, to - from)
  }

  lemma {:induction false} Unscaled(sum: real, divisor: real)
    requires divisor > 0.0
    ensures (Visible(sum / divisor) * 1.06 - 0.06) * divisor == sum
  {
    var mean := sum / divisor;
    assert mean * divisor == sum;
    assert Visible(mean) * 1.06 == mean + 0.06;
  }

  /** Each bar but the last stands for the mean of its own chunk, the last one for what it takes of the rest. */
  lemma {:induction false} BarShows(waveform: seq<real>, count: nat, i: nat)
    requires i < count < |waveform|
    ensures var chunk, remainder := |waveform| / count, |waveform| % count;
            if i < count - 1 then ShowsMean(Bar(waveform, count, i), waveform, i * chunk, (i + 1) * chunk)
            else Shows(Bar(waveform, count, i), waveform, |waveform| - 1 - remainder, |waveform|, chunk + remainder)
  {
    var chunk, remainder := |waveform| / count, |waveform| % count;
    ChunkFits(|waveform|, count, i);
    if i < count - 1 {
      Unscaled(Sum(waveform, i * chunk, (i + 1) * chunk), chunk as real);
    } else {
      Unscaled(Sum(waveform, |waveform| - 1 - remainder, |waveform|), (chunk + remainder) as real);
    }
  }

  lemma {:induction false} SumBetween(waveform: seq<real>, from: nat, to: nat, least: real, greatest: real)
    requires from <= to <= |waveform| && forall k :: from <= k < to ==> least <= waveform[k] <= greatest
    ensures least * (to - from) as real <= Sum(waveform, from, to) <= greatest * (to - from) as real
    decreases if from <= to then to - from else 0
  {
    if from == to {
    } else {
      SumBetween(waveform, from, to - 1, least, greatest);
      assert least * (to - from) as real == least * (to - 1 - from) as real + least;
      assert greatest * (to - from) as real == greatest * (to - 1 - from) as real + greatest;
    }
  }

  /** A mean lies between what the least and the greatest sample would be shown as, and is that where they are the
      same. */
  lemma {:induction false} MeanBetween(bar: real, waveform: seq<real>, from: nat, to: nat, least: real, greatest: real)
    requires ShowsMean(bar, waveform, from, to) && forall k :: from <= k < to ==> least <= waveform[k] <= greatest
    ensures Visible(least) <= bar <= Visible(greatest)
  {
    SumBetween(waveform, from, to, least, greatest);
    var mean, n := bar * 1.06 - 0.06, (to - from) as real;
    assert least * n <= mean * n <= greatest * n;
    Cancel(least, mean, n);
    Cancel(mean, greatest, n);
  }

  lemma {:induction false} Cancel(a: real, b: real, n: real)
    requires a * n <= b * n && n > 0.0
    ensures a <= b
  {
    assert (b - a) * n >= 0.0;
  }

  /** The sum depends on its samples alone. */
  lemma {:induction false} SameSum(a: seq<real>, from: nat, to: nat, b: seq<real>, from': nat, to': nat)
    requires from <= to <= |a| && from' <= to' <= |b| && a[from..to] == b[from'..to']
    ensures Sum(a, from, to) == Sum(b, from', to')
    decreases if from <= to then to - from else 0
  {
    assert to - from == |a[from..to]| == |b[from'..to']| == to' - from';
    if from == to {
    } else {
      var n := to - from;
      assert a[to - 1] == a[from..to][n - 1] == b[from'..to'][n - 1] == b[to' - 1];
      assert a[from..to - 1] == a[from..to][..n - 1] == b[from'..to'][..n - 1] == b[from'..to' - 1];
      SameSum(a, from, to - 1, b, from', to' - 1);
    }
  }

  /** So equal chunks of any two waveforms are shown by equal bars. */
  lemma {:induction false} MeanIsLocal(bar: real, a: seq<real>, from: nat, to: nat, bar': real, b: seq<real>,
        from': nat, to': nat)
    requires ShowsMean(bar, a, from, to) && ShowsMean(bar', b, from', to') && a[from..to] == b[from'..to']
    ensures bar == bar'
  {
    SameSum(a, from, to, b, from', to');
    assert |a[from..to]| == to - from && |b[from'..to']| == to' - from';
    var mean, mean', n := bar * 1.06 - 0.06, bar' * 1.06 - 0.06, (to - from) as real;
    assert mean * n == mean' * n;
    Cancel(mean, mean', n);
    Cancel(mean', mean, n);
  }

  method GetWaveformData(waveform: seq<real>, count: int) returns (result: seq<real>)
    ensures count < 1 ==> result == []
    ensures count >= 1 ==> |result| == count
    ensures count >= 1 && count < |waveform| ==> forall i :: 0 <= i < count ==> result[i] == Bar(waveform, count, i)
    ensures 1 <= count < |waveform| ==>
              var chunk, remainder := |waveform| / count, |waveform| % count;
              && (forall i :: 0 <= i < count - 1 ==> ShowsMean(result[i], waveform, i * chunk, (i + 1) * chunk))
              && Shows(result[count - 1], waveform, |waveform| - 1 - remainder, |waveform|, chunk + remainder)
    ensures count >= 1 && count >= |waveform| ==>
              result[..|waveform|] == waveform && forall i :: |waveform| <= i < count ==> result[i] == Visible(0.0)
    ensures InUnit(waveform) ==> InUnit(result)
  {
    if count < 1 {
      return [];
    }
    if |waveform| == count {
      return waveform;
    }
    result := [];
    if |waveform| > count {
      var chunk, remainder := |waveform| / count, |waveform| % count;
      for i := 0 to count - 1
        invariant |result| == i
        invariant forall k :: 0 <= k < i ==> result[k] == Bar(waveform, count, k)
      {
        ChunkFits(|waveform|, count, i);
        var sum := Accumulate(waveform, i * chunk, (i + 1) * chunk);
        result := result + [(sum / chunk as real + 0.06) / 1.06];
      }
      ChunkFits(|waveform|, count, count - 1);
      var sum := Accumulate(waveform, |waveform| - 1 - remainder, |waveform|);
      result := result + [(sum / (chunk + remainder) as real + 0.06) / 1.06];
      forall i | 0 <= i < count - 1 ensures ShowsMean(result[i], waveform, i * chunk, (i + 1) * chunk) {
        BarShows(waveform, count, i);
      }
      BarShows(waveform, count, count - 1);
      if InUnit(waveform) {
        forall k | 0 <= k < count ensures 0.0 <= result[k] <= 1.0 {
          BarInUnit(waveform, count, k);
        }
      }
    } else {
      for i := 0 to |waveform|
        invariant result == waveform[..i]
      {
        result := result + [waveform[i]];
      }
      for i := 0 to count - |waveform|
        invariant |result| == |waveform| + i && result[..|waveform|] == waveform
        invariant forall k :: |waveform| <= k < |result| ==> result[k] == Visible(0.0)
      {
        result := result + [0.06 / 1.06];
      }
      assert forall k :: 0 <= k < |waveform| ==> result[k] == result[..|waveform|][k] == waveform[k];
    }
  }

  method Accumulate(waveform: seq<real>, from: nat, to: nat) returns (sum: real)
    requires from <= to <= |waveform|
    ensures sum == Sum(waveform, from, to)
  {
    sum := 0.0;
    for k := from to to
      invariant sum == Sum(waveform, from, k)
    {
      sum := sum + waveform[k];
    }
  }

  lemma {:induction false} BarInUnit(waveform: seq<real>, count: nat, i: nat)
    requires i < count < |waveform| && InUnit(waveform)
    ensures 0.0 <= Bar(waveform, count, i) <= 1.0
  {
    var chunk, remainder := |waveform| / count, |waveform| % count;
    ChunkFits(|waveform|, count, i);
    if i < count - 1 {
      SumBounds(waveform, i * chunk, (i + 1) * chunk);
      MeanInUnit(Sum(waveform, i * chunk, (i + 1) * chunk), chunk, chunk);
    } else {
      SumBounds(waveform, |waveform| - 1 - remainder, |waveform|);
      MeanInUnit(Sum(waveform, |waveform| - 1 - remainder, |waveform|), 1 + remainder, chunk + remainder);
    }
  }

  /** The samples of the last chunk that its bar leaves out. */
  function Skipped(waveform: seq<real>, count: nat): real
    requires 1 <= count < |waveform|
  {
    ChunkFits(|waveform|, count, count - 1);
    Sum(waveform, (count - 1) * (|waveform| / count), |waveform| - 1 - |waveform| % count)
  }

  /** The last bar is the mean of the last chunk, as the other bars are of theirs, exactly if the samples left out
      add up to nothing. It leaves out all but one of a chunk, and every remaining sample is used. */
  lemma {:induction false} LastBarExact(waveform: seq<real>, count: nat)
    requires 1 <= count < |waveform|
    ensures var chunk, remainder := |waveform| / count, |waveform| % count;
            && 0 <= (count - 1) * chunk
            && var sum, size := Sum(waveform, (count - 1) * chunk, |waveform|), (chunk + remainder) as real;
               Bar(waveform, count, count - 1) == Visible((sum - Skipped(waveform, count)) / size)
               && (Bar(waveform, count, count - 1) == Visible(sum / size) <==> Skipped(waveform, count) == 0.0)
               && (chunk == 1 ==> Skipped(waveform, count) == 0.0)
  {
    var chunk, remainder := |waveform| / count, |waveform| % count;
    ChunkFits(|waveform|, count, count - 1);
    var start, used := (count - 1) * chunk, |waveform| - 1 - remainder;
    SumSplit(waveform, start, used, |waveform|);
    var d := (chunk + remainder) as real;
    var all, part := Sum(waveform, start, |waveform|), Sum(waveform, used, |waveform|);
    assert all / d * d == all && part / d * d == part;
  }

  /** Over a waveform that falls silent only at its very end, the last bar is as low as silence. */
  lemma {:induction false} LastBarMissesLoudness()
    ensures Bar([0.0, 0.0, 1.0, 0.0], 2, 1) == Visible(0.0)
    ensures Skipped([0.0, 0.0, 1.0, 0.0], 2) == 1.0
  {
    var w := [0.0, 0.0, 1.0, 0.0];
    assert Sum(w, 3, 4) == Sum(w, 3, 3) + w[3];
    assert Sum(w, 2, 3) == Sum(w, 2, 2) + w[2];
  }
}
