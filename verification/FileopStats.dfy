/** The statistics of one kind of operation, over exact times. */
module FileopStats {
  function Sum(samples: seq<real>): real {
    if samples == [] then 0.0 else Sum(samples[..|samples| - 1]) + samples[|samples| - 1]
  }

  function Least(samples: seq<real>, sentinel: real): real {
    if samples == [] then sentinel
    else
      var m, s := Least(samples[..|samples| - 1], sentinel), samples[|samples| - 1];
      if s < m then s else m
  }

  function Most(samples: seq<real>): real {
    if samples == [] then 0.0
    else
      var m, s := Most(samples[..|samples| - 1]), samples[|samples| - 1];
      if s > m then s else m
  }

  lemma OneMore(samples: seq<real>, s: real, sentinel: real)
    ensures Sum(samples + [s]) == Sum(samples) + s
    ensures Least(samples + [s], sentinel) == if s < Least(samples, sentinel) then s else Least(samples, sentinel)
    ensures Most(samples + [s]) == if s > Most(samples) then s else Most(samples)
  {
    assert (samples + [s])[..|samples|] == samples;
  }

  class Stat {
    var best: real
    var worst: real
    var total: real
    var counter: nat
    ghost var sentinel: real
    ghost var samples: seq<real>

    ghost predicate Valid()
      reads this
    {
      && best == Least(samples, sentinel) && worst == Most(samples)
      && total == Sum(samples) && counter == |samples| && forall i :: 0 <= i < |samples| ==> samples[i] >= 0.0
    }

    /** clear_stats, and the two assignments each test begins with. */
    constructor (sentinel: real)
      ensures Valid() && samples == [] && this.sentinel == sentinel
    {
      best, worst, total, counter := sentinel, 0.0, 0.0, 0;
      samples, this.sentinel := [], sentinel;
    }

    /** What the report says of the samples. */
    ghost predicate Reported()
      reads this
    {
      && counter == |samples|
      && (forall i :: 0 <= i < |samples| ==> best <= samples[i] <= worst)
      && counter as real * best <= total <= counter as real * worst
      && ((exists i :: 0 <= i < |samples| && samples[i] < sentinel) ==> best in samples)
    }

    lemma ReportIsTrue()
      requires Valid()
      ensures Reported()
    {
      Bounds(samples, sentinel);
    }

    /** The lines repeated after every timed call. */
    method Record(elapsed: real)
      requires Valid()
      modifies this
      ensures Valid() && sentinel == old(sentinel)
      ensures samples == old(samples) + [if elapsed < 0.0 then 0.0 else elapsed]
    {
      hide Sum, Least, Most;
      var speed := elapsed;
      if speed < 0.0 {
        speed := 0.0;
      }
      total := total + speed;
      counter := counter + 1;
      if speed < best {
        best := speed;
      }
      if speed > worst {
        worst := speed;
      }
      OneMore(samples, speed, sentinel);
      samples := samples + [speed];
    }
  }

  lemma {:induction false} Extremes(samples: seq<real>, sentinel: real)
    ensures forall i :: 0 <= i < |samples| ==> Least(samples, sentinel) <= samples[i] <= Most(samples)
    ensures Least(samples, sentinel) == sentinel || Least(samples, sentinel) in samples
  {
    if samples != [] {
      var rest := samples[..|samples| - 1];
      Extremes(rest, sentinel);
      assert forall i :: 0 <= i < |samples| - 1 ==> samples[i] == rest[i];
      assert Least(rest, sentinel) in rest ==> Least(rest, sentinel) in samples;
    }
  }

  lemma Products(n: real, a: real, b: real)
    requires n >= 0.0 && a <= b
    ensures n * a <= n * b
    ensures (n + 1.0) * a == n * a + a && (n + 1.0) * b == n * b + b
  {
    assert n * (b - a) >= 0.0;
  }

  lemma {:induction false} MeanAtLeast(samples: seq<real>, sentinel: real)
    ensures |samples| as real * Least(samples, sentinel) <= Sum(samples)
  {
    if samples != [] {
      var rest := samples[..|samples| - 1];
      MeanAtLeast(rest, sentinel);
      Products(|rest| as real, Least(samples, sentinel), Least(rest, sentinel));
      assert |samples| as real == |rest| as real + 1.0;
    }
  }

  lemma {:induction false} MeanAtMost(samples: seq<real>)
    ensures Sum(samples) <= |samples| as real * Most(samples)
  {
    if samples != [] {
      var rest := samples[..|samples| - 1];
      MeanAtMost(rest);
      Products(|rest| as real, Most(rest), Most(samples));
      assert |samples| as real == |rest| as real + 1.0;
    }
  }

  /** No sample is below the best or above the worst, and the mean lies between them; the best is
      one of the samples as soon as one is below the sentinel. */
  lemma Bounds(samples: seq<real>, sentinel: real)
    ensures var best, worst := Least(samples, sentinel), Most(samples);
            && (forall i :: 0 <= i < |samples| ==> best <= samples[i] <= worst)
            && |samples| as real * best <= Sum(samples) <= |samples| as real * worst
            && ((exists i :: 0 <= i < |samples| && samples[i] < sentinel) ==> best in samples)
  {
    Extremes(samples, sentinel);
    MeanAtLeast(samples, sentinel);
    MeanAtMost(samples);
  }
}
