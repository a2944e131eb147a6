/** Smoothing of landmark positions: for every key, a queue of the most recent
    values (at most `size` of them) and their mean.  averageLandmarkPosition
    returns a closure; here it is an object, and the dictionary of queues the
    closure captures is a field. */
module Smoothing {
  import opened Wrappers

  /** Left-to-right sum, as a fold from 0. */
  function Sum(q: seq<real>): real {
    if q == [] then 0.0 else Sum(q[..|q| - 1]) + q[|q| - 1]
  }

  /** The mean of the queue; None stands for the 0 / 0 of an empty queue. */
  function Mean(q: seq<real>): Option<real> {
    if q == [] then None else Some(Sum(q) / |q| as real)
  }

  function Min(q: seq<real>): (m: real)
    requires q != []
    ensures forall i :: 0 <= i < |q| ==> m <= q[i]
    ensures exists i :: 0 <= i < |q| && q[i] == m
  {
    if |q| == 1 then q[0]
    else
      var rest := Min(q[1..]);
      assert forall i :: 1 <= i < |q| ==> q[i] == q[1..][i - 1];
      if q[0] <= rest then q[0] else rest
  }

  function Max(q: seq<real>): (m: real)
    requires q != []
    ensures forall i :: 0 <= i < |q| ==> q[i] <= m
    ensures exists i :: 0 <= i < |q| && q[i] == m
  {
    if |q| == 1 then q[0]
    else
      var rest := Max(q[1..]);
      assert forall i :: 1 <= i < |q| ==> q[i] == q[1..][i - 1];
      if q[0] >= rest then q[0] else rest
  }

  /** The last min(|s|, n) elements of s, in order (none when n <= 0). */
  function LastN(s: seq<real>, n: int): (r: seq<real>)
    ensures |r| == if n <= 0 then 0 else if |s| <= n then |s| else n
    ensures r == s[|s| - |r|..]
  {
    if n <= 0 then [] else if |s| <= n then s else s[|s| - n..]
  }

  /** One push onto a queue bounded by size: append v, then drop the oldest
      element when the queue is over size. */
  function Pushed(q: seq<real>, v: real, size: int): seq<real> {
    var p := q + [v];
    if |p| > size then p[1..] else p
  }

  /** Pushing onto a queue that holds the last values keeps it holding the
      last values. */
  lemma LastNPush(s: seq<real>, v: real, size: int)
    ensures Pushed(LastN(s, size), v, size) == LastN(s + [v], size)
  {
    if size > 0 && |s| >= size {
      var t := s + [v];
      assert (s[|s| - size..] + [v])[1..] == t[|t| - size..];
    }
  }

  lemma {:induction false} SumBounds(q: seq<real>, lo: real, hi: real)
    requires forall i :: 0 <= i < |q| ==> lo <= q[i] <= hi
    ensures |q| as real * lo <= Sum(q) <= |q| as real * hi
    decreases |q|
  {
    if q != [] {
      var init := q[..|q| - 1];
      assert forall i :: 0 <= i < |init| ==> init[i] == q[i];
      SumBounds(init, lo, hi);
      assert |q| as real * lo == |init| as real * lo + lo;
      assert |q| as real * hi == |init| as real * hi + hi;
    }
  }

  /** The mean of values within [lo, hi] is within [lo, hi]. */
  lemma MeanWithin(q: seq<real>, lo: real, hi: real)
    requires q != [] && forall i :: 0 <= i < |q| ==> lo <= q[i] <= hi
    ensures Mean(q).Some? && lo <= Mean(q).value <= hi
  {
    SumBounds(q, lo, hi);
    DivBounds(Sum(q), |q| as real, lo, hi);
  }

  /** The mean lies between the smallest and the largest queued value. */
  lemma MeanBetween(q: seq<real>)
    requires q != []
    ensures Mean(q).Some?
    ensures Min(q) <= Mean(q).value <= Max(q)
  {
    MeanWithin(q, Min(q), Max(q));
  }

  lemma DivBounds(s: real, n: real, lo: real, hi: real)
    requires n > 0.0 && n * lo <= s <= n * hi
    ensures lo <= s / n <= hi
  {
    assert s / n * n == s;
  }

  /** Every queue holds the last `size` arrivals for its key. */
  ghost predicate Tracks(queues: map<string, seq<real>>, arrivals: map<string, seq<real>>, size: int) {
    queues.Keys == arrivals.Keys
    && forall k :: k in queues ==> queues[k] == LastN(arrivals[k], size)
  }

  /** The queue before a call: the stored one, or empty for a new key. */
  function QueueOf(queues: map<string, seq<real>>, key: string): seq<real> {
    if key in queues then queues[key] else []
  }

  /** Pushing onto a queue that holds the last `size` of some values gives the
      last `size` of those values and the new one; with size >= 1 it holds
      1..size values, and just [value] when there were none before. */
  lemma PushOnto(prior: seq<real>, seen: seq<real>, value: real, size: int)
    requires prior == LastN(seen, size)
    ensures Pushed(prior, value, size) == LastN(seen + [value], size)
    ensures size >= 1 ==> 1 <= |Pushed(prior, value, size)| <= size
    ensures size >= 1 && seen == [] ==> Pushed(prior, value, size) == [value]
  {
    LastNPush(seen, value, size);
  }

  /** Replacing one key's arrivals and its queue by their last `size` keeps
      every queue tracking its arrivals. */
  lemma TracksUpdate(queues: map<string, seq<real>>, arrivals: map<string, seq<real>>, size: int,
                     key: string, seen: seq<real>)
    requires Tracks(queues, arrivals, size)
    ensures Tracks(queues[key := LastN(seen, size)], arrivals[key := seen], size)
  {
  }

  lemma Overwrite<K, V>(m: map<K, V>, k: K, a: V, b: V)
    ensures m[k := a][k := b] == m[k := b]
  {
  }

  /** The mean of a single value is that value. */
  lemma MeanSingle(v: real)
    ensures Mean([v]) == Some(v)
  {
    assert [v][..0] == [];
    assert Sum([v]) == Sum([]) + v;
    assert Sum([v]) / 1.0 == v;
  }

  /** The state behind one `averageLandmarkPosition(size)` closure. */
  class LandmarkSmoother {
    const size: int
    var queues: map<string, seq<real>>
    /** Every value ever passed in for each key, oldest first. */
    ghost var arrivals: map<string, seq<real>>

    ghost predicate Valid()
      reads this
    {
      Tracks(queues, arrivals, size)
    }

    constructor (size: int)
      ensures Valid() && this.size == size
      ensures queues == map[] && arrivals == map[]
    {
      this.size := size;
      queues := map[];
      arrivals := map[];
    }

    /** Records value under key and returns the mean of key's queue. */
    method Average(key: string, value: real) returns (avg: Option<real>)
      requires Valid()
      modifies this
      ensures Valid()
      ensures arrivals == old(arrivals)[key := QueueOf(old(arrivals), key) + [value]]
      ensures queues == old(queues)[key := Pushed(QueueOf(old(queues), key), value, size)]
      ensures queues[key] == LastN(arrivals[key], size)
      ensures avg == Mean(queues[key])
      ensures size >= 1 ==> 1 <= |queues[key]| <= size && avg.Some?
                            && Min(queues[key]) <= avg.value <= Max(queues[key])
      ensures size >= 1 && key !in old(queues) ==> queues[key] == [value] && avg == Some(value)
    {
      ghost var before := queues;
      ghost var seen := QueueOf(arrivals, key);
      PushOnto(QueueOf(queues, key), seen, value, size);
      TracksUpdate(queues, arrivals, size, key, seen + [value]);
      if key !in queues {
        queues := queues[key := []];
      }
      var queue := queues[key];
      queue := queue + [value];
      if |queue| > size {
        queue := queue[1..];
      }
      assert queue == Pushed(QueueOf(before, key), value, size);
      if key !in before {
        Overwrite(before, key, [], queue);
      }
      queues := queues[key := queue];
      arrivals := arrivals[key := seen + [value]];
      var sum := Sum(queue);
      if |queue| == 0 {
        avg := None;
      } else {
        avg := Some(sum / |queue| as real);
        MeanBetween(queue);
        if queue == [value] {
          MeanSingle(value);
        }
      }
    }
  }
}
