/** What the build-timings summary computes: how long each concurrency sample held, and the longest chain of units. */
module Timings {

  // ----- a stable sort by a key -----

  function Insert<T>(x: T, xs: seq<T>, key: T -> real): seq<T> {
    if xs == [] || key(x) <= key(xs[0]) then [x] + xs else [xs[0]] + Insert(x, xs[1..], key)
  }

  function SortBy<T>(xs: seq<T>, key: T -> real): seq<T> {
    if xs == [] then [] else Insert(xs[0], SortBy(xs[1..], key), key)
  }

  ghost predicate Sorted<T>(xs: seq<T>, key: T -> real) {
    forall i, j :: 0 <= i < j < |xs| ==> key(xs[i]) <= key(xs[j])
  }

  function Picked<T>(x: T, key: T -> real, k: real): seq<T> {
    if key(x) == k then [x] else []
  }

  /** The elements with a given key, in order. */
  function WithKey<T>(xs: seq<T>, key: T -> real, k: real): seq<T> {
    if xs == [] then []
    else Picked(xs[0], key, k) + WithKey(xs[1..], key, k)
  }

  lemma {:induction false} InsertElements<T>(x: T, xs: seq<T>, key: T -> real)
    ensures multiset(Insert(x, xs, key)) == multiset{x} + multiset(xs)
  {
    if xs != [] && key(xs[0]) < key(x) {
      InsertElements(x, xs[1..], key);
      assert xs == [xs[0]] + xs[1..];
    }
  }

  lemma {:induction false} InsertSorted<T>(x: T, xs: seq<T>, key: T -> real)
    requires Sorted(xs, key)
    ensures Sorted(Insert(x, xs, key), key)
  {
    if xs != [] && key(xs[0]) < key(x) {
      InsertSorted(x, xs[1..], key);
      InsertElements(x, xs[1..], key);
      var rest := Insert(x, xs[1..], key);
      forall i | 0 <= i < |rest|
        ensures key(xs[0]) <= key(rest[i])
      {
        assert rest[i] in multiset(rest);
      }
    }
  }

  lemma {:induction false} WithKeyCons<T>(x: T, xs: seq<T>, key: T -> real, k: real)
    ensures WithKey([x] + xs, key, k) == Picked(x, key, k) + WithKey(xs, key, k)
  {
    assert ([x] + xs)[1..] == xs;
  }

  lemma {:induction false} InsertKeepsOrder<T>(x: T, xs: seq<T>, key: T -> real, k: real)
    ensures WithKey(Insert(x, xs, key), key, k) == Picked(x, key, k) + WithKey(xs, key, k)
  {
    if xs == [] || key(x) <= key(xs[0]) {
      WithKeyCons(x, xs, key, k);
    } else {
      hide WithKey;
      InsertKeepsOrder(x, xs[1..], key, k);
      WithKeyCons(xs[0], Insert(x, xs[1..], key), key, k);
      WithKeyCons(xs[0], xs[1..], key, k);
      assert [xs[0]] + xs[1..] == xs;
    }
  }

  /** The sort keeps every element, orders the keys, and keeps the order of elements with equal keys. */
  lemma {:induction false} SortIsStable<T>(xs: seq<T>, key: T -> real, k: real)
    ensures Sorted(SortBy(xs, key), key) && multiset(SortBy(xs, key)) == multiset(xs)
    ensures WithKey(SortBy(xs, key), key, k) == WithKey(xs, key, k)
  {
    if xs != [] {
      hide Insert, Sorted, WithKey;
      SortIsStable(xs[1..], key, k);
      WithKeyCons(xs[0], xs[1..], key, k);
      InsertSorted(xs[0], SortBy(xs[1..], key), key);
      InsertElements(xs[0], SortBy(xs[1..], key), key);
      InsertKeepsOrder(xs[0], SortBy(xs[1..], key), key, k);
      assert xs == [xs[0]] + xs[1..];
    }
  }

  lemma {:induction false} SortLength<T>(xs: seq<T>, key: T -> real)
    ensures |SortBy(xs, key)| == |xs|
  {
    SortIsStable(xs, key, 0.0);
    assert |multiset(SortBy(xs, key))| == |multiset(xs)|;
  }

  // ----- how long each concurrency sample holds -----

  datatype Sample = Sample(t: real, active: int, waiting: int)

  function Time(s: Sample): real {
    s.t
  }

  function Clamp(t: real, wall: real): real {
    var floored := if t < 0.0 then 0.0 else t;
    if wall < floored then wall else floored
  }

  /** The start of the build, the clamped time of every later sample, the end of the build. */
  function Bounds(ordered: seq<Sample>, wall: real): (r: seq<real>)
    ensures ordered != [] ==> |r| == |ordered| + 1
  {
    [0.0] + (if ordered == [] then [] else Clamped(ordered[1..], wall)) + [wall]
  }

  function Clamped(samples: seq<Sample>, wall: real): (r: seq<real>)
    ensures |r| == |samples| && forall i :: 0 <= i < |r| ==> r[i] == Clamp(samples[i].t, wall)
  {
    if samples == [] then [] else [Clamp(samples[0].t, wall)] + Clamped(samples[1..], wall)
  }

  datatype Weighted = Weighted(sample: Sample, seconds: real)

  function WeightedSamples(concurrency: seq<Sample>, wall: real): (r: seq<Weighted>)
    ensures |r| == |concurrency|
  {
    var ordered := SortBy(concurrency, Time);
    SortLength(concurrency, Time);
    var bounds := Bounds(ordered, wall);
    seq(|ordered|, i requires 0 <= i < |ordered| => Weighted(ordered[i], bounds[i + 1] - bounds[i]))
  }

  /** The seconds of the samples a test picks out. */
  function Share(weighted: seq<Weighted>, pick: Sample -> bool): real {
    if weighted == [] then 0.0
    else (if pick(weighted[0].sample) then weighted[0].seconds else 0.0) + Share(weighted[1..], pick)
  }

  function Total(weighted: seq<Weighted>): real {
    Share(weighted, s => true)
  }

  lemma {:induction false} ShareConcat(a: seq<Weighted>, b: seq<Weighted>, pick: Sample -> bool)
    ensures Share(a + b, pick) == Share(a, pick) + Share(b, pick)
  {
    if a == [] {
      assert a + b == b;
    } else {
      assert (a + b)[1..] == a[1..] + b;
      ShareConcat(a[1..], b, pick);
    }
  }

  lemma BoundAt(ordered: seq<Sample>, wall: real, i: nat)
    requires ordered != [] && i <= |ordered|
    ensures Bounds(ordered, wall)[i] ==
            if i == 0 then 0.0 else if i == |ordered| then wall else Clamp(ordered[i].t, wall)
  {
  }

  /** The samples before one cover exactly the time up to its own clamped time, and all of them the whole build. */
  lemma {:induction false} CoveredBefore(concurrency: seq<Sample>, wall: real, i: nat)
    requires concurrency != [] && i <= |concurrency|
    ensures var w := WeightedSamples(concurrency, wall);
            Total(w[..i]) == if i == 0 then 0.0 else if i == |w| then wall else Clamp(w[i].sample.t, wall)
  {
    hide SortBy, Bounds, Clamp;
    var w := WeightedSamples(concurrency, wall);
    SortLength(concurrency, Time);
    BoundAt(SortBy(concurrency, Time), wall, i);
    if i > 0 {
      CoveredBefore(concurrency, wall, i - 1);
      BoundAt(SortBy(concurrency, Time), wall, i - 1);
      assert w[..i] == w[..i - 1] + [w[i - 1]];
      ShareConcat(w[..i - 1], [w[i - 1]], s => true);
      assert [w[i - 1]][1..] == [];
    }
  }

  /** How much of the build lies between two times. */
  function Within(from: real, to: real, wall: real): real {
    var a := if from > 0.0 then from else 0.0;
    var b := if to < wall then to else wall;
    if a < b then b - a else 0.0
  }

  /** Each sample holds for as much of the build as lies between its own time and the next sample's; the first also
      from the start of the build, and the last until its end. */
  lemma {:induction false} HoldsUntilNext(concurrency: seq<Sample>, wall: real, i: nat)
    requires i < |concurrency| && wall >= 0.0
    ensures var w := WeightedSamples(concurrency, wall);
            w[i].seconds == Within(if i == 0 then 0.0 else w[i].sample.t, if i == |w| - 1 then wall else w[i + 1].sample.t, wall)
  {
    hide SortBy, Bounds, WithKey;
    SortIsStable(concurrency, Time, 0.0);
    SortLength(concurrency, Time);
    var ordered := SortBy(concurrency, Time);
    BoundAt(ordered, wall, i);
    BoundAt(ordered, wall, i + 1);
    if i < |ordered| - 1 {
      assert Time(ordered[i]) <= Time(ordered[i + 1]);
    }
  }

  lemma {:induction false} BoundsRise(ordered: seq<Sample>, wall: real, i: nat)
    requires Sorted(ordered, Time) && i < |ordered| && wall >= 0.0
    ensures Bounds(ordered, wall)[i] <= Bounds(ordered, wall)[i + 1]
  {
    if 0 < i < |ordered| - 1 {
      assert Time(ordered[i]) <= Time(ordered[i + 1]);
    }
  }

  lemma {:induction false} NonNegative(concurrency: seq<Sample>, wall: real, i: nat)
    requires i < |concurrency| && wall >= 0.0
    ensures WeightedSamples(concurrency, wall)[i].seconds >= 0.0
  {
    hide SortBy, Bounds, WithKey;
    SortIsStable(concurrency, Time, 0.0);
    SortLength(concurrency, Time);
    BoundsRise(SortBy(concurrency, Time), wall, i);
  }

  /** The durations are non-negative and add up to the wall time exactly when the wall time is not negative and there
      is a sample to charge it to. */
  lemma {:induction false} WeightsIff(concurrency: seq<Sample>, wall: real)
    ensures var w := WeightedSamples(concurrency, wall);
            (forall i :: 0 <= i < |w| ==> w[i].seconds >= 0.0) && Total(w) == wall <==>
            wall >= 0.0 && (concurrency != [] || wall == 0.0)
  {
    var w := WeightedSamples(concurrency, wall);
    if concurrency != [] {
      CoveredBefore(concurrency, wall, |w|);
      assert w[..|w|] == w;
      if wall >= 0.0 {
        forall i | 0 <= i < |w| ensures w[i].seconds >= 0.0 {
          NonNegative(concurrency, wall, i);
        }
      } else {
        assert w[0].seconds == wall;
      }
    }
  }

  /** No share exceeds the wall time, a narrower test picks no more, and a test and its opposite split the wall time. */
  lemma {:induction false} SharesWithinWall(concurrency: seq<Sample>, wall: real, pick: Sample -> bool, narrow: Sample -> bool)
    requires concurrency != [] && wall >= 0.0 && forall s :: narrow(s) ==> pick(s)
    ensures var w := WeightedSamples(concurrency, wall);
            && 0.0 <= Share(w, narrow) <= Share(w, pick) <= wall
            && Share(w, pick) + Share(w, s => !pick(s)) == wall
  {
    var w := WeightedSamples(concurrency, wall);
    WeightsIff(concurrency, wall);
    ShareOrder(w, pick, narrow);
  }

  lemma {:induction false} ShareOrder(w: seq<Weighted>, pick: Sample -> bool, narrow: Sample -> bool)
    requires (forall i :: 0 <= i < |w| ==> w[i].seconds >= 0.0) && forall s :: narrow(s) ==> pick(s)
    ensures 0.0 <= Share(w, narrow) <= Share(w, pick) <= Total(w)
    ensures Share(w, pick) + Share(w, s => !pick(s)) == Total(w)
  {
    if w != [] {
      ShareOrder(w[1..], pick, narrow);
    }
  }

  // ----- the longest chain of units -----

  datatype Unit = Unit(start: real, duration: real)

  const SLACK: real := 0.000001

  function Finish(u: Unit): real {
    u.start + u.duration
  }

  /** The second unit starts once the first has finished, up to the slack. */
  predicate Follows(first: Unit, second: Unit) {
    Finish(first) <= second.start + SLACK
  }

  function StartKey(units: seq<Unit>): int -> real {
    i => if 0 <= i < |units| then units[i].start else 0.0
  }

  /** The indices of the units in start order. */
  function StartOrder(units: seq<Unit>): seq<int> {
    SortBy(seq(|units|, i => i), StartKey(units))
  }

  /** Indices ordered by start, and by index among equal starts. */
  ghost predicate InStartOrder(order: seq<int>, key: int -> real) {
    forall a, b :: 0 <= a < b < |order| ==> StartsBefore(order[a], order[b], key)
  }

  predicate StartsBefore(i: int, j: int, key: int -> real) {
    key(i) < key(j) || (key(i) == key(j) && i < j)
  }

  lemma {:induction false} InsertInStartOrder(x: int, xs: seq<int>, key: int -> real)
    requires InStartOrder(xs, key) && forall i :: 0 <= i < |xs| ==> x < xs[i]
    ensures InStartOrder(Insert(x, xs, key), key)
  {
    if xs == [] || key(x) <= key(xs[0]) {
      FirstStarts(x, xs, key);
    } else {
      hide StartsBefore;
      InsertInStartOrder(x, xs[1..], key);
      var rest := Insert(x, xs[1..], key);
      forall b | 0 <= b < |rest|
        ensures StartsBefore(xs[0], rest[b], key)
      {
        StartsAfterFirst(x, xs, key, b);
      }
    }
  }

  lemma FirstStarts(x: int, xs: seq<int>, key: int -> real)
    requires InStartOrder(xs, key) && (forall i :: 0 <= i < |xs| ==> x < xs[i]) && (xs == [] || key(x) <= key(xs[0]))
    ensures InStartOrder([x] + xs, key)
  {
    forall i | 0 <= i < |xs|
      ensures StartsBefore(x, xs[i], key)
    {
      assert i > 0 ==> StartsBefore(xs[0], xs[i], key);
    }
  }

  lemma StartsAfterFirst(x: int, xs: seq<int>, key: int -> real, b: nat)
    requires xs != [] && InStartOrder(xs, key) && key(xs[0]) < key(x) && b < |Insert(x, xs[1..], key)|
    ensures StartsBefore(xs[0], Insert(x, xs[1..], key)[b], key)
  {
    var rest := Insert(x, xs[1..], key);
    InsertElements(x, xs[1..], key);
    assert rest[b] in multiset(rest);
    if rest[b] != x {
      assert rest[b] in multiset(xs[1..]);
      var i :| 0 <= i < |xs[1..]| && xs[1..][i] == rest[b];
      assert StartsBefore(xs[0], xs[i + 1], key);
    } else {
      assert StartsBefore(xs[0], x, key);
    }
  }

  lemma {:induction false} SortInStartOrder(xs: seq<int>, key: int -> real)
    requires forall i, j :: 0 <= i < j < |xs| ==> xs[i] < xs[j]
    ensures InStartOrder(SortBy(xs, key), key)
  {
    if xs != [] {
      SortInStartOrder(xs[1..], key);
      SortIsStable(xs[1..], key, 0.0);
      var rest := SortBy(xs[1..], key);
      forall i | 0 <= i < |rest|
        ensures xs[0] < rest[i]
      {
        assert rest[i] in multiset(rest);
      }
      InsertInStartOrder(xs[0], rest, key);
    }
  }

  /** The start order is strict and lists each unit's index. */
  lemma StartOrderIsStrict(units: seq<Unit>)
    ensures var order := StartOrder(units);
            && |order| == |units| && InStartOrder(order, StartKey(units))
            && (forall k :: 0 <= k < |order| ==> 0 <= order[k] < |units|)
            && (forall i :: 0 <= i < |units| ==> i in order)
  {
    var all, key := seq(|units|, i => i), StartKey(units);
    SortInStartOrder(all, key);
    SortIsStable(all, key, 0.0);
    SortLength(all, key);
    var order := StartOrder(units);
    forall k | 0 <= k < |order|
      ensures 0 <= order[k] < |units|
    {
      assert order[k] in multiset(order);
    }
    forall i | 0 <= i < |units|
      ensures i in order
    {
      assert all[i] in multiset(all);
      assert i in multiset(order);
    }
  }

  /** The units themselves, in start order. */
  ghost function Started(units: seq<Unit>): (r: seq<Unit>)
    ensures |r| == |units| == |StartOrder(units)|
    ensures forall k :: 0 <= k < |r| ==> 0 <= StartOrder(units)[k] < |units| && r[k] == units[StartOrder(units)[k]]
  {
    StartOrderIsStrict(units);
    var order := StartOrder(units);
    seq(|units|, k requires 0 <= k < |units| => units[order[k]])
  }

  /** Positions in start order, each unit finished by the time the next one starts. */
  ghost predicate IsChain(us: seq<Unit>, c: seq<nat>) {
    && c != [] && (forall k :: 0 <= k < |c| ==> c[k] < |us|)
    && forall j, k :: 0 <= j < k < |c| && k == j + 1 ==> c[j] < c[k] && Follows(us[c[j]], us[c[k]])
  }

  ghost predicate IsChainTo(us: seq<Unit>, c: seq<nat>, k: nat) {
    IsChain(us, c) && c[|c| - 1] == k
  }

  ghost function Length(us: seq<Unit>, c: seq<nat>): real
    requires forall k :: 0 <= k < |c| ==> c[k] < |us|
  {
    if c == [] then 0.0 else Length(us, c[..|c| - 1]) + us[c[|c| - 1]].duration
  }

  /** The greatest total duration of a chain that ends at a unit. */
  ghost predicate IsLongestTo(us: seq<Unit>, k: nat, best: real) {
    && (exists c :: IsChainTo(us, c, k) && Length(us, c) == best)
    && (forall c :: IsChainTo(us, c, k) ==> Length(us, c) <= best)
  }

  /** The better of no predecessor and the longest chain to an earlier unit that finished in time. */
  ghost predicate IsPredecessor(us: seq<Unit>, best: seq<real>, p: real)
    requires |best| < |us|
  {
    var u := us[|best|];
    && (p == 0.0 || exists j :: 0 <= j < |best| && Follows(us[j], u) && p == best[j])
    && p >= 0.0 && forall j :: 0 <= j < |best| && Follows(us[j], u) ==> best[j] <= p
  }

  lemma {:induction false} ChainPrefix(us: seq<Unit>, c: seq<nat>, k: nat)
    requires IsChainTo(us, c, k) && |c| > 1
    ensures IsChainTo(us, c[..|c| - 1], c[|c| - 2]) && c[|c| - 2] < k && Follows(us[c[|c| - 2]], us[k])
  {
  }

  lemma {:induction false} ChainExtends(us: seq<Unit>, c: seq<nat>, j: nat, k: nat)
    requires IsChainTo(us, c, j) && j < k < |us| && Follows(us[j], us[k])
    ensures IsChainTo(us, c + [k], k) && Length(us, c + [k]) == Length(us, c) + us[k].duration
  {
    assert (c + [k])[..|c|] == c;
  }

  lemma {:induction false} LongestStep(us: seq<Unit>, best: seq<real>, p: real)
    requires |best| < |us| && IsPredecessor(us, best, p)
    requires forall j :: 0 <= j < |best| ==> IsLongestTo(us, j, best[j])
    ensures IsLongestTo(us, |best|, p + us[|best|].duration)
  {
    var k := |best|;
    var value := p + us[k].duration;
    assert exists c :: IsChainTo(us, c, k) && Length(us, c) == value by {
      if p == 0.0 {
        assert [k][..0] == [];
        assert IsChainTo(us, [k], k) && Length(us, [k]) == value;
      } else {
        var j :| 0 <= j < k && Follows(us[j], us[k]) && p == best[j];
        var c :| IsChainTo(us, c, j) && Length(us, c) == best[j];
        ChainExtends(us, c, j, k);
      }
    }
    forall c | IsChainTo(us, c, k)
      ensures Length(us, c) <= value
    {
      var front := c[..|c| - 1];
      if |c| > 1 {
        ChainPrefix(us, c, k);
      }
    }
  }

  /** The inner loop: the greatest table entry among the units that finished in time. */
  method Predecessor(start: real, finished: seq<(real, int)>, chain: map<int, real>) returns (p: real)
    requires forall m :: 0 <= m < |finished| ==> finished[m].1 in chain
    ensures p >= 0.0
    ensures p == 0.0 || exists m :: 0 <= m < |finished| && finished[m].0 <= start + SLACK && p == chain[finished[m].1]
    ensures forall m :: 0 <= m < |finished| && finished[m].0 <= start + SLACK ==> chain[finished[m].1] <= p
  {
    p := 0.0;
    for n := 0 to |finished|
      invariant p >= 0.0
      invariant p == 0.0 || exists m :: 0 <= m < n && finished[m].0 <= start + SLACK && p == chain[finished[m].1]
      invariant forall m :: 0 <= m < n && finished[m].0 <= start + SLACK ==> chain[finished[m].1] <= p
    {
      var (finish, j) := finished[n];
      if finish <= start + SLACK && p < chain[j] {
        p := chain[j];
      }
    }
  }

  /** The outer loop, for any order that lists each unit once. */
  method ChainTable(units: seq<Unit>, ordered: seq<int>, ghost us: seq<Unit>) returns (chain: map<int, real>)
    requires |us| == |ordered|
    requires forall k :: 0 <= k < |ordered| ==> 0 <= ordered[k] < |units| && us[k] == units[ordered[k]]
    requires forall j, k :: 0 <= j < k < |ordered| ==> ordered[j] != ordered[k]
    ensures forall i :: i in chain <==> i in ordered
    ensures forall k :: 0 <= k < |ordered| ==> IsLongestTo(us, k, chain[ordered[k]])
  {
    hide IsLongestTo;
    var finished: seq<(real, int)> := [];
    ghost var best: seq<real> := [];
    chain := map[];
    for n := 0 to |ordered|
      invariant |best| == |finished| == n
      invariant forall k :: 0 <= k < n ==> finished[k] == (Finish(us[k]), ordered[k])
      invariant forall i :: i in chain ==> i in ordered
      invariant forall k :: 0 <= k < n ==> ordered[k] in chain && chain[ordered[k]] == best[k]
      invariant forall k :: 0 <= k < n ==> IsLongestTo(us, k, best[k])
    {
      var i := ordered[n];
      var predecessor := Predecessor(units[i].start, finished, chain);
      assert IsPredecessor(us, best, predecessor);
      LongestStep(us, best, predecessor);
      chain := chain[i := predecessor + units[i].duration];
      best := best + [predecessor + units[i].duration];
      finished := finished + [(units[i].start + units[i].duration, i)];
    }
  }

  /** The table holds, for each unit in start order, the greatest total duration of a chain that ends at it. */
  method LongestChains(units: seq<Unit>) returns (chain: map<int, real>)
    ensures forall i :: i in chain <==> 0 <= i < |units|
    ensures forall k :: 0 <= k < |units| ==> IsLongestTo(Started(units), k, chain[StartOrder(units)[k]])
  {
    hide SortBy, IsLongestTo;
    StartOrderIsStrict(units);
    chain := ChainTable(units, StartOrder(units), Started(units));
  }

  /** The longest realised chain: of all chains of units, each finished by the time the next one starts. */
  method LongestChain(units: seq<Unit>) returns (longest: real)
    requires units != []
    ensures exists c :: IsChain(Started(units), c) && Length(Started(units), c) == longest
    ensures forall c :: IsChain(Started(units), c) ==> Length(Started(units), c) <= longest
  {
    hide StartOrder, Started, SortBy, IsLongestTo;
    StartOrderIsStrict(units);
    var chain := LongestChains(units);
    var order := StartOrder(units);
    longest := chain[order[0]];
    LongestIsChain(Started(units), 0, longest);
    for k := 1 to |units|
      invariant exists c :: IsChain(Started(units), c) && Length(Started(units), c) == longest
      invariant forall j :: 0 <= j < k ==> chain[order[j]] <= longest
    {
      if longest < chain[order[k]] {
        longest := chain[order[k]];
        LongestIsChain(Started(units), k, longest);
      }
    }
    forall c | IsChain(Started(units), c)
      ensures Length(Started(units), c) <= longest
    {
      LongestCovers(Started(units), c, chain[order[c[|c| - 1]]]);
    }
  }

  lemma LongestIsChain(us: seq<Unit>, k: nat, best: real)
    requires IsLongestTo(us, k, best)
    ensures exists c :: IsChain(us, c) && Length(us, c) == best
  {
    var c :| IsChainTo(us, c, k) && Length(us, c) == best;
  }

  lemma LongestCovers(us: seq<Unit>, c: seq<nat>, best: real)
    requires IsChain(us, c) && IsLongestTo(us, c[|c| - 1], best)
    ensures Length(us, c) <= best
  {
    assert IsChainTo(us, c, c[|c| - 1]);
  }

  /** A chain never outlasts the time from its first start to its last finish by more than the slack of its links. */
  lemma {:induction false} ChainWithinSpan(us: seq<Unit>, c: seq<nat>)
    requires IsChain(us, c)
    ensures Length(us, c) <= Finish(us[c[|c| - 1]]) - us[c[0]].start + (|c| - 1) as real * 0.000001
  {
    var front := c[..|c| - 1];
    if |c| > 1 {
      ChainPrefix(us, c, c[|c| - 1]);
      ChainWithinSpan(us, front);
      assert front[0] == c[0] && front[|front| - 1] == c[|c| - 2];
    } else {
      assert front == [];
    }
  }
}
