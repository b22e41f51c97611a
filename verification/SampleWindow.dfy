/** The demo's measurement window: a bounded list of the latest samples and a nearest-rank percentile. */
module SampleWindow {
  import opened Prelude

  /** A JavaScript number, as far as `Number.isFinite` tells. */
  datatype Number = Finite(value: real) | NonFinite

  class Window {
    var samples: seq<real>
    const max: nat

    constructor (max: nat)
      ensures samples == [] && this.max == max
    {
      samples := [];
      this.max := max;
    }

    method PushSample(value: Number)
      modifies this
      ensures samples == Pushed(old(samples), value, max)
    {
      if value.NonFinite? {
        return;
      }
      samples := samples + [value.value];
      if |samples| > max {
        samples := samples[1..];
      }
    }
  }

  function Pushed(samples: seq<real>, value: Number, max: nat): seq<real> {
    if value.NonFinite? then samples
    else
      var longer := samples + [value.value];
      if |longer| > max then longer[1..] else longer
  }

  /** The window after a whole stream. */
  function Windowed(stream: seq<Number>, max: nat): seq<real> {
    if stream == [] then [] else Pushed(Windowed(Drop1(stream), max), Last(stream), max)
  }

  function FiniteOnly(stream: seq<Number>): seq<real> {
    if stream == [] then []
    else if Last(stream).Finite? then FiniteOnly(Drop1(stream)) + [Last(stream).value]
    else FiniteOnly(Drop1(stream))
  }

  /** After any stream the window holds exactly the last `max` finite samples, in order. */
  lemma {:induction false} WindowHoldsLastFinite(stream: seq<Number>, max: nat)
    ensures Windowed(stream, max) == LastN(FiniteOnly(stream), max)
  {
    if stream != [] {
      WindowHoldsLastFinite(Drop1(stream), max);
    }
  }

  // ----- percentile ---------------------------------------------------------------------------

  predicate IsSorted(s: seq<real>) {
    forall i, j :: 0 <= i < j < |s| ==> s[i] <= s[j]
  }

  function Insert(x: real, s: seq<real>): (r: seq<real>)
    ensures multiset(r) == multiset(s) + multiset{x}
  {
    if s == [] || x <= s[0] then [x] + s
    else
      assert s == [s[0]] + s[1..];
      [s[0]] + Insert(x, s[1..])
  }

  /** The sorted copy. */
  function Sorted(s: seq<real>): (r: seq<real>)
    ensures multiset(r) == multiset(s)
  {
    if s == [] then []
    else
      assert s == [s[0]] + s[1..];
      Insert(s[0], Sorted(s[1..]))
  }

  lemma {:induction false} InsertKeepsSorted(x: real, s: seq<real>)
    requires IsSorted(s)
    ensures IsSorted(Insert(x, s))
  {
    if s != [] && s[0] < x {
      InsertKeepsSorted(x, s[1..]);
      var rest := Insert(x, s[1..]);
      forall i | 0 <= i < |rest|
        ensures s[0] <= rest[i]
      {
        assert rest[i] in multiset(rest);
        assert rest[i] in s[1..] || rest[i] == x;
      }
    }
  }

  lemma {:induction false} SortedIsSorted(s: seq<real>)
    ensures IsSorted(Sorted(s))
  {
    if s != [] {
      SortedIsSorted(s[1..]);
      InsertKeepsSorted(s[0], Sorted(s[1..]));
    }
  }

  function Ceil(x: real): int {
    -(-x).Floor
  }

  /** The nearest rank: `ceil(q * n)` clamped to 1..n. */
  function Rank(n: nat, q: real): nat
    requires n > 0
  {
    var k := Ceil(q * n as real);
    if k < 1 then 1 else if n < k then n else k
  }

  /** The rank is the least whole number not below `q * n`, within 1..n. */
  lemma RankExactly(n: nat, q: real)
    requires n > 0
    ensures var k := Rank(n, q);
            1 <= k <= n && (1 < k ==> (k - 1) as real < q * n as real) && (k < n ==> q * n as real <= k as real)
  {
  }

  function CountLe(s: seq<real>, r: real): nat {
    if s == [] then 0 else (if s[0] <= r then 1 else 0) + CountLe(s[1..], r)
  }

  function CountLt(s: seq<real>, r: real): nat {
    if s == [] then 0 else (if s[0] < r then 1 else 0) + CountLt(s[1..], r)
  }

  /** At least `Rank` samples are at most `r`, and fewer are below it. */
  ghost predicate IsPercentile(s: seq<real>, q: real, r: real)
    requires s != []
  {
    r in s && CountLe(s, r) >= Rank(|s|, q) && CountLt(s, r) < Rank(|s|, q)
  }

  method Percentile(values: seq<real>, q: real) returns (r: real)
    ensures values == [] ==> r == 0.0
    ensures values != [] ==> IsPercentile(values, q, r)
  {
    if values == [] {
      return 0.0;
    }
    var sorted := Sorted(values);
    SameLength(sorted, values);
    var n := |sorted|;
    var k := Ceil(q * n as real);
    var index := if n - 1 < k - 1 then n - 1 else if k - 1 < 0 then 0 else k - 1;
    assert index + 1 == Rank(n, q);
    r := sorted[index];
    SortedIsSorted(values);
    RankedElement(sorted, values, index);
  }

  /** At least the fraction `q` of `n` is covered by `le`, all of it from 1 on, and `lt` is less, or none. */
  ghost predicate SplitsAt(q: real, n: nat, le: nat, lt: nat) {
    && (if q <= 1.0 then q * n as real <= le as real else le == n)
    && (lt == 0 || (lt as real) < q * n as real)
  }

  /**
   What the value means without ranks: it is a sample, at least the fraction `q` of the samples are up to it
   (all of them from `q` = 1 on), and fewer than that fraction, or none, are below it.
   */
  lemma PercentileMeaning(s: seq<real>, q: real, r: real)
    requires s != []
    ensures IsPercentile(s, q, r)
            <==> r in s && SplitsAt(q, |s|, CountLe(s, r), CountLt(s, r))
  {
    CountsBound(s, r);
    if r in s {
      RankOfShare(|s|, q, CountLe(s, r), CountLt(s, r));
    }
  }

  lemma ShareBelowAll(n: nat, q: real)
    requires n > 0
    ensures q <= 1.0 <==> q * n as real <= n as real
  {
    if q > 1.0 {
      assert (q - 1.0) * n as real > 0.0;
    } else {
      assert (1.0 - q) * n as real >= 0.0;
    }
  }

  lemma RankOfShare(n: nat, q: real, le: nat, lt: nat)
    requires lt < le <= n
    ensures lt < Rank(n, q) <= le
            <==> SplitsAt(q, n, le, lt)
  {
    RankExactly(n, q);
    ShareBelowAll(n, q);
    ClampedRank(n, q * n as real, Rank(n, q), le, lt);
  }

  lemma ClampedRank(n: nat, share: real, k: nat, le: nat, lt: nat)
    requires 1 <= k <= n && (1 < k ==> (k - 1) as real < share) && (k < n ==> share <= k as real)
    requires lt < le <= n
    ensures lt < k <= le
            <==> (if share <= n as real then share <= le as real else le == n) && (lt == 0 || (lt as real) < share)
  {
  }

  lemma {:induction false} CountsBound(s: seq<real>, r: real)
    ensures CountLt(s, r) <= CountLe(s, r) <= |s|
    ensures r in s ==> CountLt(s, r) < CountLe(s, r)
  {
    if s != [] {
      CountsBound(s[1..], r);
      assert s == [s[0]] + s[1..];
    }
  }

  /** The element at index `k - 1` of the sorted samples has `k` samples up to it and fewer below. */
  lemma RankedElement(sorted: seq<real>, values: seq<real>, index: nat)
    requires IsSorted(sorted) && multiset(sorted) == multiset(values) && index < |sorted|
    ensures |sorted| == |values| && sorted[index] in values
    ensures CountLe(values, sorted[index]) > index && CountLt(values, sorted[index]) <= index
  {
    assert sorted[index] in multiset(values);
    CountLeAtLeast(sorted, sorted[index], index + 1);
    CountLtAtMost(sorted, sorted[index], index);
    CountsIgnoreOrder(sorted, values, sorted[index]);
  }

  lemma {:induction false} CountLeAtLeast(s: seq<real>, r: real, m: nat)
    requires m <= |s| && forall i :: 0 <= i < m ==> s[i] <= r
    ensures CountLe(s, r) >= m
  {
    if m > 0 {
      CountLeAtLeast(s[1..], r, m - 1);
    }
  }

  lemma {:induction false} CountLtAtMost(s: seq<real>, r: real, m: nat)
    requires m <= |s| && forall i :: m <= i < |s| ==> r <= s[i]
    ensures CountLt(s, r) <= m
  {
    if s != [] {
      CountLtAtMost(s[1..], r, if m == 0 then 0 else m - 1);
    }
  }

  lemma {:induction false} CountsWithout(s: seq<real>, i: nat, r: real)
    requires i < |s|
    ensures CountLe(s, r) == CountLe(s[..i] + s[i + 1..], r) + if s[i] <= r then 1 else 0
    ensures CountLt(s, r) == CountLt(s[..i] + s[i + 1..], r) + if s[i] < r then 1 else 0
  {
    if i == 0 {
      assert s[..0] + s[1..] == s[1..];
    } else {
      CountsWithout(s[1..], i - 1, r);
      assert s[1..][..i - 1] + s[1..][i..] == (s[..i] + s[i + 1..])[1..];
    }
  }

  lemma SameLength(a: seq<real>, b: seq<real>)
    requires multiset(a) == multiset(b)
    ensures |a| == |b|
  {
    assert |a| == |multiset(a)| == |multiset(b)| == |b|;
  }

  /** Taking the first of `a` out of a reordering of `a`. */
  lemma TakeOut(a: seq<real>, b: seq<real>) returns (i: nat)
    requires a != [] && multiset(a) == multiset(b)
    ensures i < |b| && b[i] == a[0] && multiset(a[1..]) == multiset(b[..i] + b[i + 1..])
  {
    assert a[0] in multiset(b);
    i :| 0 <= i < |b| && b[i] == a[0];
    assert a == [a[0]] + a[1..];
    assert b == b[..i] + ([b[i]] + b[i + 1..]);
    assert multiset(a[1..]) == multiset(a) - multiset{a[0]};
  }

  lemma {:induction false} CountsIgnoreOrder(a: seq<real>, b: seq<real>, r: real)
    requires multiset(a) == multiset(b)
    ensures |a| == |b| && CountLe(a, r) == CountLe(b, r) && CountLt(a, r) == CountLt(b, r)
  {
    SameLength(a, b);
    if a != [] {
      var i := TakeOut(a, b);
      CountsIgnoreOrder(a[1..], b[..i] + b[i + 1..], r);
      CountsWithout(b, i, r);
    }
  }

  lemma {:induction false} CountsOrdered(s: seq<real>, a: real, b: real)
    requires a < b
    ensures CountLe(s, a) <= CountLt(s, b)
  {
    if s != [] {
      CountsOrdered(s[1..], a, b);
    }
  }

  lemma RankMonotone(n: nat, q: real, q': real)
    requires n > 0 && q <= q'
    ensures Rank(n, q) <= Rank(n, q')
  {
    assert q * n as real <= q' * n as real;
  }

  /**
   The percentile is determined by the samples as a collection: it does not depend on their order, and a
   larger fraction never gives a smaller value.
   */
  lemma PercentileMonotone(a: seq<real>, b: seq<real>, q: real, q': real, r: real, r': real)
    requires a != [] && multiset(a) == multiset(b) && |a| == |b| && q <= q'
    requires IsPercentile(a, q, r) && IsPercentile(b, q', r')
    ensures r <= r'
    ensures q == q' ==> r == r'
  {
    CountsIgnoreOrder(a, b, r);
    CountsIgnoreOrder(a, b, r');
    RankMonotone(|a|, q, q');
    if r' < r {
      CountsOrdered(b, r', r);
      assert false;
    }
    if q == q' && r < r' {
      CountsOrdered(b, r, r');
      assert false;
    }
  }
}
