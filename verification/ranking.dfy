/**
  The ranking tables of the frame ranker, as pure values.

  Frame qualities are a sequence of reals indexed by frame number. The
  ranker sorts frame indices by descending quality with a stable sort
  (equal qualities keep ascending frame order), builds the inverse
  permutation, takes the best frame and normalises qualities by its value.
  The sliding-window search compares, for every window of frames, the sum
  of the qualities of its best few frames.
*/
module Ranking {

  /** Frame i is ranked ahead of frame j: higher quality, or equal quality
      and an earlier frame (a stable descending sort keeps ties in index order). */
  predicate Precedes(ranks: seq<real>, i: nat, j: nat)
  {
    i < |ranks| && j < |ranks| &&
    (ranks[i] > ranks[j] || (ranks[i] == ranks[j] && i < j))
  }

  /** p lists frame indices in ranking order. */
  predicate SortedByRank(ranks: seq<real>, p: seq<nat>)
  {
    (forall k :: 0 <= k < |p| ==> p[k] < |ranks|) &&
    (forall a, b :: 0 <= a < b < |p| ==> Precedes(ranks, p[a], p[b]))
  }

  /** p lists every index of lo..hi-1, and nothing else. */
  predicate Arranges(p: seq<nat>, lo: nat, hi: nat)
  {
    lo <= hi && |p| == hi - lo &&
    (forall k :: 0 <= k < |p| ==> lo <= p[k] < hi) &&
    (forall i: nat :: lo <= i < hi ==> i in p)
  }

  predicate Distinct(p: seq<nat>)
  {
    forall a, b :: 0 <= a < b < |p| ==> p[a] != p[b]
  }

  predicate InRange(idx: seq<nat>, n: nat)
  {
    forall k :: 0 <= k < |idx| ==> idx[k] < n
  }

  lemma SortedIsDistinct(ranks: seq<real>, p: seq<nat>)
    requires SortedByRank(ranks, p)
    ensures Distinct(p)
  {
  }

  /** Inserts frame x into a ranking-ordered list. */
  function Insert(ranks: seq<real>, x: nat, p: seq<nat>): (r: seq<nat>)
    requires x < |ranks| && SortedByRank(ranks, p) && x !in p
    ensures |r| == |p| + 1 && SortedByRank(ranks, r)
    ensures forall y :: y in r <==> y == x || y in p
  {
    if p == [] then [x]
    else if Precedes(ranks, x, p[0]) then [x] + p
    else
      var rest := Insert(ranks, x, p[1..]);
      assert forall y :: y in rest ==> Precedes(ranks, p[0], y) by {
        forall y | y in rest ensures Precedes(ranks, p[0], y) {
          if y != x {
            var k :| 0 <= k < |p[1..]| && p[1..][k] == y;
            assert p[k + 1] == y;
          }
        }
      }
      [p[0]] + rest
  }

  /** The indices lo..hi-1 in ranking order: the value of
      sorted(range(lo, hi), key=ranks.__getitem__, reverse=True). */
  function RankOrder(ranks: seq<real>, lo: nat, hi: nat): (p: seq<nat>)
    requires lo <= hi <= |ranks|
    ensures SortedByRank(ranks, p) && Arranges(p, lo, hi)
    decreases hi - lo
  {
    if lo == hi then []
    else
      var rest := RankOrder(ranks, lo + 1, hi);
      var p := Insert(ranks, lo, rest);
      assert forall k :: 0 <= k < |p| ==> lo <= p[k] < hi by {
        forall k | 0 <= k < |p| ensures lo <= p[k] < hi {
          assert p[k] in p;
          if p[k] != lo {
            assert p[k] in rest;
            var t :| 0 <= t < |rest| && rest[t] == p[k];
          }
        }
      }
      assert forall i: nat :: lo <= i < hi ==> i in p by {
        forall i: nat | lo <= i < hi ensures i in p {
          if i > lo { assert i in rest; }
        }
      }
      p
  }

  /** Ranking order is a strict total order on frames, so there is exactly
      one ranking-ordered arrangement of any set of frames: whatever stable
      sort produced it, it equals RankOrder. */
  lemma {:induction false} SortedArrangementUnique(ranks: seq<real>, p: seq<nat>, q: seq<nat>)
    requires SortedByRank(ranks, p) && SortedByRank(ranks, q)
    requires forall y :: y in p <==> y in q
    ensures p == q
    decreases |p|
  {
    if p != [] {
      assert p[0] in q;
      assert q[0] in q;
      assert p[0] == q[0];
      SortedIsDistinct(ranks, p);
      SortedIsDistinct(ranks, q);
      forall y ensures y in p[1..] <==> y in q[1..] {
        if y in p[1..] {
          var k :| 0 <= k < |p[1..]| && p[1..][k] == y;
          assert y != p[0];
          assert y in q;
          var t :| 0 <= t < |q| && q[t] == y;
          assert t > 0;
          assert q[1..][t - 1] == y;
        }
        if y in q[1..] {
          var k :| 0 <= k < |q[1..]| && q[1..][k] == y;
          assert y != q[0];
          assert y in p;
          var t :| 0 <= t < |p| && p[t] == y;
          assert t > 0;
          assert p[1..][t - 1] == y;
        }
      }
      SortedArrangementUnique(ranks, p[1..], q[1..]);
      assert p[1..] == q[1..];
      assert p == [p[0]] + p[1..] && q == [q[0]] + q[1..];
    }
  }

  lemma RankOrderIsTheStableSort(ranks: seq<real>, lo: nat, hi: nat, q: seq<nat>)
    requires lo <= hi <= |ranks|
    requires SortedByRank(ranks, q) && Arranges(q, lo, hi)
    ensures q == RankOrder(ranks, lo, hi)
  {
    var p := RankOrder(ranks, lo, hi);
    forall y ensures y in p <==> y in q {
      if y in p {
        var k :| 0 <= k < |p| && p[k] == y;
      }
      if y in q {
        var k :| 0 <= k < |q| && q[k] == y;
      }
    }
    SortedArrangementUnique(ranks, p, q);
  }

  /** The first frame of a ranking-ordered arrangement of lo..hi-1 has the
      highest quality there, and is the earliest frame with that quality. */
  lemma FirstIsBest(ranks: seq<real>, p: seq<nat>, lo: nat, hi: nat)
    requires SortedByRank(ranks, p) && Arranges(p, lo, hi) && lo < hi <= |ranks|
    ensures forall i :: lo <= i < hi ==> ranks[i] <= ranks[p[0]]
    ensures forall i :: lo <= i < hi && ranks[i] == ranks[p[0]] ==> p[0] <= i
  {
    forall i | lo <= i < hi ensures ranks[i] <= ranks[p[0]] && (ranks[i] == ranks[p[0]] ==> p[0] <= i) {
      assert (i as nat) in p;
      var t :| 0 <= t < |p| && p[t] == i;
      if t > 0 { assert Precedes(ranks, p[0], p[t]); }
    }
  }

  /** Position of x in p, as list.index: the first k with p[k] == x, or |p|
      when x does not occur. */
  function IndexOf(p: seq<nat>, x: nat): (k: nat)
    ensures k <= |p|
    ensures k < |p| ==> p[k] == x
    ensures forall j :: 0 <= j < k ==> p[j] != x
    ensures x in p ==> k < |p|
  {
    if p == [] then 0
    else if p[0] == x then 0
    else
      var k := IndexOf(p[1..], x);
      assert forall j :: 1 <= j < k + 1 ==> p[j] == p[1..][j - 1];
      assert x in p ==> x in p[1..] by {
        if x in p {
          var t :| 0 <= t < |p| && p[t] == x;
          assert p[1..][t - 1] == x;
        }
      }
      1 + k
  }

  /** [p.index(i) for i in range(len(p))]: for every frame, its rank. */
  function RankIndices(p: seq<nat>): (r: seq<nat>)
    requires Arranges(p, 0, |p|)
    ensures |r| == |p|
    ensures forall i :: 0 <= i < |p| ==> r[i] < |p| && p[r[i]] == i
  {
    seq(|p|, i requires 0 <= i < |p| => IndexOf(p, i))
  }

  /** The rank table is the inverse permutation of the sorted index list,
      in both directions, and is itself a permutation. */
  lemma RankIndicesInverse(p: seq<nat>)
    requires Arranges(p, 0, |p|) && Distinct(p)
    ensures forall k :: 0 <= k < |p| ==> RankIndices(p)[p[k]] == k
    ensures Arranges(RankIndices(p), 0, |p|)
  {
    var r := RankIndices(p);
    forall k | 0 <= k < |p| ensures r[p[k]] == k {
      var j := r[p[k]];
      assert p[j] == p[k];
    }
    forall k: nat | k < |p| ensures k in r {
      assert r[p[k]] == k;
    }
  }

  /** Qualities divided element-wise by m. */
  function Normalised(ranks: seq<real>, m: real): (r: seq<real>)
    requires m != 0.0
    ensures |r| == |ranks|
  {
    seq(|ranks|, i requires 0 <= i < |ranks| => ranks[i] / m)
  }

  lemma DivideMonotone(a: real, b: real, m: real)
    requires m > 0.0
    ensures a / m > b / m <==> a > b
    ensures a / m == b / m <==> a == b
  {
    assert a == (a / m) * m && b == (b / m) * m;
    if a > b {
      assert (a / m - b / m) * m == a - b;
    }
    if a / m > b / m {
      assert (a / m - b / m) * m == a - b;
    }
  }

  /** Dividing by a positive maximum puts the best frame at exactly 1 and
      every non-negative quality in [0, 1]. */
  lemma NormalisedRange(ranks: seq<real>, best: nat)
    requires best < |ranks| && ranks[best] > 0.0
    requires forall i :: 0 <= i < |ranks| ==> 0.0 <= ranks[i] <= ranks[best]
    ensures Normalised(ranks, ranks[best])[best] == 1.0
    ensures forall i :: 0 <= i < |ranks| ==> 0.0 <= Normalised(ranks, ranks[best])[i] <= 1.0
  {
    var m := ranks[best];
    var r := Normalised(ranks, m);
    forall i | 0 <= i < |ranks| ensures 0.0 <= r[i] <= 1.0 {
      QuotientInUnit(ranks[i], m);
    }
    QuotientInUnit(m, m);
  }

  lemma QuotientInUnit(a: real, m: real)
    requires 0.0 <= a <= m && m > 0.0
    ensures 0.0 <= a / m <= 1.0
    ensures a == m ==> a / m == 1.0
  {
    var q := a / m;
    assert q * m == a;
  }

  /** Dividing by a positive value leaves the ranking order unchanged. */
  lemma NormalisedKeepsOrder(ranks: seq<real>, m: real)
    requires m > 0.0
    ensures forall i: nat, j: nat :: Precedes(Normalised(ranks, m), i, j) <==> Precedes(ranks, i, j)
  {
    var r := Normalised(ranks, m);
    forall i: nat, j: nat | i < |ranks| && j < |ranks| ensures Precedes(r, i, j) <==> Precedes(ranks, i, j) {
      assert r[i] == ranks[i] / m && r[j] == ranks[j] / m;
      DivideMonotone(ranks[i], ranks[j], m);
    }
  }

  lemma SortedUnderSameOrder(r1: seq<real>, r2: seq<real>, p: seq<nat>)
    requires |r1| == |r2|
    requires forall i: nat, j: nat :: Precedes(r1, i, j) <==> Precedes(r2, i, j)
    ensures SortedByRank(r1, p) <==> SortedByRank(r2, p)
  {
  }

  /** The quality of the chosen frames. The sum is folded from the right;
      over exact reals it equals the left-to-right sum that sum() computes. */
  function RankSum(ranks: seq<real>, idx: seq<nat>): real
    requires InRange(idx, |ranks|)
  {
    if idx == [] then 0.0 else ranks[idx[0]] + RankSum(ranks, idx[1..])
  }

  lemma {:induction false} RankSumNonNegative(ranks: seq<real>, idx: seq<nat>)
    requires InRange(idx, |ranks|)
    requires forall i :: 0 <= i < |ranks| ==> ranks[i] >= 0.0
    ensures RankSum(ranks, idx) >= 0.0
    ensures idx != [] ==> RankSum(ranks, idx) >= ranks[idx[0]]
  {
    if idx != [] {
      RankSumNonNegative(ranks, idx[1..]);
    }
  }

  /** Sums of equally long index lists compare like their entries. */
  lemma {:induction false} RankSumMonotone(ranks: seq<real>, a: seq<nat>, b: seq<nat>)
    requires InRange(a, |ranks|) && InRange(b, |ranks|) && |a| == |b|
    requires forall k :: 0 <= k < |a| ==> ranks[a[k]] <= ranks[b[k]]
    ensures RankSum(ranks, a) <= RankSum(ranks, b)
  {
    if a != [] {
      RankSumMonotone(ranks, a[1..], b[1..]);
    }
  }

  /** The set of entries of a list. */
  function Elements(s: seq<nat>): (e: set<nat>)
    ensures forall x :: x in e <==> x in s
  {
    if s == [] then {} else {s[0]} + Elements(s[1..])
  }

  lemma {:induction false} ElementsCard(s: seq<nat>)
    ensures |Elements(s)| <= |s|
    ensures Distinct(s) ==> |Elements(s)| == |s|
  {
    if s != [] {
      ElementsCard(s[1..]);
      if Distinct(s) {
        assert Distinct(s[1..]);
        forall k | 0 <= k < |s[1..]| ensures s[1..][k] != s[0] {
          assert s[1..][k] == s[k + 1];
        }
        assert s[0] !in Elements(s[1..]);
      }
    }
  }

  /** If the i-th frame of q were better than the i-th frame overall, each of
      q's first i+1 frames would sit among the first i frames overall. */
  lemma LeaderAmongTop(ranks: seq<real>, p: seq<nat>, q: seq<nat>, i: nat, j: nat)
    requires SortedByRank(ranks, p) && Arranges(p, 0, |ranks|)
    requires SortedByRank(ranks, q) && j <= i < |q| && i < |p|
    requires ranks[p[i]] < ranks[q[i]]
    ensures q[j] in p[..i]
  {
    var x := q[j];
    assert ranks[x] >= ranks[q[i]] by {
      if j < i { assert Precedes(ranks, q[j], q[i]); }
    }
    assert x in p;
    var t :| 0 <= t < |p| && p[t] == x;
    assert t < i;
    assert p[..i][t] == x;
  }

  /** A list of distinct frames all drawn from b is no longer than b. */
  lemma DrawnFrom(a: seq<nat>, b: seq<nat>)
    requires Distinct(a) && forall k :: 0 <= k < |a| ==> a[k] in b
    ensures |a| <= |b|
  {
    var ea, eb := Elements(a), Elements(b);
    forall x | x in ea ensures x in eb {
      var k :| 0 <= k < |a| && a[k] == x;
    }
    assert eb == ea + (eb - ea);
    assert |eb| == |ea| + |eb - ea|;
    ElementsCard(a);
    ElementsCard(b);
  }

  /** The i-th best frame of any ranking-ordered list of frames is no better
      than the i-th best frame overall (pigeonhole over the i+1 leaders). */
  lemma RankDominated(ranks: seq<real>, p: seq<nat>, q: seq<nat>, i: nat)
    requires SortedByRank(ranks, p) && Arranges(p, 0, |ranks|)
    requires SortedByRank(ranks, q) && i < |q| && |q| <= |p|
    ensures ranks[q[i]] <= ranks[p[i]]
  {
    if ranks[p[i]] < ranks[q[i]] {
      var leaders := q[..i + 1];
      forall k | 0 <= k < |leaders| ensures leaders[k] in p[..i] {
        LeaderAmongTop(ranks, p, q, i, k);
      }
      SortedIsDistinct(ranks, q);
      DrawnFrom(leaders, p[..i]);
      assert false;
    }
  }

  /** No selection of k ranking-ordered frames beats the k best frames overall. */
  lemma TopSumDominates(ranks: seq<real>, p: seq<nat>, q: seq<nat>)
    requires SortedByRank(ranks, p) && Arranges(p, 0, |ranks|)
    requires SortedByRank(ranks, q) && |q| <= |p|
    ensures RankSum(ranks, q) <= RankSum(ranks, p[..|q|])
  {
    forall k | 0 <= k < |q| ensures ranks[q[k]] <= ranks[p[..|q|][k]] {
      RankDominated(ranks, p, q, k);
    }
    RankSumMonotone(ranks, q, p[..|q|]);
  }

  /** The best `count` frames of the window start..start+regionSize-1,
      in ranking order: the window's sorted index list cut to `count`. */
  function WindowBest(ranks: seq<real>, start: nat, regionSize: nat, count: nat): (w: seq<nat>)
    requires start + regionSize <= |ranks| && count <= regionSize
    ensures |w| == count && SortedByRank(ranks, w)
    ensures forall k :: 0 <= k < |w| ==> start <= w[k] < start + regionSize
    ensures forall i: nat, k :: start <= i < start + regionSize && i !in w && 0 <= k < |w| ==> Precedes(ranks, w[k], i)
  {
    var p := RankOrder(ranks, start, start + regionSize);
    var w := p[..count];
    assert forall i: nat, k :: start <= i < start + regionSize && i !in w && 0 <= k < |w| ==> Precedes(ranks, w[k], i) by {
      forall i: nat, k | start <= i < start + regionSize && i !in w && 0 <= k < |w| ensures Precedes(ranks, w[k], i) {
        assert i in p;
        var t :| 0 <= t < |p| && p[t] == i;
        assert forall k :: 0 <= k < count ==> w[k] == p[k];
        assert t >= count;
        assert Precedes(ranks, p[k], p[t]);
      }
    }
    w
  }

  function WindowSum(ranks: seq<real>, start: nat, regionSize: nat, count: nat): real
    requires start + regionSize <= |ranks| && count <= regionSize
  {
    RankSum(ranks, WindowBest(ranks, start, regionSize, count))
  }

  /** start is the earliest window whose best frames have the largest
      positive quality sum among all windows. */
  ghost predicate EarliestBestWindow(ranks: seq<real>, regionSize: nat, count: nat, start: nat)
    requires count <= regionSize <= |ranks|
  {
    start <= |ranks| - regionSize &&
    WindowSum(ranks, start, regionSize, count) > 0.0 &&
    (forall s: nat :: s <= |ranks| - regionSize ==> WindowSum(ranks, s, regionSize, count) <= WindowSum(ranks, start, regionSize, count)) &&
    (forall s: nat :: s < start ==> WindowSum(ranks, s, regionSize, count) < WindowSum(ranks, start, regionSize, count))
  }

  /** Sum of frame indices, for the mean time-line position. */
  function IndexSum(idx: seq<nat>): nat
  {
    if idx == [] then 0 else idx[0] + IndexSum(idx[1..])
  }

  lemma {:induction false} IndexSumBounds(idx: seq<nat>, lo: nat, hi: nat)
    requires forall k :: 0 <= k < |idx| ==> lo <= idx[k] < hi
    ensures lo * |idx| <= IndexSum(idx)
    ensures idx != [] ==> IndexSum(idx) <= (hi - 1) * |idx|
  {
    if idx != [] {
      var n := |idx|;
      IndexSumBounds(idx[1..], lo, hi);
      assert IndexSum(idx) == idx[0] + IndexSum(idx[1..]);
      assert lo <= idx[0] <= hi - 1;
      MultiplySucc(lo, n - 1);
      MultiplySucc(hi - 1, n - 1);
    }
  }

  lemma MultiplySucc(a: nat, n: nat)
    ensures a * (n + 1) == a * n + a
  {
  }
}
