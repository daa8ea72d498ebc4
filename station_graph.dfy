/** The station graph as the engine sees it: an N x N matrix of travel times in
    minutes in which INF stands for "no direct connection", walks through it,
    their total time, and what "the shortest total time" means. */
module StationGraph {
  import JavaText

  /** MetroDataHandler.INF and PathfindingAlgorithm.INF (Integer.MAX_VALUE):
      "no edge" as a matrix entry, "unreachable" as a distance. */
  const INF: int := JavaText.IntMax

  type Matrix = seq<seq<int>>

  predicate Square(w: Matrix) {
    forall i :: 0 <= i < |w| ==> |w[i]| == |w|
  }

  predicate Symmetric(w: Matrix)
    requires Square(w)
  {
    forall i, j :: 0 <= i < |w| && 0 <= j < |w| ==> w[i][j] == w[j][i]
  }

  /** No negative travel time: the engine's precondition. */
  predicate NonNegative(w: Matrix)
    requires Square(w)
  {
    forall i, j :: 0 <= i < |w| && 0 <= j < |w| ==> w[i][j] >= 0
  }

  /** A walk through the stations in which every step uses a finite entry. */
  predicate IsPath(w: Matrix, p: seq<nat>) {
    Square(w) && |p| >= 1 &&
    (forall k :: 0 <= k < |p| ==> p[k] < |w|) &&
    (forall k :: 0 <= k < |p| - 1 ==> w[p[k]][p[k + 1]] != INF)
  }

  predicate IsPathBetween(w: Matrix, p: seq<nat>, s: nat, e: nat) {
    IsPath(w, p) && p[0] == s && p[|p| - 1] == e
  }

  /** The total travel time of a walk: the sum of the entries of its steps. */
  function PathWeight(w: Matrix, p: seq<nat>): int
    requires IsPath(w, p)
  {
    if |p| == 1 then 0
    else
      assert IsPath(w, p[..|p| - 1]);
      PathWeight(w, p[..|p| - 1]) + w[p[|p| - 2]][p[|p| - 1]]
  }

  /** `c` is the least total time from `s` to `e`, capped at INF: when c < INF some
      walk takes exactly c; every walk takes at least c; c == INF says that no
      walk takes less than INF (in particular, when there is none). */
  ghost predicate IsShortestCost(w: Matrix, s: nat, e: nat, c: int) {
    c <= INF &&
    (forall p :: IsPathBetween(w, p, s, e) ==> c <= PathWeight(w, p)) &&
    (c < INF ==> exists p :: IsPathBetween(w, p, s, e) && PathWeight(w, p) == c)
  }

  // ---------------------------------------------------------------- lemmas

  lemma {:induction false} PathWeightNonNegative(w: Matrix, p: seq<nat>)
    requires IsPath(w, p) && NonNegative(w)
    ensures PathWeight(w, p) >= 0
  {
    if |p| > 1 {
      PathWeightNonNegative(w, p[..|p| - 1]);
    }
  }

  /** The total time of the steps of `p` from position i to position j. */
  function StepsWeight(w: Matrix, p: seq<nat>, i: nat, j: nat): int
    requires IsPath(w, p) && i <= j < |p|
    decreases j
  {
    if j == i then 0 else StepsWeight(w, p, i, j - 1) + w[p[j - 1]][p[j]]
  }

  /** The first b stations of a walk form a walk with the same first steps. */
  lemma {:induction false} StepsWeightPrefix(w: Matrix, p: seq<nat>, b: nat, n: nat)
    requires IsPath(w, p) && 0 < b <= |p| && n < b
    ensures IsPath(w, p[..b])
    ensures StepsWeight(w, p[..b], 0, n) == StepsWeight(w, p, 0, n)
  {
    var r := p[..b];
    assert forall m :: 0 <= m < |r| ==> r[m] == p[m];
    if n > 0 {
      StepsWeightPrefix(w, p, b, n - 1);
    }
  }

  /** The stations of a walk from position a on form a walk with its later steps. */
  lemma {:induction false} StepsWeightSuffix(w: Matrix, p: seq<nat>, a: nat, n: nat)
    requires IsPath(w, p) && a < |p| && n < |p| - a
    ensures IsPath(w, p[a..])
    ensures StepsWeight(w, p[a..], 0, n) == StepsWeight(w, p, a, a + n)
  {
    var r := p[a..];
    assert forall m :: 0 <= m < |r| ==> r[m] == p[a + m];
    if n > 0 {
      StepsWeightSuffix(w, p, a, n - 1);
    }
  }

  /** Step totals add up over consecutive stretches. */
  lemma {:induction false} StepsWeightAdd(w: Matrix, p: seq<nat>, i: nat, m: nat, j: nat)
    requires IsPath(w, p) && i <= m <= j < |p|
    ensures StepsWeight(w, p, i, j) == StepsWeight(w, p, i, m) + StepsWeight(w, p, m, j)
    decreases j
  {
    if j > m {
      StepsWeightAdd(w, p, i, m, j - 1);
    }
  }

  /** A walk's total is the total of all its steps. */
  lemma {:induction false} PathWeightSteps(w: Matrix, p: seq<nat>)
    requires IsPath(w, p)
    ensures PathWeight(w, p) == StepsWeight(w, p, 0, |p| - 1)
  {
    if |p| > 1 {
      var q := p[..|p| - 1];
      StepsWeightPrefix(w, p, |p| - 1, |p| - 2);
      PathWeightSteps(w, q);
    }
  }

  /** The part of a walk up to position k weighs its first k steps. */
  lemma PrefixWeight(w: Matrix, p: seq<nat>, k: nat)
    requires IsPath(w, p) && k < |p|
    ensures IsPath(w, p[..k + 1])
    ensures PathWeight(w, p[..k + 1]) == StepsWeight(w, p, 0, k)
  {
    StepsWeightPrefix(w, p, k + 1, k);
    PathWeightSteps(w, p[..k + 1]);
  }

  /** The part of a walk from position k on weighs its steps from k on. */
  lemma SuffixWeight(w: Matrix, p: seq<nat>, k: nat)
    requires IsPath(w, p) && k < |p|
    ensures IsPath(w, p[k..])
    ensures PathWeight(w, p[k..]) == StepsWeight(w, p, k, |p| - 1)
  {
    StepsWeightSuffix(w, p, k, |p| - 1 - k);
    PathWeightSteps(w, p[k..]);
  }

  /** The total of a walk is the total of its part up to position k plus the total
      of its part from position k. */
  lemma PathWeightSplit(w: Matrix, p: seq<nat>, k: nat)
    requires IsPath(w, p) && k < |p|
    ensures IsPath(w, p[..k + 1]) && IsPath(w, p[k..])
    ensures PathWeight(w, p) == PathWeight(w, p[..k + 1]) + PathWeight(w, p[k..])
  {
    PrefixWeight(w, p, k);
    SuffixWeight(w, p, k);
    PathWeightSteps(w, p);
    StepsWeightAdd(w, p, 0, k, |p| - 1);
  }

  /** Gluing two walks that meet adds their totals. */
  lemma PathConcat(w: Matrix, p: seq<nat>, q: seq<nat>)
    requires IsPath(w, p) && IsPath(w, q) && p[|p| - 1] == q[0]
    ensures IsPath(w, p + q[1..])
    ensures PathWeight(w, p + q[1..]) == PathWeight(w, p) + PathWeight(w, q)
  {
    var r := p + q[1..];
    assert IsPath(w, r) by {
      forall k | 0 <= k < |r| - 1 ensures w[r[k]][r[k + 1]] != INF {
        if k < |p| - 1 {
          assert r[k] == p[k] && r[k + 1] == p[k + 1];
        } else {
          assert r[k] == q[k - |p| + 1] && r[k + 1] == q[k - |p| + 2];
        }
      }
    }
    PathWeightSplit(w, r, |p| - 1);
    assert r[..|p|] == p;
    assert r[|p| - 1..] == q;
  }

  /** A walk from s to m followed by a walk from m to e is a walk from s to e. */
  lemma JoinWalks(w: Matrix, p: seq<nat>, q: seq<nat>, s: nat, m: nat, e: nat)
    requires IsPathBetween(w, p, s, m) && IsPathBetween(w, q, m, e)
    ensures IsPathBetween(w, p + q[1..], s, e)
    ensures PathWeight(w, p + q[1..]) == PathWeight(w, p) + PathWeight(w, q)
  {
    PathConcat(w, p, q);
    var r := p + q[1..];
    if |q| == 1 {
      assert r == p;
    } else {
      assert r[|r| - 1] == q[|q| - 1];
    }
  }

  /** A walk's total, taken from its first step on. */
  lemma PathWeightCons(w: Matrix, p: seq<nat>)
    requires IsPath(w, p) && |p| >= 2
    ensures IsPath(w, p[1..])
    ensures PathWeight(w, p) == w[p[0]][p[1]] + PathWeight(w, p[1..])
  {
    PathWeightSplit(w, p, 1);
    assert p[..2][..1] == [p[0]];
  }

  /** In a symmetric matrix a walk taken backwards takes the same time. */
  lemma {:induction false} PathReversed(w: Matrix, p: seq<nat>)
    requires IsPath(w, p) && Symmetric(w)
    ensures IsPath(w, JavaText.Reversed(p))
    ensures PathWeight(w, JavaText.Reversed(p)) == PathWeight(w, p)
    decreases |p|
  {
    var r := JavaText.Reversed(p);
    assert IsPath(w, r) by {
      forall k | 0 <= k < |r| - 1 ensures w[r[k]][r[k + 1]] != INF {
        var i := |p| - 2 - k;
        assert r[k] == p[i + 1] && r[k + 1] == p[i];
      }
    }
    if |p| > 1 {
      var q := p[..|p| - 1];
      PathReversed(w, q);
      PathWeightCons(w, r);
      assert r[1..] == JavaText.Reversed(q);
    }
  }

  /** At most one number is the shortest cost between two stations. */
  lemma ShortestCostUnique(w: Matrix, s: nat, e: nat, c1: int, c2: int)
    requires IsShortestCost(w, s, e, c1) && IsShortestCost(w, s, e, c2)
    ensures c1 == c2
  {
  }

  /** Without negative times no shortest cost is negative. */
  lemma ShortestCostNonNegative(w: Matrix, s: nat, e: nat, c: int)
    requires Square(w) && NonNegative(w) && IsShortestCost(w, s, e, c)
    ensures 0 <= c
  {
    if c < INF {
      var p :| IsPathBetween(w, p, s, e) && PathWeight(w, p) == c;
      PathWeightNonNegative(w, p);
    }
  }

  /** Without negative times no station's shortest cost is negative. */
  lemma ShortestCostsNonNegative(w: Matrix, s: nat, dist: seq<int>)
    requires Square(w) && NonNegative(w) && |dist| == |w|
    requires forall t :: 0 <= t < |w| ==> IsShortestCost(w, s, t, dist[t])
    ensures forall t :: 0 <= t < |w| ==> 0 <= dist[t] <= INF
  {
    forall t | 0 <= t < |w| ensures 0 <= dist[t] {
      ShortestCostNonNegative(w, s, t, dist[t]);
    }
  }

  /** In a symmetric matrix the shortest cost from s to e is the one from e to s. */
  lemma ShortestCostSymmetric(w: Matrix, s: nat, e: nat, c: int)
    requires Square(w) && Symmetric(w) && IsShortestCost(w, s, e, c)
    ensures IsShortestCost(w, e, s, c)
  {
    forall p | IsPathBetween(w, p, e, s) ensures c <= PathWeight(w, p) {
      PathReversed(w, p);
      var r := JavaText.Reversed(p);
      assert IsPathBetween(w, r, s, e);
    }
    if c < INF {
      var p :| IsPathBetween(w, p, s, e) && PathWeight(w, p) == c;
      PathReversed(w, p);
      var r := JavaText.Reversed(p);
      assert IsPathBetween(w, r, e, s);
    }
  }

  /** Staying put costs nothing: from a station to itself the shortest cost is 0. */
  lemma ShortestCostToSelf(w: Matrix, s: nat)
    requires Square(w) && NonNegative(w) && s < |w|
    ensures IsShortestCost(w, s, s, 0)
  {
    forall p | IsPathBetween(w, p, s, s) ensures 0 <= PathWeight(w, p) {
      PathWeightNonNegative(w, p);
    }
    assert IsPathBetween(w, [s], s, s) && PathWeight(w, [s]) == 0;
  }

  /** When a walk from s to m followed by a walk from m to e is shortest, so are
      both of them. */
  lemma ShortestHalves(w: Matrix, head: seq<nat>, tail: seq<nat>, s: nat, m: nat, e: nat)
    requires IsPathBetween(w, head, s, m) && IsPathBetween(w, tail, m, e) && NonNegative(w)
    requires IsShortestCost(w, s, e, PathWeight(w, head) + PathWeight(w, tail))
    ensures IsShortestCost(w, s, m, PathWeight(w, head))
    ensures IsShortestCost(w, m, e, PathWeight(w, tail))
  {
    var c := PathWeight(w, head) + PathWeight(w, tail);
    PathWeightNonNegative(w, head);
    PathWeightNonNegative(w, tail);
    forall q | IsPathBetween(w, q, s, m) ensures PathWeight(w, head) <= PathWeight(w, q) {
      JoinWalks(w, q, tail, s, m, e);
      assert c <= PathWeight(w, q + tail[1..]);
    }
    forall q | IsPathBetween(w, q, m, e) ensures PathWeight(w, tail) <= PathWeight(w, q) {
      JoinWalks(w, head, q, s, m, e);
      assert c <= PathWeight(w, head + q[1..]);
    }
  }

  /** The part of a shortest walk up to position k is a shortest walk. */
  lemma ShortestPrefix(w: Matrix, p: seq<nat>, k: nat)
    requires IsPath(w, p) && NonNegative(w) && k < |p|
    requires IsShortestCost(w, p[0], p[|p| - 1], PathWeight(w, p))
    ensures IsPath(w, p[..k + 1])
    ensures IsShortestCost(w, p[0], p[k], PathWeight(w, p[..k + 1]))
  {
    PathWeightSplit(w, p, k);
    ShortestHalves(w, p[..k + 1], p[k..], p[0], p[k], p[|p| - 1]);
  }

  /** The part of a shortest walk from position k on is a shortest walk. */
  lemma ShortestSuffix(w: Matrix, p: seq<nat>, k: nat)
    requires IsPath(w, p) && NonNegative(w) && k < |p|
    requires IsShortestCost(w, p[0], p[|p| - 1], PathWeight(w, p))
    ensures IsPath(w, p[k..])
    ensures IsShortestCost(w, p[k], p[|p| - 1], PathWeight(w, p[k..]))
  {
    PathWeightSplit(w, p, k);
    ShortestHalves(w, p[..k + 1], p[k..], p[0], p[k], p[|p| - 1]);
  }

  /** Every station on a shortest walk splits its cost: the walk's part up to that
      station is a shortest walk to it, the rest is a shortest walk from it, and
      the two costs add up to the whole. */
  lemma ShortestSubpaths(w: Matrix, p: seq<nat>, k: nat)
    requires IsPath(w, p) && NonNegative(w) && k < |p|
    requires IsShortestCost(w, p[0], p[|p| - 1], PathWeight(w, p))
    ensures IsPath(w, p[..k + 1]) && IsPath(w, p[k..])
    ensures IsShortestCost(w, p[0], p[k], PathWeight(w, p[..k + 1]))
    ensures IsShortestCost(w, p[k], p[|p| - 1], PathWeight(w, p[k..]))
    ensures PathWeight(w, p) == PathWeight(w, p[..k + 1]) + PathWeight(w, p[k..])
  {
    PathWeightSplit(w, p, k);
    ShortestPrefix(w, p, k);
    ShortestSuffix(w, p, k);
  }
}
