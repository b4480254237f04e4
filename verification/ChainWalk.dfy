/**
 * The cluster-chain walk of bios/fat.c: a hare that follows the chain, a
 * tortoise at half its speed, and a hop ceiling. The table is any function
 * from clusters to entries; clusters are 2 .. total + 1.
 */
module ChainWalk {
  type Table = nat -> nat

  predicate InRange(total: nat, c: nat) {
    2 <= c < total + 2
  }

  /** The n-th cluster of a chain, found by following the table one entry at a time. */
  function Nth(next: Table, first: nat, n: nat): nat {
    if n == 0 then first else next(Nth(next, first, n - 1))
  }

  datatype Walk = Walk(cluster: nat, tortoise: nat, hops: nat, due: bool)

  datatype Step = Moved(w: Walk) | ChainEnd | ChainLong | ChainCycle

  function Start(first: nat): Walk {
    Walk(first, first, 0, true)
  }

  /** One hop, when every read of the table succeeds. */
  function Advance(next: Table, total: nat, w: Walk): Step {
    if w.hops > total then ChainLong
    else if !InRange(total, w.cluster) || !InRange(total, next(w.cluster)) then ChainEnd
    else if w.due then Moved(Walk(next(w.cluster), w.tortoise, w.hops + 1, false))
    else if !InRange(total, w.tortoise) || !InRange(total, next(w.tortoise)) then ChainEnd
    else if next(w.tortoise) == next(w.cluster) then ChainCycle
    else Moved(Walk(next(w.cluster), next(w.tortoise), w.hops + 1, true))
  }

  /** n hops in a row; stops at the first that fails. */
  function Hops(next: Table, total: nat, first: nat, n: nat): Step {
    if n == 0 then Moved(Start(first))
    else
      match Hops(next, total, first, n - 1)
      case Moved(w) => Advance(next, total, w)
      case fail => fail
  }

  lemma NoHops(next: Table, total: nat, first: nat)
    ensures Hops(next, total, first, 0) == Moved(Start(first)) && Nth(next, first, 0) == first
  {
  }

  lemma OneMoreHop(next: Table, total: nat, first: nat, n: nat, w: Walk)
    requires Hops(next, total, first, n) == Moved(w)
    ensures Hops(next, total, first, n + 1) == Advance(next, total, w)
  {
  }

  /** After n hops the hare is at cluster n and the tortoise at cluster n/2. */
  lemma {:induction false} HopsPosition(next: Table, total: nat, first: nat, n: nat)
    ensures Hops(next, total, first, n).Moved? ==>
      Hops(next, total, first, n).w == Walk(Nth(next, first, n), Nth(next, first, n / 2), n, n % 2 == 0)
  {
    if n == 0 {
    } else {
      HopsPosition(next, total, first, n - 1);
      if n % 2 == 0 {
        assert n / 2 == (n - 1) / 2 + 1;
      } else {
        assert n / 2 == (n - 1) / 2;
      }
    }
  }

  lemma {:induction false} HopsStuck(next: Table, total: nat, first: nat, m: nat, n: nat)
    requires m <= n && !Hops(next, total, first, m).Moved?
    ensures Hops(next, total, first, n) == Hops(next, total, first, m)
  {
    if m == n {
    } else {
      HopsStuck(next, total, first, m, n - 1);
    }
  }

  /** In every case at most total + 1 hops succeed. */
  lemma HopsBounded(next: Table, total: nat, first: nat, n: nat)
    requires Hops(next, total, first, n).Moved?
    ensures n <= total + 1
  {
    if n > 0 {
      HopsPosition(next, total, first, n - 1);
    }
  }

  lemma {:induction false} NthShift(next: Table, first: nat, i: nat, j: nat, k: nat)
    requires Nth(next, first, i) == Nth(next, first, j)
    ensures Nth(next, first, i + k) == Nth(next, first, j + k)
  {
    if k == 0 {
    } else {
      NthShift(next, first, i, j, k - 1);
    }
  }

  /** A chain of len clusters: the first len numbers are clusters, the next is not. */
  ghost predicate Ends(next: Table, total: nat, first: nat, len: nat) {
    && len > 0
    && (forall i :: 0 <= i < len ==> InRange(total, Nth(next, first, i)))
    && !InRange(total, Nth(next, first, len))
  }

  /** A chain that ends never visits a cluster twice. */
  lemma EndedIsDistinct(next: Table, total: nat, first: nat, len: nat, i: nat, j: nat)
    requires Ends(next, total, first, len) && i < j < len
    ensures Nth(next, first, i) != Nth(next, first, j)
  {
    var back := i + (len - j);
    assert InRange(total, Nth(next, first, back));
    if Nth(next, first, i) == Nth(next, first, j) {
      NthShift(next, first, i, j, len - j);
      assert false;
    }
  }

  ghost predicate Apart(f: nat -> nat, len: nat) {
    forall i, j :: 0 <= i < j < len ==> f(i) != f(j)
  }

  function Images(f: nat -> nat, len: nat): set<nat> {
    if len == 0 then {} else Images(f, len - 1) + {f(len - 1)}
  }

  lemma {:induction false} ImagesMiss(f: nat -> nat, len: nat, c: nat)
    requires forall i :: 0 <= i < len ==> f(i) != c
    ensures c !in Images(f, len)
  {
    if len == 0 {
    } else {
      ImagesMiss(f, len - 1, c);
    }
  }

  lemma {:induction false} ImagesWithin(f: nat -> nat, len: nat, s: set<nat>)
    requires forall i :: 0 <= i < len ==> f(i) in s
    ensures Images(f, len) <= s
  {
    if len == 0 {
    } else {
      ImagesWithin(f, len - 1, s);
    }
  }

  lemma {:induction false} ImagesSize(f: nat -> nat, len: nat)
    requires Apart(f, len)
    ensures |Images(f, len)| == len
  {
    if len == 0 {
    } else {
      ImagesSize(f, len - 1);
      ImagesMiss(f, len - 1, f(len - 1));
    }
  }

  function Clusters(total: nat): (s: set<nat>)
    ensures |s| == total
    ensures forall c :: c in s <==> InRange(total, c)
  {
    if total == 0 then {} else Clusters(total - 1) + {total + 1}
  }

  lemma {:induction false} SubsetSize(a: set<nat>, b: set<nat>)
    requires a <= b
    ensures |a| <= |b|
  {
    if a == {} {
    } else {
      var x :| x in a;
      SubsetSize(a - {x}, b - {x});
    }
  }

  lemma Pigeonhole(f: nat -> nat, total: nat, len: nat)
    requires Apart(f, len) && forall i :: 0 <= i < len ==> InRange(total, f(i))
    ensures len <= total
  {
    ImagesSize(f, len);
    ImagesWithin(f, len, Clusters(total));
    SubsetSize(Images(f, len), Clusters(total));
  }

  lemma ChainFits(next: Table, total: nat, first: nat, len: nat)
    requires Ends(next, total, first, len)
    ensures len <= total
  {
    var f := (n: nat) => Nth(next, first, n);
    forall i, j | 0 <= i < j < len
      ensures f(i) != f(j)
    {
      EndedIsDistinct(next, total, first, len, i, j);
    }
    Pigeonhole(f, total, len);
  }

  /** A chain that ends is walked to its end and only then refused, as ended - never as a cycle or as too long. */
  lemma {:induction false} AcyclicWalk(next: Table, total: nat, first: nat, len: nat, n: nat)
    requires Ends(next, total, first, len)
    ensures if n < len then Hops(next, total, first, n).Moved? else Hops(next, total, first, n).ChainEnd?
  {
    if n == 0 {
    } else {
      AcyclicWalk(next, total, first, len, n - 1);
      if n <= len {
        ChainFits(next, total, first, len);
        HopsPosition(next, total, first, n - 1);
        assert InRange(total, Nth(next, first, n - 1));
        if n < len {
          assert InRange(total, Nth(next, first, n)) && Nth(next, first, n) == next(Nth(next, first, n - 1));
          if n % 2 == 0 {
            var m := (n - 1) / 2;
            assert n / 2 == m + 1;
            assert InRange(total, Nth(next, first, m)) && InRange(total, Nth(next, first, m + 1));
            EndedIsDistinct(next, total, first, len, m + 1, n);
          }
        }
      }
    }
  }

  ghost predicate Multiple(lambda: nat, m: nat)
    decreases m
  {
    m == 0 || (0 < lambda <= m && Multiple(lambda, m - lambda))
  }

  /** The least positive multiple of lambda that is at least mu. */
  function MeetAt(mu: nat, lambda: nat): (j: nat)
    requires lambda > 0
    ensures j > 0 && mu <= j <= mu + lambda
    decreases mu
  {
    if mu <= lambda then lambda else lambda + MeetAt(mu - lambda, lambda)
  }

  lemma {:induction false} MeetAtIsMultiple(mu: nat, lambda: nat)
    requires lambda > 0
    ensures Multiple(lambda, MeetAt(mu, lambda))
    decreases mu
  {
    if mu > lambda {
      MeetAtIsMultiple(mu - lambda, lambda);
    } else {
      assert Multiple(lambda, 0);
    }
  }

  lemma {:induction false} MeetAtIsLeast(mu: nat, lambda: nat, m: nat)
    requires lambda > 0 && m > 0 && m >= mu && Multiple(lambda, m)
    ensures m >= MeetAt(mu, lambda)
    decreases mu
  {
    if mu <= lambda {
    } else {
      MeetAtIsLeast(mu - lambda, lambda, m - lambda);
    }
  }

  lemma {:induction false} MultipleDiff(lambda: nat, a: nat, b: nat)
    requires lambda > 0 && a <= b && Multiple(lambda, a) && Multiple(lambda, b)
    ensures Multiple(lambda, b - a)
    decreases a
  {
    if a == 0 {
    } else {
      MultipleDiff(lambda, a - lambda, b - lambda);
    }
  }

  lemma {:induction false} RoundAndRound(next: Table, first: nat, mu: nat, lambda: nat, k: nat, m: nat)
    requires k >= mu && Nth(next, first, mu) == Nth(next, first, mu + lambda) && Multiple(lambda, m)
    ensures Nth(next, first, k) == Nth(next, first, k + m)
    decreases m
  {
    if m == 0 {
    } else {
      RoundAndRound(next, first, mu, lambda, k, m - lambda);
      NthShift(next, first, mu, mu + lambda, k + m - lambda - mu);
    }
  }

  /** A chain with tail mu and loop lambda is refused no later than hop 2 * (mu + lambda). */
  lemma CyclicWalk(next: Table, total: nat, first: nat, mu: nat, lambda: nat)
    requires lambda > 0 && Nth(next, first, mu) == Nth(next, first, mu + lambda)
    ensures !Hops(next, total, first, 2 * (mu + lambda)).Moved?
  {
    var j := MeetAt(mu, lambda);
    MeetAtIsMultiple(mu, lambda);
    RoundAndRound(next, first, mu, lambda, j, j);
    Meets(next, total, first, j);
    HopsStuck(next, total, first, 2 * j, 2 * (mu + lambda));
  }

  /** When cluster 2j is cluster j again, hop 2j fails. */
  lemma Meets(next: Table, total: nat, first: nat, j: nat)
    requires j > 0 && Nth(next, first, j) == Nth(next, first, 2 * j)
    ensures !Hops(next, total, first, 2 * j).Moved?
  {
    HopsPosition(next, total, first, 2 * j - 1);
    assert (2 * j - 1) / 2 == j - 1 && (2 * j - 1) % 2 == 1;
    assert Nth(next, first, j) == next(Nth(next, first, j - 1));
    assert Nth(next, first, 2 * j) == next(Nth(next, first, 2 * j - 1));
  }

  lemma {:induction false} HopsInRange(next: Table, total: nat, first: nat, n: nat)
    requires InRange(total, first) && Hops(next, total, first, n).Moved?
    ensures forall i :: 0 <= i <= n ==> InRange(total, Nth(next, first, i))
  {
    if n == 0 {
    } else {
      HopsInRange(next, total, first, n - 1);
      HopsPosition(next, total, first, n - 1);
    }
  }

  /** The walk says "ended" of exactly the chains that end. */
  lemma {:induction false} EndVerdictIsTrue(next: Table, total: nat, first: nat, n: nat)
    requires InRange(total, first) && Hops(next, total, first, n).ChainEnd?
    ensures exists len: nat :: len <= n && Ends(next, total, first, len)
  {
    if Hops(next, total, first, n - 1).Moved? {
      HopsInRange(next, total, first, n - 1);
      HopsPosition(next, total, first, n - 1);
      var m := (n - 1) / 2;
      assert Nth(next, first, m + 1) == next(Nth(next, first, m));
      assert m + 1 < n ==> InRange(total, Nth(next, first, m + 1));
      assert !InRange(total, Nth(next, first, n));
      assert Ends(next, total, first, n);
    } else {
      EndVerdictIsTrue(next, total, first, n - 1);
    }
  }

  /** By hop total + 2 the walk has stopped, and its verdict tells whether the chain ends. */
  lemma WalkIsExact(next: Table, total: nat, first: nat)
    requires InRange(total, first)
    ensures !Hops(next, total, first, total + 2).Moved?
    ensures Hops(next, total, first, total + 2).ChainEnd? <==> exists len: nat :: Ends(next, total, first, len)
  {
    if Hops(next, total, first, total + 2).Moved? {
      HopsBounded(next, total, first, total + 2);
      assert false;
    }
    if Hops(next, total, first, total + 2).ChainEnd? {
      EndVerdictIsTrue(next, total, first, total + 2);
    }
    if len: nat :| Ends(next, total, first, len) {
      ChainFits(next, total, first, len);
      AcyclicWalk(next, total, first, len, total + 2);
    }
  }

  // ---- Chains that loop: the exact hop ----

  /** The chain runs into a loop of lambda clusters after a tail of mu, all of them distinct. */
  ghost predicate Loops(next: Table, total: nat, first: nat, mu: nat, lambda: nat) {
    && lambda > 0
    && (forall i :: 0 <= i < mu + lambda ==> InRange(total, Nth(next, first, i)))
    && (forall i, j :: 0 <= i < j < mu + lambda ==> Nth(next, first, i) != Nth(next, first, j))
    && Nth(next, first, mu) == Nth(next, first, mu + lambda)
  }

  /** The first position at which the cluster of position i stands. */
  function Rep(mu: nat, lambda: nat, i: nat): (r: nat)
    requires lambda > 0
    ensures r < mu + lambda && r <= i && (r < i ==> r >= mu)
    decreases i
  {
    if i < mu + lambda then i else Rep(mu, lambda, i - lambda)
  }

  lemma {:induction false} RepIsSame(next: Table, total: nat, first: nat, mu: nat, lambda: nat, i: nat)
    requires Loops(next, total, first, mu, lambda)
    ensures Nth(next, first, i) == Nth(next, first, Rep(mu, lambda, i)) && Multiple(lambda, i - Rep(mu, lambda, i))
    decreases i
  {
    if i < mu + lambda {
    } else {
      RepIsSame(next, total, first, mu, lambda, i - lambda);
      NthShift(next, first, mu, mu + lambda, i - lambda - mu);
    }
  }

  /** Cluster j is cluster 2j again exactly at the positive multiples of lambda from mu on. */
  lemma MeetsOnlyAt(next: Table, total: nat, first: nat, mu: nat, lambda: nat, j: nat)
    requires Loops(next, total, first, mu, lambda) && 0 < j
    requires Nth(next, first, j) == Nth(next, first, 2 * j)
    ensures j >= MeetAt(mu, lambda)
  {
    RepIsSame(next, total, first, mu, lambda, j);
    RepIsSame(next, total, first, mu, lambda, 2 * j);
    var r, s := Rep(mu, lambda, j), Rep(mu, lambda, 2 * j);
    assert r == s by {
      assert Nth(next, first, r) == Nth(next, first, s);
    }
    MultipleDiff(lambda, j - r, 2 * j - r);
    MeetAtIsLeast(mu, lambda, j);
  }

  /** On a chain that loops, hop n succeeds exactly below twice the meeting position and within the hop ceiling. */
  lemma {:induction false} LoopWalk(next: Table, total: nat, first: nat, mu: nat, lambda: nat, n: nat)
    requires Loops(next, total, first, mu, lambda)
    ensures Hops(next, total, first, n).Moved? <==> n < 2 * MeetAt(mu, lambda) && n <= total + 1
  {
    var j := MeetAt(mu, lambda);
    if n >= 2 * j {
      MeetAtIsMultiple(mu, lambda);
      RoundAndRound(next, first, mu, lambda, j, j);
      Meets(next, total, first, j);
      HopsStuck(next, total, first, 2 * j, n);
    } else if n > total + 1 {
      if Hops(next, total, first, n).Moved? {
        HopsBounded(next, total, first, n);
      }
    } else if n > 0 {
      LoopWalk(next, total, first, mu, lambda, n - 1);
      LoopStep(next, total, first, mu, lambda, n);
    }
  }

  /** One hop that does not meet the tortoise succeeds. */
  lemma LoopStep(next: Table, total: nat, first: nat, mu: nat, lambda: nat, n: nat)
    requires Loops(next, total, first, mu, lambda) && 0 < n < 2 * MeetAt(mu, lambda) && n <= total + 1
    requires Hops(next, total, first, n - 1).Moved?
    ensures Hops(next, total, first, n).Moved?
  {
    hide Loops, MeetAt;
    HopsPosition(next, total, first, n - 1);
    LoopInRange(next, total, first, mu, lambda, n - 1);
    LoopInRange(next, total, first, mu, lambda, n);
    if n % 2 == 0 {
      var m := n / 2;
      assert (n - 1) / 2 == m - 1;
      LoopInRange(next, total, first, mu, lambda, m - 1);
      LoopInRange(next, total, first, mu, lambda, m);
      if Nth(next, first, m) == Nth(next, first, 2 * m) {
        MeetsOnlyAt(next, total, first, mu, lambda, m);
      }
    }
  }

  lemma LoopInRange(next: Table, total: nat, first: nat, mu: nat, lambda: nat, i: nat)
    requires Loops(next, total, first, mu, lambda)
    ensures InRange(total, Nth(next, first, i))
  {
    RepIsSame(next, total, first, mu, lambda, i);
  }

  ghost predicate Repeats(next: Table, first: nat, n: nat) {
    exists i, j :: 0 <= i < j <= n && Nth(next, first, i) == Nth(next, first, j)
  }

  /** Among the first n + 1 clusters of a looping chain one repeats exactly when n has gone round once. */
  lemma RepeatsIff(next: Table, total: nat, first: nat, mu: nat, lambda: nat, n: nat)
    requires Loops(next, total, first, mu, lambda)
    ensures Repeats(next, first, n) <==> mu + lambda <= n
  {
    if mu + lambda <= n {
      assert 0 <= mu < mu + lambda <= n && Nth(next, first, mu) == Nth(next, first, mu + lambda);
    }
  }

  /** Every chain that starts at a cluster either ends or loops. */
  lemma EndsOrLoops(next: Table, total: nat, first: nat)
    requires InRange(total, first)
    ensures (exists len: nat :: Ends(next, total, first, len))
         || (exists mu: nat, lambda: nat :: Loops(next, total, first, mu, lambda))
  {
    assert Nth(next, first, 0) == first;
    hide Nth;
    var n := 1;
    while n <= total
      invariant 1 <= n <= total + 1
      invariant forall i :: 0 <= i < n ==> InRange(total, Nth(next, first, i))
      invariant forall i, j :: 0 <= i < j < n ==> Nth(next, first, i) != Nth(next, first, j)
    {
      if !InRange(total, Nth(next, first, n)) {
        assert Ends(next, total, first, n);
        return;
      }
      if i :| 0 <= i < n && Nth(next, first, i) == Nth(next, first, n) {
        assert Loops(next, total, first, i, n - i);
        return;
      }
      n := n + 1;
    }
    var f := (k: nat) => Nth(next, first, k);
    Pigeonhole(f, total, total + 1);
    assert false;
  }

  /**
   * A walk of n hops can succeed and still have been at one cluster twice:
   * exactly on a chain with tail mu and loop lambda, and exactly from hop
   * mu + lambda on until the hop at which the walkers meet.
   */
  lemma UnnoticedRepeat(next: Table, total: nat, first: nat, n: nat)
    requires InRange(total, first)
    ensures Hops(next, total, first, n).Moved? && Repeats(next, first, n) <==>
      exists mu: nat, lambda: nat :: Loops(next, total, first, mu, lambda) && mu + lambda <= n < 2 * MeetAt(mu, lambda) && n <= total + 1
  {
    if mu: nat, lambda: nat :| Loops(next, total, first, mu, lambda) {
      LoopWalk(next, total, first, mu, lambda, n);
      RepeatsIff(next, total, first, mu, lambda, n);
      forall a: nat, b: nat | Loops(next, total, first, a, b)
        ensures Hops(next, total, first, n).Moved? && Repeats(next, first, n) <==> a + b <= n < 2 * MeetAt(a, b) && n <= total + 1
      {
        LoopWalk(next, total, first, a, b, n);
        RepeatsIff(next, total, first, a, b, n);
      }
    } else {
      EndsOrLoops(next, total, first);
      var len: nat :| Ends(next, total, first, len);
      AcyclicWalk(next, total, first, len, n);
      if n < len && Repeats(next, first, n) {
        var i, j :| 0 <= i < j <= n && Nth(next, first, i) == Nth(next, first, j);
        EndedIsDistinct(next, total, first, len, i, j);
      }
    }
  }

  /** The first half of a successful walk is free of repeats on every table. */
  lemma FirstHalfDistinct(next: Table, total: nat, first: nat, n: nat, i: nat, j: nat)
    requires Hops(next, total, first, n).Moved? && i < j && 2 * j <= n
    ensures Nth(next, first, i) != Nth(next, first, j)
  {
    if Nth(next, first, i) == Nth(next, first, j) {
      CyclicWalk(next, total, first, i, j - i);
      HopsStuck(next, total, first, 2 * j, n);
    }
  }

  /** The smallest such walk: a cluster that follows itself. */
  lemma SelfLoop(total: nat)
    requires total >= 1
    ensures var next := (c: nat) => 2; Hops(next, total, 2, 1).Moved? && Nth(next, 2, 0) == Nth(next, 2, 1)
  {
    var next := (c: nat) => 2;
    NoHops(next, total, 2);
    OneMoreHop(next, total, 2, 0, Start(2));
    assert Nth(next, 2, 1) == next(Nth(next, 2, 0));
  }
}
