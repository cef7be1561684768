/**
 * The graph as TopoSort (graph/algorithms.go) sees it, as a value: the stored names, each
 * name's cached indegree, and for each name the names its backward and undirected edges
 * point to (what EdgesBackward lists, read through `To().Name()`). The facts here are what
 * Kahn's algorithm relies on: sums of edge counts, the order it produces, and cycles.
 */
module Kahn {

  datatype Digraph<N(==)> = Digraph(keys: set<N>, indeg: map<N, int>, succ: map<N, seq<N>>)

  /** The number of edges from `p` to `v`. */
  function Occ<N(==)>(G: Digraph<N>, p: N, v: N): nat
  {
    if p in G.succ then multiset(G.succ[p])[v] else 0
  }

  /** `p` has at least one edge to `v`. */
  predicate Adj<N(==)>(G: Digraph<N>, p: N, v: N)
  {
    p in G.succ && v in G.succ[p]
  }

  lemma OccAdj<N>(G: Digraph<N>, p: N, v: N)
    ensures Occ(G, p, v) > 0 <==> Adj(G, p, v)
  {
  }

  /** The number of edges into `v` from the names in `ps`. */
  ghost function InFrom<N>(G: Digraph<N>, ps: set<N>, v: N): nat
    decreases ps
  {
    if ps == {} then 0 else var p :| p in ps; Occ(G, p, v) + InFrom(G, ps - {p}, v)
  }

  /** The number of edges into `v` from the names of the sequence `ps`, counted in order. */
  function Decs<N(==)>(G: Digraph<N>, ps: seq<N>, v: N): nat
  {
    if ps == [] then 0 else Decs(G, ps[..|ps| - 1], v) + Occ(G, ps[|ps| - 1], v)
  }

  /** Every cached indegree is the number of backward/undirected edges pointing at the name. */
  ghost predicate Exact<N>(G: Digraph<N>)
  {
    forall v | v in G.keys :: v in G.indeg && G.indeg[v] == InFrom(G, G.keys, v)
  }

  /** A closed walk of stored names: each one has an edge to the next, the last to the first. */
  predicate IsCycle<N(==)>(G: Digraph<N>, c: seq<N>)
  {
    && |c| > 0
    && (forall i | 0 <= i < |c| :: c[i] in G.keys)
    && (forall i | 0 <= i < |c| :: Adj(G, c[i], After(c, i)))
  }

  /** The element after `c[i]` on the closed walk `c`. */
  function After<T>(c: seq<T>, i: nat): T
    requires i < |c|
  {
    if i + 1 < |c| then c[i + 1] else c[0]
  }

  ghost predicate Distinct<T>(s: seq<T>)
  {
    forall i, j | 0 <= i < j < |s| :: s[i] != s[j]
  }

  /** Every stored name with an edge into `order[j]` comes before it in `order`. */
  predicate PredecessorsFirst<N(==)>(G: Digraph<N>, order: seq<N>)
  {
    forall j, p | 0 <= j < |order| && p in G.keys && Adj(G, p, order[j]) :: p in order[..j]
  }

  // ---------------------------------------------------------------------------------
  // Sums over sets and sequences
  // ---------------------------------------------------------------------------------

  /** The set sum does not depend on which element is taken first. */
  lemma {:induction false} InFromRemove<N>(G: Digraph<N>, ps: set<N>, x: N, v: N)
    requires x in ps
    ensures InFrom(G, ps, v) == Occ(G, x, v) + InFrom(G, ps - {x}, v)
    decreases ps
  {
    var y :| y in ps && InFrom(G, ps, v) == Occ(G, y, v) + InFrom(G, ps - {y}, v);
    if y != x {
      InFromRemove(G, ps - {y}, x, v);
      InFromRemove(G, ps - {x}, y, v);
      assert ps - {y} - {x} == ps - {x} - {y};
    }
  }

  /** Over a sequence without repetitions, the running count is the set sum. */
  lemma {:induction false} DecsIsInFrom<N>(G: Digraph<N>, ps: seq<N>, v: N)
    requires Distinct(ps)
    ensures Decs(G, ps, v) == InFrom(G, (set x | x in ps), v)
  {
    if ps != [] {
      var init, last := ps[..|ps| - 1], ps[|ps| - 1];
      assert ps == init + [last];
      assert last !in init;
      assert (set x | x in ps) - {last} == set x | x in init;
      DecsIsInFrom(G, init, v);
      InFromRemove(G, (set x | x in ps), last, v);
    }
  }

  /** Splitting a set splits the sum. */
  lemma {:induction false} InFromSplit<N>(G: Digraph<N>, a: set<N>, b: set<N>, v: N)
    requires a <= b
    ensures InFrom(G, b, v) == InFrom(G, a, v) + InFrom(G, b - a, v)
    decreases a
  {
    if a != {} {
      var x :| x in a;
      assert (b - {x}) - (a - {x}) == b - a;
      InFromSplit(G, a - {x}, b - {x}, v);
      InFromRemove(G, a, x, v);
      InFromRemove(G, b, x, v);
    } else {
      assert b - a == b;
    }
  }

  /** A zero sum has no contributing name; a positive one has one. */
  lemma {:induction false} InFromZero<N>(G: Digraph<N>, ps: set<N>, v: N)
    ensures InFrom(G, ps, v) == 0 <==> forall p | p in ps :: Occ(G, p, v) == 0
    decreases ps
  {
    if ps != {} {
      var x :| x in ps;
      InFromRemove(G, ps, x, v);
      InFromZero(G, ps - {x}, v);
    }
  }

  lemma {:induction false} DecsAppend<N>(G: Digraph<N>, ps: seq<N>, p: N, v: N)
    ensures Decs(G, ps + [p], v) == Decs(G, ps, v) + Occ(G, p, v)
  {
    assert (ps + [p])[..|ps|] == ps;
  }

  /** The number of times `v` occurs in a prefix grows by one exactly where `v` stands. */
  lemma PrefixCount<N>(s: seq<N>, j: nat, v: N)
    requires j < |s|
    ensures multiset(s[..j + 1])[v] == multiset(s[..j])[v] + (if s[j] == v then 1 else 0)
  {
    assert s[..j + 1] == s[..j] + [s[j]];
  }

  // ---------------------------------------------------------------------------------
  // Counting distinct elements
  // ---------------------------------------------------------------------------------

  /** A sequence without repetitions has as many elements as its set. */
  lemma {:induction false} DistinctCard<T>(s: seq<T>)
    requires Distinct(s)
    ensures |set x | x in s| == |s|
  {
    if s != [] {
      var init := s[..|s| - 1];
      DistinctCard(init);
      assert (set x | x in s) == (set x | x in init) + {s[|s| - 1]};
      assert s[|s| - 1] !in (set x | x in init);
    }
  }

  /** A subset is no larger, and a proper subset is smaller. */
  lemma {:induction false} SubsetCard<T>(A: set<T>, B: set<T>)
    requires A <= B
    ensures |A| <= |B|
    ensures |A| == |B| ==> A == B
    decreases A
  {
    if A == {} {
      if B != {} {
        var y :| y in B;
        assert |B| >= 1;
      }
    } else {
      var x :| x in A;
      SubsetCard(A - {x}, B - {x});
      if |A| == |B| {
        assert A - {x} == B - {x};
      }
    }
  }

  /** A sequence without repetitions drawn from `S` is no longer than `S`, and covers it
      when it is exactly as long. */
  lemma DistinctBound<T>(s: seq<T>, S: set<T>)
    requires Distinct(s) && forall i | 0 <= i < |s| :: s[i] in S
    ensures |s| <= |S|
    ensures |s| == |S| ==> forall x | x in S :: x in s
  {
    DistinctCard(s);
    SubsetCard((set x | x in s), S);
  }

  /** A sequence without repetitions that lists exactly the elements of `S` is as long as `S`. */
  lemma DistinctCovers<T>(s: seq<T>, S: set<T>)
    requires Distinct(s) && (forall i | 0 <= i < |s| :: s[i] in S) && forall x | x in S :: x in s
    ensures |s| == |S|
  {
    DistinctCard(s);
    assert (set x | x in s) == S;
  }

  // ---------------------------------------------------------------------------------
  // Cycles
  // ---------------------------------------------------------------------------------

  /** The first index holding `x`. */
  function Position<N(==)>(s: seq<N>, x: N): (i: nat)
    requires x in s
    ensures i < |s| && s[i] == x
    ensures forall k | 0 <= k < i :: s[k] != x
  {
    if s[0] == x then 0 else 1 + Position(s[1..], x)
  }

  /** Under PredecessorsFirst a listed name's predecessor is listed, and first listed earlier. */
  lemma PredBefore<N>(G: Digraph<N>, order: seq<N>, p: N, v: N)
    requires PredecessorsFirst(G, order) && p in G.keys && v in order && Adj(G, p, v)
    ensures p in order && Position(order, p) < Position(order, v)
  {
    var j := Position(order, v);
    assert p in order[..j];
    var k :| 0 <= k < j && order[k] == p;
  }

  /** An order that lists every predecessor first cannot contain a whole cycle: the cycle
      name listed first would have its predecessor on the cycle listed even earlier. */
  lemma CycleNotListed<N>(G: Digraph<N>, order: seq<N>, c: seq<N>)
    requires PredecessorsFirst(G, order) && IsCycle(G, c)
    ensures exists i :: 0 <= i < |c| && c[i] !in order
  {
    if forall i | 0 <= i < |c| :: c[i] in order {
      var pos := seq(|c|, i requires 0 <= i < |c| => Position(order, c[i]));
      var m := ArgMin(pos);
      var prev := CyclePrev(G, c, m);
      assert pos[m] <= pos[prev];
      assert pos[prev] == Position(order, c[prev]) && pos[m] == Position(order, c[m]);
      PredBefore(G, order, c[prev], c[m]);
      assert false;
    }
  }

  /** Every name on a cycle has its predecessor on the cycle. */
  lemma CyclePrev<N>(G: Digraph<N>, c: seq<N>, m: nat) returns (prev: nat)
    requires IsCycle(G, c) && m < |c|
    ensures prev < |c| && Adj(G, c[prev], c[m])
  {
    if m == 0 {
      prev := |c| - 1;
      assert After(c, prev) == c[0];
    } else {
      prev := m - 1;
      assert After(c, prev) == c[m];
    }
  }

  /** An index of a smallest element. */
  function ArgMin(s: seq<nat>): (m: nat)
    requires |s| > 0
    ensures m < |s| && forall i | 0 <= i < |s| :: s[m] <= s[i]
  {
    if |s| == 1 then 0 else
      var m := ArgMin(s[1..]);
      if s[0] <= s[1 + m] then 0 else 1 + m
  }

  /** `w[i + 1]` has an edge to `w[i]`. */
  predicate StepBack<N(==)>(G: Digraph<N>, w: seq<N>, i: nat)
    requires i + 1 < |w|
  {
    Adj(G, w[i + 1], w[i])
  }

  /** `r` has a predecessor in `R`. */
  ghost predicate HasPredIn<N>(G: Digraph<N>, R: set<N>, r: N)
  {
    exists p :: p in R && Adj(G, p, r)
  }

  /** When every name of the non-empty finite set `R` has a predecessor in `R`, walking
      backwards from one of them must repeat a name, which closes a cycle. */
  lemma CycleFromPredecessors<N>(G: Digraph<N>, R: set<N>)
    requires R != {} && R <= G.keys
    requires forall r {:trigger HasPredIn(G, R, r)} | r in R :: HasPredIn(G, R, r)
    ensures exists c :: IsCycle(G, c)
  {
    var P := ChoosePredecessors(G, R);
    var r :| r in R;
    var w := BackWalk(G, R, P, r, |R|);
    if Distinct(w) {
      DistinctBound(w, R);
      assert false;
    }
    var a, b :| 0 <= a < b < |w| && w[a] == w[b];
    var c := CycleInWalk(G, w, a, b);
  }

  lemma ChoosePredecessors<N>(G: Digraph<N>, R: set<N>) returns (P: map<N, N>)
    requires forall r {:trigger HasPredIn(G, R, r)} | r in R :: HasPredIn(G, R, r)
    ensures R <= P.Keys && forall r | r in R :: P[r] in R && Adj(G, P[r], r)
  {
    P := map r | r in R :: assert HasPredIn(G, R, r); var p :| p in R && Adj(G, p, r); p;
  }

  /** A backward walk that meets the same name twice, at `a` and `b`, holds a cycle: the
      names from `w[b]` down to `w[a + 1]`. */
  lemma CycleInWalk<N>(G: Digraph<N>, w: seq<N>, a: nat, b: nat) returns (c: seq<N>)
    requires a < b < |w| && w[a] == w[b]
    requires forall i | 0 <= i < |w| :: w[i] in G.keys
    requires forall i | 0 <= i < |w| - 1 :: StepBack(G, w, i)
    ensures IsCycle(G, c)
  {
    c := seq(b - a, i requires 0 <= i < b - a => w[b - i]);
    forall i | 0 <= i < |c|
      ensures Adj(G, c[i], After(c, i))
    {
      if i + 1 < |c| {
        assert After(c, i) == w[b - i - 1];
        assert StepBack(G, w, b - i - 1);
      } else {
        assert After(c, i) == w[a];
        assert c[i] == w[a + 1];
        assert StepBack(G, w, a);
      }
    }
  }

  /** A walk of `n` backward steps inside `R` from `r`, following the chosen predecessors `P`. */
  lemma {:induction false} BackWalk<N>(G: Digraph<N>, R: set<N>, P: map<N, N>, r: N, n: nat) returns (w: seq<N>)
    requires r in R && R <= P.Keys
    requires forall r | r in R :: P[r] in R && Adj(G, P[r], r)
    ensures |w| == n + 1 && w[0] == r
    ensures forall i | 0 <= i < |w| :: w[i] in R
    ensures forall i | 0 <= i < n :: StepBack(G, w, i)
  {
    if n == 0 {
      w := [r];
    } else {
      var rest := BackWalk(G, R, P, P[r], n - 1);
      w := [r] + rest;
      forall i | 0 <= i < n
        ensures StepBack(G, w, i)
      {
        if i > 0 {
          assert StepBack(G, rest, i - 1);
        }
      }
    }
  }

  // ---------------------------------------------------------------------------------
  // The state of Kahn's algorithm
  // ---------------------------------------------------------------------------------

  /** Every stored name has a cached indegree and a list of successors, and no other name does. */
  predicate WellFormed<N(==)>(G: Digraph<N>)
  {
    G.indeg.Keys == G.keys && G.succ.Keys == G.keys
  }

  /** The counter a name starts with: its cached indegree, 0 for a name that is not stored. */
  function Initial<N(==)>(G: Digraph<N>, k: N): int
  {
    if k in G.indeg then G.indeg[k] else 0
  }

  /** A counter read as a Go map reads it: a missing name counts 0. */
  function Lookup<N(==)>(m: map<N, int>, k: N): int
  {
    if k in m then m[k] else 0
  }

  /** Each counter is its starting value less one per edge from the names of `done` and per
      occurrence in `part`, the targets already handled of the name being processed. */
  ghost predicate Counted<N(!new)>(G: Digraph<N>, cur: map<N, int>, done: seq<N>, part: seq<N>)
  {
    forall k {:trigger Lookup(cur, k)} :: Lookup(cur, k) == Initial(G, k) - Decs(G, done, k) - multiset(part)[k]
  }

  /** A name has been queued exactly when it is stored, its starting value is not negative
      and its counter has come down to zero (or below). */
  ghost predicate Queued<N(!new)>(G: Digraph<N>, cur: map<N, int>, enq: seq<N>)
  {
    forall k {:trigger k in enq} {:trigger Lookup(cur, k)} :: k in enq <==> k in G.keys && Initial(G, k) >= 0 && Lookup(cur, k) <= 0
  }

  /** What holds between any two steps of the algorithm: `enq` lists every name ever queued,
      once each, in queueing order, and when the cached indegrees are exact it lists every
      predecessor of a name before the name. */
  ghost predicate Progress<N(!new)>(G: Digraph<N>, cur: map<N, int>, enq: seq<N>, done: seq<N>, part: seq<N>)
  {
    && Distinct(enq)
    && (forall i | 0 <= i < |enq| :: enq[i] in G.keys)
    && Counted(G, cur, done, part)
    && Queued(G, cur, enq)
    && (Exact(G) ==> PredecessorsFirst(G, enq))
  }

  /** The names Kahn's algorithm releases: those stored names whose starting value is not
      negative and does not exceed the number of edges into them from released names. */
  ghost predicate Released<N(!new)>(G: Digraph<N>, order: seq<N>)
  {
    forall k :: k in order <==> k in G.keys && 0 <= Initial(G, k) <= Decs(G, order, k)
  }

  /** The counters before any edge is handled, and the names queued first: exactly the
      stored names whose counter is 0. */
  lemma Seeded<N(!new)>(G: Digraph<N>, cur: map<N, int>, enq: seq<N>)
    requires forall k :: Lookup(cur, k) == Initial(G, k)
    requires Distinct(enq) && forall i | 0 <= i < |enq| :: enq[i] in G.keys
    requires forall k :: k in enq <==> k in G.keys && Initial(G, k) == 0
    requires Exact(G) ==> PredecessorsFirst(G, enq)
    ensures Progress(G, cur, enq, [], [])
  {
  }

  /** A name whose exact indegree is 0 has no predecessor, so it can be listed anywhere. */
  lemma SeedOrdered<N>(G: Digraph<N>, enq: seq<N>, k: N)
    requires Exact(G) && WellFormed(G) && PredecessorsFirst(G, enq)
    requires k in G.keys && Initial(G, k) == 0
    ensures PredecessorsFirst(G, enq + [k])
  {
    InFromZero(G, G.keys, k);
    forall j, q | 0 <= j < |enq + [k]| && q in G.keys && Adj(G, q, (enq + [k])[j])
      ensures q in (enq + [k])[..j]
    {
      if j < |enq| {
        assert (enq + [k])[..j] == enq[..j];
      } else {
        OccAdj(G, q, k);
        assert false;
      }
    }
  }

  lemma SplitLast<T>(s: seq<T>, m: nat)
    requires 0 < m <= |s|
    ensures s[..m] == s[..m - 1] + [s[m - 1]]
  {
  }

  lemma EmptyDifference<T>(A: set<T>, B: set<T>)
    requires A - B == {}
    ensures A <= B
  {
    forall x | x in A
      ensures x in B
    {
      assert x !in A - B;
    }
  }

  lemma AppendDistinct<T>(s: seq<T>, x: T, S: set<T>)
    requires Distinct(s) && (forall i | 0 <= i < |s| :: s[i] in S)
    requires x !in s && x in S
    ensures Distinct(s + [x]) && forall i | 0 <= i < |s + [x]| :: (s + [x])[i] in S
  {
  }

  /** Appending leaves the front of a sequence as it was. */
  lemma Extend<T>(s: seq<T>, t: seq<T>, n: nat)
    requires 0 < n <= |s|
    ensures (s + t)[..n - 1] == s[..n - 1] && (s + t)[..n] == s[..n] && (s + t)[n - 1] == s[n - 1]
  {
  }

  /** The tail of an extended sequence. */
  lemma Tail<T>(s: seq<T>, t: seq<T>, n: nat)
    requires n <= |s|
    ensures (s + t)[n..] == s[n..] + t
  {
  }

  /** Appending one more element to an appended tail. */
  lemma Regroup<T>(s: seq<T>, t: seq<T>, x: T)
    ensures s + t + [x] == s + (t + [x])
  {
  }

  /** A prefix holds no more copies of `v` than the whole sequence. */
  lemma PrefixOcc<N>(s: seq<N>, j: nat, v: N)
    requires j <= |s|
    ensures multiset(s[..j])[v] <= multiset(s)[v]
  {
    assert s == s[..j] + s[j..];
  }

  /** A name whose counter reaches zero while the targets of `enq[m - 1]` are handled has all
      its predecessors among `enq[..m]`, when the cached indegrees are exact. */
  lemma PushOrdered<N>(G: Digraph<N>, enq: seq<N>, m: nat, part: seq<N>, a: N)
    requires Exact(G) && WellFormed(G) && PredecessorsFirst(G, enq)
    requires Distinct(enq) && (forall i | 0 <= i < |enq| :: enq[i] in G.keys)
    requires 0 < m <= |enq| && a in G.keys
    requires multiset(part)[a] <= Occ(G, enq[m - 1], a)
    requires Initial(G, a) == Decs(G, enq[..m - 1], a) + multiset(part)[a]
    ensures PredecessorsFirst(G, enq + [a])
  {
    var S := set x | x in enq[..m];
    SplitLast(enq, m);
    DecsAppend(G, enq[..m - 1], enq[m - 1], a);
    DecsIsInFrom(G, enq[..m], a);
    InFromSplit(G, S, G.keys, a);
    InFromZero(G, G.keys - S, a);
    forall j, q | 0 <= j < |enq + [a]| && q in G.keys && Adj(G, q, (enq + [a])[j])
      ensures q in (enq + [a])[..j]
    {
      if j < |enq| {
        assert (enq + [a])[..j] == enq[..j];
      } else {
        OccAdj(G, q, a);
        assert q in S;
        assert (enq + [a])[..j] == enq;
      }
    }
  }

  /** Handling one more target `a` takes one off its counter. */
  lemma CountStep<N(!new)>(G: Digraph<N>, cur: map<N, int>, done: seq<N>, part: seq<N>, a: N)
    requires Counted(G, cur, done, part)
    ensures Counted(G, cur[a := Lookup(cur, a) - 1], done, part + [a])
  {
    var cur' := cur[a := Lookup(cur, a) - 1];
    forall k
      ensures Lookup(cur', k) == Initial(G, k) - Decs(G, done, k) - multiset(part + [a])[k]
    {
      assert Lookup(cur, k) == Initial(G, k) - Decs(G, done, k) - multiset(part)[k];
    }
  }

  /** A counter that comes down to exactly zero belongs to a stored name not yet queued,
      whose starting value is then used up; queueing it keeps Queued. */
  lemma QueuePush<N(!new)>(G: Digraph<N>, cur: map<N, int>, enq: seq<N>, done: seq<N>, part: seq<N>, a: N)
    requires WellFormed(G) && Counted(G, cur, done, part) && Queued(G, cur, enq)
    requires Lookup(cur, a) == 1
    ensures Queued(G, cur[a := 0], enq + [a])
    ensures a in G.keys && a !in enq && Initial(G, a) == Decs(G, done, a) + multiset(part + [a])[a]
  {
    assert Lookup(cur, a) == Initial(G, a) - Decs(G, done, a) - multiset(part)[a];
    assert a !in enq;
    forall k
      ensures k in enq + [a] <==> k in G.keys && Initial(G, k) >= 0 && Lookup(cur[a := 0], k) <= 0
    {
      assert k in enq <==> k in G.keys && Initial(G, k) >= 0 && Lookup(cur, k) <= 0;
    }
  }

  /** A counter that does not come down to exactly zero changes nothing about which names
      are queued: it was already at most zero, or it is still positive. */
  lemma QueueKeep<N(!new)>(G: Digraph<N>, cur: map<N, int>, enq: seq<N>, a: N)
    requires Queued(G, cur, enq)
    requires Lookup(cur, a) != 1
    ensures Queued(G, cur[a := Lookup(cur, a) - 1], enq)
  {
    var cur' := cur[a := Lookup(cur, a) - 1];
    forall k
      ensures k in enq <==> k in G.keys && Initial(G, k) >= 0 && Lookup(cur', k) <= 0
    {
      assert k in enq <==> k in G.keys && Initial(G, k) >= 0 && Lookup(cur, k) <= 0;
    }
  }

  /** One pass of the inner loop, for the `j`-th target `a` of `p == enq[m - 1]` whose
      counter is 1: the counter drops to zero and `a` joins the queue. */
  lemma DecrementQueues<N(!new)>(G: Digraph<N>, cur: map<N, int>, enq: seq<N>, m: nat, done: seq<N>, s: seq<N>, j: nat)
    requires WellFormed(G) && 0 < m <= |enq| && j < |s|
    requires done == enq[..m - 1] && enq[m - 1] in G.succ && s == G.succ[enq[m - 1]]
    requires Progress(G, cur, enq, done, s[..j]) && Lookup(cur, s[j]) == 1
    ensures Progress(G, cur[s[j] := Lookup(cur, s[j]) - 1], enq + [s[j]], done, s[..j + 1])
  {
    var a := s[j];
    SplitLast(s, j + 1);
    CountStep(G, cur, done, s[..j], a);
    QueuePush(G, cur, enq, done, s[..j], a);
    AppendDistinct(enq, a, G.keys);
    if Exact(G) {
      PrefixOcc(s, j + 1, a);
      PushOrdered(G, enq, m, s[..j + 1], a);
    }
  }

  /** One pass of the inner loop, for the `j`-th target `a` of `p == enq[m - 1]` whose
      counter is not 1: the counter drops by one and the queue stays as it is. */
  lemma DecrementKeeps<N(!new)>(G: Digraph<N>, cur: map<N, int>, enq: seq<N>, done: seq<N>, s: seq<N>, j: nat)
    requires WellFormed(G) && j < |s|
    requires Progress(G, cur, enq, done, s[..j]) && Lookup(cur, s[j]) != 1
    ensures Progress(G, cur[s[j] := Lookup(cur, s[j]) - 1], enq, done, s[..j + 1])
  {
    var a := s[j];
    SplitLast(s, j + 1);
    CountStep(G, cur, done, s[..j], a);
    QueueKeep(G, cur, enq, a);
  }

  /** The inner loop done: the whole successor list of `enq[m - 1]` has been handled. */
  lemma FinishVertex<N(!new)>(G: Digraph<N>, cur: map<N, int>, enq: seq<N>, m: nat)
    requires 0 < m <= |enq| && enq[m - 1] in G.succ
    requires Progress(G, cur, enq, enq[..m - 1], G.succ[enq[m - 1]])
    ensures Progress(G, cur, enq, enq[..m], [])
  {
    var p := enq[m - 1];
    assert enq[..m] == enq[..m - 1] + [p];
    forall k
      ensures Lookup(cur, k) == Initial(G, k) - Decs(G, enq[..m], k)
    {
      DecsAppend(G, enq[..m - 1], p, k);
      assert Lookup(cur, k) == Initial(G, k) - Decs(G, enq[..m - 1], k) - multiset(G.succ[p])[k];
    }
  }

  /** When the queue runs dry, the names released are those Released describes. */
  lemma FinalReleased<N(!new)>(G: Digraph<N>, cur: map<N, int>, order: seq<N>)
    requires Progress(G, cur, order, order, [])
    ensures Released(G, order)
  {
    forall k
      ensures k in order <==> k in G.keys && 0 <= Initial(G, k) <= Decs(G, order, k)
    {
      assert Lookup(cur, k) == Initial(G, k) - Decs(G, order, k);
      assert k in order <==> k in G.keys && Initial(G, k) >= 0 && Lookup(cur, k) <= 0;
    }
  }

  /** A run that stops short of the stored names, under exact indegrees, leaves behind a set
      of names each of which still has a predecessor in the set, hence a cycle. */
  lemma StuckMeansCycle<N(!new)>(G: Digraph<N>, cur: map<N, int>, order: seq<N>)
    requires Exact(G) && WellFormed(G)
    requires Progress(G, cur, order, order, [])
    requires |order| < |G.keys|
    ensures exists c :: IsCycle(G, c)
  {
    var S := set x | x in order;
    var R := G.keys - S;
    DistinctCard(order);
    if R == {} {
      EmptyDifference(G.keys, S);
      SubsetCard(G.keys, S);
      assert false;
    }
    forall r | r in R
      ensures HasPredIn(G, R, r)
    {
      assert Lookup(cur, r) == Initial(G, r) - Decs(G, order, r);
      assert r in order <==> r in G.keys && Initial(G, r) >= 0 && Lookup(cur, r) <= 0;
      DecsIsInFrom(G, order, r);
      InFromSplit(G, S, G.keys, r);
      InFromZero(G, R, r);
      var p :| p in R && Occ(G, p, r) != 0;
      OccAdj(G, p, r);
    }
    CycleFromPredecessors(G, R);
  }

  /** An order listing predecessors first, without repetitions, cannot hold every name of a
      graph with a cycle. */
  lemma CycleMeansIncomplete<N>(G: Digraph<N>, order: seq<N>, c: seq<N>)
    requires PredecessorsFirst(G, order) && IsCycle(G, c)
    requires Distinct(order) && forall i | 0 <= i < |order| :: order[i] in G.keys
    ensures |order| < |G.keys|
  {
    CycleNotListed(G, order, c);
    DistinctBound(order, G.keys);
    var i :| 0 <= i < |c| && c[i] !in order;
    assert c[i] in G.keys;
  }

  /** The verdict of Kahn's algorithm under exact indegrees: it lists fewer names than are
      stored exactly when the graph has a cycle. */
  lemma KahnVerdict<N(!new)>(G: Digraph<N>, cur: map<N, int>, order: seq<N>)
    requires Exact(G) && WellFormed(G)
    requires Progress(G, cur, order, order, [])
    ensures |order| < |G.keys| <==> exists c :: IsCycle(G, c)
  {
    if |order| < |G.keys| {
      StuckMeansCycle(G, cur, order);
    }
    if c :| IsCycle(G, c) {
      CycleMeansIncomplete(G, order, c);
    }
  }

  /** What Kahn's algorithm has produced once its queue runs dry: each stored name at most
      once, exactly the released names, predecessors first and, under exact indegrees, a
      short list exactly when the graph has a cycle. */
  lemma Outcome<N(!new)>(G: Digraph<N>, cur: map<N, int>, order: seq<N>)
    requires WellFormed(G) && Progress(G, cur, order, order, [])
    ensures |order| <= |G.keys| && Released(G, order)
    ensures Exact(G) ==> PredecessorsFirst(G, order)
    ensures Exact(G) ==> (|order| < |G.keys| <==> exists c :: IsCycle(G, c))
  {
    FinalReleased(G, cur, order);
    DistinctBound(order, G.keys);
    if Exact(G) {
      KahnVerdict(G, cur, order);
    }
  }
}
