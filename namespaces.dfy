/**
 * The namespace forest `nmspaces[]` of the kernel, read-only here.
 *
 * Entry `parents[i]` is `nmspaces[i].parent_id`; a negative id marks a root.
 * The kernel walks these links without checking for cycles, so the model asks
 * for a `rank` that strictly decreases from a node to its parent: such a rank
 * exists exactly when the forest is acyclic, and it bounds every walk.
 */
module Namespaces {

  /** Every parent link stays inside the table and lowers the rank. */
  predicate Forest(parents: seq<int>, rank: seq<nat>)
  {
    |rank| == |parents| &&
    forall i :: 0 <= i < |parents| ==>
      parents[i] < |parents| && (0 <= parents[i] ==> rank[parents[i]] < rank[i])
  }

  /**
   * The ids visited by `for (current = start; current >= 0;
   * current = nmspaces[current].parent_id)`: the node itself, then its
   * ancestors up to a root.
   */
  function Chain(parents: seq<int>, rank: seq<nat>, start: int): (c: seq<int>)
    requires Forest(parents, rank) && start < |parents|
    ensures start < 0 <==> c == []
    ensures 0 <= start ==> c[0] == start
    ensures forall k :: 0 <= k < |c| ==> 0 <= c[k] < |parents|
    ensures c != [] ==> parents[c[|c| - 1]] < 0
    decreases if start < 0 then 0 else rank[start] + 1
  {
    if start < 0 then [] else [start] + Chain(parents, rank, parents[start])
  }

  /** Each step of a chain goes from a node to its parent. */
  lemma {:induction false} ChainFollowsParents(parents: seq<int>, rank: seq<nat>, start: int, k: nat)
    requires Forest(parents, rank) && start < |parents|
    requires 0 < k < |Chain(parents, rank, start)|
    ensures Chain(parents, rank, start)[k] == parents[Chain(parents, rank, start)[k - 1]]
    decreases if start < 0 then 0 else rank[start] + 1
  {
    var rest := Chain(parents, rank, parents[start]);
    assert Chain(parents, rank, start) == [start] + rest;
    if k > 1 {
      ChainFollowsParents(parents, rank, parents[start], k - 1);
    }
  }

  /** Namespace `ns` lies within the scope of `scope`: `scope` is `ns` or one of its ancestors. */
  predicate Within(parents: seq<int>, rank: seq<nat>, ns: int, scope: int)
    requires Forest(parents, rank) && ns < |parents|
  {
    scope in Chain(parents, rank, ns)
  }

  /** Ranks strictly decrease along a chain, so no id occurs on it twice. */
  lemma {:induction false} ChainRankDecreases(parents: seq<int>, rank: seq<nat>, start: int)
    requires Forest(parents, rank) && start < |parents|
    ensures forall k, l :: 0 <= k < l < |Chain(parents, rank, start)| ==>
      rank[Chain(parents, rank, start)[l]] < rank[Chain(parents, rank, start)[k]]
    decreases if start < 0 then 0 else rank[start] + 1
  {
    if 0 <= start {
      var c := Chain(parents, rank, start);
      var rest := Chain(parents, rank, parents[start]);
      ChainRankDecreases(parents, rank, parents[start]);
      assert c == [start] + rest;
      forall k, l | 0 <= k < l < |c|
        ensures rank[c[l]] < rank[c[k]]
      {
        if k == 0 {
          assert c[l] == rest[l - 1];
          if l - 1 > 0 {
            assert rank[rest[l - 1]] < rank[rest[0]];
          }
        } else {
          assert c[k] == rest[k - 1] && c[l] == rest[l - 1];
        }
      }
    }
  }

  /**
   * The walk in `sys_ps_list` does not stop at a match, yet it meets any
   * given namespace at most once: on an acyclic chain every id occurs once.
   */
  lemma {:induction false} ChainVisitsOnce(parents: seq<int>, rank: seq<nat>, start: int, ns: int)
    requires Forest(parents, rank) && start < |parents|
    ensures multiset(Chain(parents, rank, start))[ns] == if ns in Chain(parents, rank, start) then 1 else 0
    decreases if start < 0 then 0 else rank[start] + 1
  {
    if 0 <= start {
      var c := Chain(parents, rank, start);
      var rest := Chain(parents, rank, parents[start]);
      ChainVisitsOnce(parents, rank, parents[start], ns);
      assert c == [start] + rest;
      assert multiset(c) == multiset([start]) + multiset(rest);
      if start == ns {
        HeadNotInTail(parents, rank, start);
      } else {
        assert ns in c <==> ns in rest;
      }
    }
  }

  /** One step of the walk: the chain is its first node followed by its parent's chain. */
  lemma ChainStep(parents: seq<int>, rank: seq<nat>, current: int, x: int)
    requires Forest(parents, rank) && 0 <= current < |parents|
    ensures multiset(Chain(parents, rank, current))[x]
            == (if current == x then 1 else 0) + multiset(Chain(parents, rank, parents[current]))[x]
  {
    assert Chain(parents, rank, current) == [current] + Chain(parents, rank, parents[current]);
  }

  /** A namespace is not among its own proper ancestors. */
  lemma HeadNotInTail(parents: seq<int>, rank: seq<nat>, start: int)
    requires Forest(parents, rank) && 0 <= start < |parents|
    ensures start !in Chain(parents, rank, parents[start])
  {
    var c := Chain(parents, rank, start);
    var rest := Chain(parents, rank, parents[start]);
    ChainRankDecreases(parents, rank, start);
    assert c == [start] + rest;
    forall l | 0 <= l < |rest|
      ensures rest[l] != start
    {
      assert c[l + 1] == rest[l];
      assert rank[c[l + 1]] < rank[c[0]];
    }
  }

  /** Every namespace lies within its own scope (zero steps up the chain). */
  lemma WithinSelf(parents: seq<int>, rank: seq<nat>, ns: int)
    requires Forest(parents, rank) && 0 <= ns < |parents|
    ensures Within(parents, rank, ns, ns)
  {
    assert Chain(parents, rank, ns)[0] == ns;
  }

  /** The chain of any node on a chain is a suffix of it: scopes nest transitively. */
  lemma {:induction false} WithinTransitive(parents: seq<int>, rank: seq<nat>, ns: int, mid: int, scope: int)
    requires Forest(parents, rank) && ns < |parents| && mid < |parents|
    requires Within(parents, rank, ns, mid) && Within(parents, rank, mid, scope)
    ensures Within(parents, rank, ns, scope)
    decreases if ns < 0 then 0 else rank[ns] + 1
  {
    var c := Chain(parents, rank, ns);
    assert c == [ns] + Chain(parents, rank, parents[ns]);
    if mid != ns {
      WithinTransitive(parents, rank, parents[ns], mid, scope);
    }
  }

  /** Two distinct namespaces cannot each lie within the other: an inner scope never sees outward. */
  lemma WithinAntisymmetric(parents: seq<int>, rank: seq<nat>, a: int, b: int)
    requires Forest(parents, rank) && a < |parents| && b < |parents|
    requires Within(parents, rank, a, b) && Within(parents, rank, b, a)
    ensures a == b
  {
    ChainRankDecreases(parents, rank, a);
    ChainRankDecreases(parents, rank, b);
    var ca, cb := Chain(parents, rank, a), Chain(parents, rank, b);
    var k :| 0 <= k < |ca| && ca[k] == b;
    var l :| 0 <= l < |cb| && cb[l] == a;
    assert rank[b] <= rank[a];
    assert rank[a] <= rank[b];
    assert k == 0;
  }
}
