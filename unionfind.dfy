/** A disjoint-set structure over the indices `0 .. n-1` with a count of remaining sets.
    Each element carries the label of its set (quick-find); `Union` relabels one set. */
module UnionFinds {

  /** The labels in use. */
  function Labels(id: seq<nat>): set<nat> {
    set k | 0 <= k < |id| :: id[k]
  }

  lemma {:induction false} IdentityLabels(n: nat)
    ensures |Labels(seq(n, k => k))| == n
  {
    if n > 0 {
      IdentityLabels(n - 1);
      var s := seq(n, k => k);
      var s' := seq(n - 1, k => k);
      forall l: nat ensures l in Labels(s) <==> l in Labels(s') + {n - 1} {
        if l < n {
          assert s[l] == l;
        }
        if l < n - 1 {
          assert s'[l] == l;
        }
      }
      assert Labels(s) == Labels(s') + {n - 1};
      assert n - 1 !in Labels(s');
    }
  }

  class UnionFind {
    var id: seq<nat>
    var count: nat

    ghost predicate Valid()
      reads this
    {
      count == |Labels(id)|
    }

    /** `n` singleton sets. */
    constructor (n: nat)
      ensures Valid() && |id| == n && count == n
      ensures forall a, b | 0 <= a < n && 0 <= b < n :: Connected(a, b) <==> a == b
    {
      id := seq(n, k => k);
      count := n;
      IdentityLabels(n);
    }

    /** `a` and `b` are in the same set. */
    predicate Connected(a: nat, b: nat)
      requires a < |id| && b < |id|
      reads this
    {
      id[a] == id[b]
    }

    /** Merges the sets of `a` and `b`; the count drops by one iff they were distinct. */
    method Union(a: nat, b: nat)
      requires Valid() && a < |id| && b < |id|
      modifies this
      ensures Valid() && |id| == old(|id|)
      ensures count == if old(Connected(a, b)) then old(count) else old(count) - 1
      ensures Connected(a, b)
      ensures forall x, y | 0 <= x < |id| && 0 <= y < |id| ::
        Connected(x, y) <==>
          old(id[x] == id[y]) ||
          (old(id[x] == id[a] || id[x] == id[b]) && old(id[y] == id[a] || id[y] == id[b]))
    {
      if id[a] == id[b] {
        return;
      }
      var was := id;
      var la, lb := was[a], was[b];
      id := seq(|was|, k requires 0 <= k < |was| => if was[k] == lb then la else was[k]);
      assert Labels(id) == Labels(was) - {lb} by {
        forall l | l in Labels(was) - {lb} ensures l in Labels(id) {
          var k :| 0 <= k < |was| && was[k] == l;
          assert id[k] == l;
        }
        assert id[a] == la;
      }
      assert was[b] == lb;
      assert lb in Labels(was);
      count := count - 1;
    }
  }

  /** A non-empty structure has at least one set. */
  lemma CountPositive(uf: UnionFind)
    requires uf.Valid() && |uf.id| > 0
    ensures uf.count >= 1
  {
    assert uf.id[0] in Labels(uf.id);
  }

  /** All elements sharing one label make a single set. */
  lemma SingleLabel(id: seq<nat>)
    requires |id| > 0 && forall k | 0 <= k < |id| :: id[k] == id[0]
    ensures |Labels(id)| == 1
  {
    forall l | l in Labels(id) ensures l == id[0] {
      var k :| 0 <= k < |id| && id[k] == l;
    }
    assert id[0] in Labels(id);
    assert Labels(id) == {id[0]};
  }

  /** More than one set left means some element is not connected to element 0. */
  lemma SomeUnconnected(uf: UnionFind)
    requires uf.Valid() && uf.count > 1
    ensures |uf.id| > 0 && exists j | 0 <= j < |uf.id| :: !uf.Connected(0, j)
  {
    if |uf.id| == 0 {
      assert false;
    }
    if forall j | 0 <= j < |uf.id| :: uf.Connected(0, j) {
      forall k | 0 <= k < |uf.id| ensures uf.id[k] == uf.id[0] {
        assert uf.Connected(0, k);
      }
      SingleLabel(uf.id);
      assert false;
    }
  }

  /** One set left means every two elements are connected. */
  lemma OneSetConnected(uf: UnionFind)
    requires uf.Valid() && uf.count == 1
    ensures forall a, b | 0 <= a < |uf.id| && 0 <= b < |uf.id| :: uf.Connected(a, b)
  {
    forall a, b | 0 <= a < |uf.id| && 0 <= b < |uf.id| ensures uf.id[a] == uf.id[b] {
      var labels, first := Labels(uf.id), uf.id[a];
      assert first in labels && uf.id[b] in labels;
      if uf.id[b] != first {
        TwoLabels(labels, first, uf.id[b]);
        assert false;
      }
    }
  }

  /** `Count == 1` exactly when every two elements are connected. */
  lemma OneSetIffConnected(uf: UnionFind)
    requires uf.Valid() && |uf.id| > 0
    ensures uf.count == 1 <==> forall a, b | 0 <= a < |uf.id| && 0 <= b < |uf.id| :: uf.Connected(a, b)
  {
    if uf.count == 1 {
      OneSetConnected(uf);
    } else if forall a, b | 0 <= a < |uf.id| && 0 <= b < |uf.id| :: uf.Connected(a, b) {
      assert forall k | 0 <= k < |uf.id| :: uf.Connected(k, 0) && uf.id[k] == uf.id[0];
      SingleLabel(uf.id);
    }
  }

  /** A set holding two different elements has at least two. */
  lemma TwoLabels(labels: set<nat>, x: nat, y: nat)
    requires x in labels && y in labels && x != y
    ensures |labels| >= 2
  {
    var rest := labels - {x};
    assert y in rest;
    assert labels == rest + {x};
  }
}
