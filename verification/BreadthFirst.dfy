/** What a first-in first-out search finds, and in which order. */
module BreadthFirst {

  /** What is reached from `root` in at most `n` steps. */
  ghost function Within<K(!new)>(next: K -> seq<K>, root: K, n: nat): set<K> {
    if n == 0 then {root}
    else
      var near := Within(next, root, n - 1);
      near + set k, i | k in near && 0 <= i < |next(k)| :: next(k)[i]
  }

  ghost predicate Reachable<K(!new)>(next: K -> seq<K>, root: K, k: K) {
    exists n: nat :: k in Within(next, root, n)
  }

  ghost predicate Distinct<K>(s: seq<K>) {
    forall i, j | 0 <= i < j < |s| :: s[i] != s[j]
  }

  /** Nothing comes before anything nearer the root. */
  ghost predicate ByDistance<K(!new)>(next: K -> seq<K>, root: K, order: seq<K>) {
    forall n: nat, i, j | 0 <= i < j < |order| && order[j] in Within(next, root, n) ::
      order[i] in Within(next, root, n)
  }

  /** Place `(p, e)`, edge `e` of entry `p`, is looked at before place `(q, f)`. */
  predicate Before(p: nat, e: nat, q: nat, f: nat) { p < q || (p == q && e < f) }

  /** Edge `e` of entry `p` leads to `k`. */
  predicate Mentions<K(==)>(next: K -> seq<K>, order: seq<K>, p: nat, e: nat, k: K) {
    p < |order| && e < |next(order[p])| && next(order[p])[e] == k
  }

  /** An edge leads to `k` before place `(q, f)`. */
  ghost predicate MentionedBefore<K(!new)>(next: K -> seq<K>, order: seq<K>, q: nat, f: nat, k: K) {
    exists p: nat, e: nat :: Before(p, e, q, f) && Mentions(next, order, p, e, k)
  }

  /** The entries after the root come in the order in which the edges of earlier entries first lead to them. */
  ghost predicate InOrderOfMention<K(!new)>(next: K -> seq<K>, order: seq<K>) {
    forall i, j, q: nat, f: nat | 0 < i < j < |order| && Mentions(next, order, q, f, order[j]) ::
      MentionedBefore(next, order, q, f, order[i])
  }

  /** `order` is the root, then exactly what is reachable, each once, nearest first, in the order of the edges. */
  ghost predicate BreadthFirstList<K(!new)>(next: K -> seq<K>, root: K, order: seq<K>) {
    && Distinct(order) && order != [] && order[0] == root && InOrderOfMention(next, order)
    && (forall k :: k in order <==> Reachable(next, root, k))
    && ByDistance(next, root, order)
  }

  lemma {:induction false} WithinGrows<K(!new)>(next: K -> seq<K>, root: K, m: nat, n: nat)
    requires m <= n
    ensures Within(next, root, m) <= Within(next, root, n)
    decreases n
  {
    if m < n { WithinGrows(next, root, m, n - 1); }
  }

  lemma ReachableStep<K(!new)>(next: K -> seq<K>, root: K, from: K, i: nat)
    requires Reachable(next, root, from) && i < |next(from)|
    ensures Reachable(next, root, next(from)[i])
  {
    var n: nat :| from in Within(next, root, n);
    assert next(from)[i] in Within(next, root, n + 1);
  }

  // ---------- The search ----------

  /**
   The state of a search: `order` is what was queued so far, its first `done` entries expanded and
   the next one expanded up to its edge `edge`. `parent[j]` and `via[j]` say whose edge queued `order[j]`.
  */
  ghost predicate Searching<K(!new)>(
    next: K -> seq<K>, root: K, order: seq<K>, parent: seq<nat>, via: seq<nat>, done: nat, edge: nat)
  {
    && |parent| == |via| == |order| && done <= |order| && 0 < |order| && order[0] == root
    && (done < |order| ==> edge <= |next(order[done])|) && (done == |order| ==> edge == 0)
    && Distinct(order)
    && (forall j, i | 0 <= j < done && 0 <= i < |next(order[j])| :: next(order[j])[i] in order)
    && (done < |order| ==> forall i | 0 <= i < edge :: next(order[done])[i] in order)
    && (forall j | 0 < j < |order| :: Queued(next, order, parent, via, done, edge, j))
    && (forall i, j | 0 < i < j < |order| :: Before(parent[i], via[i], parent[j], via[j]))
  }

  /** Entry `j` was queued at a place already looked at, and nothing led to it before that place. */
  ghost predicate Queued<K(!new)>(
    next: K -> seq<K>, order: seq<K>, parent: seq<nat>, via: seq<nat>, done: nat, edge: nat, j: nat)
    requires |parent| == |via| == |order| && j < |order|
  {
    && parent[j] < j && Before(parent[j], via[j], done, edge)
    && Mentions(next, order, parent[j], via[j], order[j])
    && forall q: nat, f: nat | Mentions(next, order, q, f, order[j]) :: !Before(q, f, parent[j], via[j])
  }

  lemma StartSearch<K(!new)>(next: K -> seq<K>, root: K)
    ensures Searching(next, root, [root], [0], [0], 0, 0)
  {
  }

  /** Looking at one edge: a target not queued yet goes to the end. */
  lemma SearchEdge<K(!new)>(
    next: K -> seq<K>, root: K, order: seq<K>, parent: seq<nat>, via: seq<nat>, done: nat, edge: nat)
    requires Searching(next, root, order, parent, via, done, edge)
    requires done < |order| && edge < |next(order[done])|
    ensures var target := next(order[done])[edge];
            if target in order then Searching(next, root, order, parent, via, done, edge + 1)
            else Searching(next, root, order + [target], parent + [done], via + [edge], done, edge + 1)
  {
    var target, after := next(order[done])[edge], edge + 1;
    if target in order {
      forall j | 0 < j < |order| ensures Queued(next, order, parent, via, done, after, j) {
        assert Queued(next, order, parent, via, done, edge, j);
      }
    } else {
      var order', parent', via' := order + [target], parent + [done], via + [edge];
      forall j | 0 < j < |order'| ensures Queued(next, order', parent', via', done, after, j) {
        QueuedStays(next, root, order, parent, via, done, edge, j);
      }
      forall i, j | 0 < i < j < |order'| ensures Before(parent'[i], via'[i], parent'[j], via'[j]) {
        assert Queued(next, order, parent, via, done, edge, i);
      }
    }
  }

  /** An entry stays queued as it was when one more is, and that one is queued too. */
  lemma QueuedStays<K(!new)>(
    next: K -> seq<K>, root: K, order: seq<K>, parent: seq<nat>, via: seq<nat>, done: nat, edge: nat, j: nat)
    requires Searching(next, root, order, parent, via, done, edge)
    requires done < |order| && edge < |next(order[done])| && next(order[done])[edge] !in order && 0 < j <= |order|
    ensures Queued(next, order + [next(order[done])[edge]], parent + [done], via + [edge], done, edge + 1, j)
  {
    var target := next(order[done])[edge];
    var order', parent', via' := order + [target], parent + [done], via + [edge];
    if j < |order| { assert Queued(next, order, parent, via, done, edge, j); }
    assert Mentions(next, order', parent'[j], via'[j], order'[j]) by {
      if j < |order| { assert Mentions(next, order, parent[j], via[j], order[j]); }
    }
    forall q: nat, f: nat | Mentions(next, order', q, f, order'[j]) ensures !Before(q, f, parent'[j], via'[j]) {
      if q < |order| && j < |order| { assert Mentions(next, order, q, f, order[j]); }
    }
  }

  lemma SearchNext<K(!new)>(next: K -> seq<K>, root: K, order: seq<K>, parent: seq<nat>, via: seq<nat>, done: nat)
    requires done < |order|
    requires Searching(next, root, order, parent, via, done, |next(order[done])|)
    ensures Searching(next, root, order, parent, via, done + 1, 0)
  {
    var after := done + 1;
    forall j | 0 < j < |order| ensures Queued(next, order, parent, via, after, 0, j) {
      assert Queued(next, order, parent, via, done, |next(order[done])|, j);
    }
  }

  lemma SearchingDistinct<K(!new)>(
    next: K -> seq<K>, root: K, order: seq<K>, parent: seq<nat>, via: seq<nat>, done: nat, edge: nat)
    requires Searching(next, root, order, parent, via, done, edge)
    ensures Distinct(order)
  {
  }

  /** Whatever is queued is reachable. */
  lemma {:induction false} QueuedReachable<K(!new)>(
    next: K -> seq<K>, root: K, order: seq<K>, parent: seq<nat>, via: seq<nat>, done: nat, edge: nat, j: nat)
    requires Searching(next, root, order, parent, via, done, edge) && j < |order|
    ensures Reachable(next, root, order[j])
  {
    if j == 0 {
      assert root in Within(next, root, 0);
    } else {
      assert Queued(next, order, parent, via, done, edge, j);
      QueuedReachable(next, root, order, parent, via, done, edge, parent[j]);
      ReachableStep(next, root, order[parent[j]], via[j]);
    }
  }

  lemma {:induction false} ReachableQueued<K(!new)>(
    next: K -> seq<K>, root: K, order: seq<K>, parent: seq<nat>, via: seq<nat>, n: nat)
    requires Searching(next, root, order, parent, via, |order|, 0)
    ensures forall k <- Within(next, root, n) :: k in order
  {
    if n > 0 { ReachableQueued(next, root, order, parent, via, n - 1); }
  }

  /** In a finished search everything queued before something near is as near. */
  lemma {:induction false} EarlierIsNearer<K(!new)>(
    next: K -> seq<K>, root: K, order: seq<K>, parent: seq<nat>, via: seq<nat>, n: nat, i: nat, j: nat)
    requires Searching(next, root, order, parent, via, |order|, 0)
    requires i < j < |order| && order[j] in Within(next, root, n)
    ensures order[i] in Within(next, root, n)
    decreases n
  {
    if i == 0 {
      WithinGrows(next, root, 0, n);
    } else if n > 0 && order[j] !in Within(next, root, n - 1) {
      var k, e :| k in Within(next, root, n - 1) && 0 <= e < |next(k)| && next(k)[e] == order[j];
      ReachableQueued(next, root, order, parent, via, n - 1);
      var q :| 0 <= q < |order| && order[q] == k;
      assert Mentions(next, order, q, e, order[j]);
      assert Queued(next, order, parent, via, |order|, 0, j) && Queued(next, order, parent, via, |order|, 0, i);
      assert parent[i] <= parent[j] <= q;
      if parent[i] < q { EarlierIsNearer(next, root, order, parent, via, n - 1, parent[i], q); }
      var p := order[parent[i]];
      assert p in Within(next, root, n - 1) && next(p)[via[i]] == order[i];
    } else if n > 0 {
      EarlierIsNearer(next, root, order, parent, via, n - 1, i, j);
    }
  }

  lemma SearchedInOrder<K(!new)>(next: K -> seq<K>, root: K, order: seq<K>, parent: seq<nat>, via: seq<nat>)
    requires Searching(next, root, order, parent, via, |order|, 0)
    ensures InOrderOfMention(next, order)
  {
    forall i, j, q: nat, f: nat | 0 < i < j < |order| && Mentions(next, order, q, f, order[j])
      ensures MentionedBefore(next, order, q, f, order[i])
    {
      assert Queued(next, order, parent, via, |order|, 0, i) && Queued(next, order, parent, via, |order|, 0, j);
      assert Before(parent[i], via[i], q, f) && Mentions(next, order, parent[i], via[i], order[i]);
    }
  }

  /** A finished search has listed exactly what is reachable, nearest first, in the order of the edges. */
  lemma SearchFinished<K(!new)>(next: K -> seq<K>, root: K, order: seq<K>, parent: seq<nat>, via: seq<nat>)
    requires Searching(next, root, order, parent, via, |order|, 0)
    ensures BreadthFirstList(next, root, order)
  {
    SearchedInOrder(next, root, order, parent, via);
    forall k ensures k in order <==> Reachable(next, root, k) {
      if k in order {
        var j :| 0 <= j < |order| && order[j] == k;
        QueuedReachable(next, root, order, parent, via, |order|, 0, j);
      } else if Reachable(next, root, k) {
        var n: nat :| k in Within(next, root, n);
        ReachableQueued(next, root, order, parent, via, n);
      }
    }
    forall n: nat, i, j | 0 <= i < j < |order| && order[j] in Within(next, root, n)
      ensures order[i] in Within(next, root, n)
    {
      EarlierIsNearer(next, root, order, parent, via, n, i, j);
    }
  }

  // ---------- Chains ----------

  /** A chain from the root in which each link is an edge. */
  ghost predicate Chain<K(!new)>(edge: (K, K) -> bool, root: K, path: seq<K>) {
    && path != [] && path[0] == root
    && forall i, j | 0 <= i < j < |path| && j == i + 1 :: edge(path[i], path[j])
  }

  lemma ChainStarts<K(!new)>(edge: (K, K) -> bool, root: K, path: seq<K>)
    requires Chain(edge, root, path) && |path| > 1
    ensures edge(root, path[1])
  {
    assert edge(path[0], path[1]);
  }

  /** `k` ends a chain of at most `n` links. */
  ghost predicate Chained<K(!new)>(edge: (K, K) -> bool, root: K, n: nat, k: K) {
    exists path :: |path| <= n + 1 && Chain(edge, root, path) && path[|path| - 1] == k
  }

  /** What is within `n` steps is what ends a chain of at most `n` links. */
  lemma {:induction false} WithinIsChained<K(!new)>(
    next: K -> seq<K>, edge: (K, K) -> bool, root: K, n: nat, k: K)
    requires forall a, b :: edge(a, b) <==> b in next(a)
    ensures k in Within(next, root, n) <==> Chained(edge, root, n, k)
  {
    if k in Within(next, root, n) {
      ChainTo(next, edge, root, n, k);
    } else if Chained(edge, root, n, k) {
      var path :| |path| <= n + 1 && Chain(edge, root, path) && path[|path| - 1] == k;
      ChainWithin(next, edge, root, path, |path| - 1);
      WithinGrows(next, root, |path| - 1, n);
    }
  }

  lemma {:induction false} ChainTo<K(!new)>(next: K -> seq<K>, edge: (K, K) -> bool, root: K, n: nat, k: K)
    requires forall a, b :: edge(a, b) <==> b in next(a)
    requires k in Within(next, root, n)
    ensures Chained(edge, root, n, k)
  {
    if n == 0 {
      assert Chain(edge, root, [root]);
    } else if k in Within(next, root, n - 1) {
      ChainTo(next, edge, root, n - 1, k);
      var path :| |path| <= n && Chain(edge, root, path) && path[|path| - 1] == k;
    } else {
      var from, i :| from in Within(next, root, n - 1) && 0 <= i < |next(from)| && next(from)[i] == k;
      ChainTo(next, edge, root, n - 1, from);
      var path :| |path| <= n && Chain(edge, root, path) && path[|path| - 1] == from;
      assert Chain(edge, root, path + [k]);
    }
  }

  lemma {:induction false} ChainWithin<K(!new)>(
    next: K -> seq<K>, edge: (K, K) -> bool, root: K, path: seq<K>, i: nat)
    requires forall a, b :: edge(a, b) <==> b in next(a)
    requires Chain(edge, root, path) && i < |path|
    ensures path[i] in Within(next, root, i)
  {
    if i > 0 {
      ChainWithin(next, edge, root, path, i - 1);
      assert edge(path[i - 1], path[i]);
    }
  }
}
