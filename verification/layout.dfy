/**
 * The overlap pass of `createVisualization`. It runs after d3's tree layout
 * has placed the tree, and it works on an `x` array indexed like
 * `treeData.descendants()`. Each level is walked left to right. Whenever two
 * neighbouring boxes are closer than their half-widths allow, the right-hand
 * node is pushed right, and its whole subtree moves with it.
 */
module Layout {
  /** `textLength * charWidth + padding`, with a character width of 9 and a padding of 20. */
  function BoxWidth(name: string): nat {
    |name| * 9 + 20
  }

  /** The gap two neighbouring boxes need: half of each one's width. */
  function MinDistance(a: string, b: string): (r: real)
    ensures r >= 20.0
  {
    BoxWidth(a) as real / 2.0 + BoxWidth(b) as real / 2.0
  }

  /**
   * The shape d3 hands over: `parent[i]` is the index of node i's parent, or
   * -1 for the root, and parents come before their children (breadth-first
   * order); each depth is one more than the parent's depth.
   */
  predicate IsTree(parent: seq<int>, depth: seq<nat>) {
    |parent| == |depth| &&
    forall i :: 0 <= i < |parent| ==>
      -1 <= parent[i] < i && depth[i] == (if parent[i] < 0 then 0 else depth[parent[i]] + 1)
  }

  lemma {:induction false} DepthBelowIndex(parent: seq<int>, depth: seq<nat>, i: nat)
    requires IsTree(parent, depth) && i < |parent|
    ensures depth[i] <= i
    decreases i
  {
    if parent[i] >= 0 {
      DepthBelowIndex(parent, depth, parent[i]);
    }
  }

  // ---------------------------------------------------------------------------
  // Descendants
  // ---------------------------------------------------------------------------

  /** Node `n` lies strictly below node `a`: `a` is on its chain of parents. */
  predicate Descends(parent: seq<int>, a: int, n: nat)
    requires n < |parent| && forall i :: 0 <= i < |parent| ==> -1 <= parent[i] < i
    decreases n
  {
    parent[n] >= 0 && (parent[n] == a || Descends(parent, a, parent[n]))
  }

  /** A descendant sits deeper than its ancestor. */
  lemma {:induction false} DescendsDeeper(parent: seq<int>, depth: seq<nat>, a: nat, n: nat)
    requires IsTree(parent, depth) && n < |parent| && a < |parent|
    requires Descends(parent, a, n)
    ensures depth[n] > depth[a]
    decreases n
  {
    if parent[n] != a {
      DescendsDeeper(parent, depth, a, parent[n]);
    }
  }

  /** `isDescendant(parent, node)`: walk up from `n` looking for `a`. */
  method IsDescendant(parent: seq<int>, a: int, n: nat) returns (found: bool)
    requires n < |parent| && forall i :: 0 <= i < |parent| ==> -1 <= parent[i] < i
    ensures found == Descends(parent, a, n)
  {
    var node: nat := n;
    while parent[node] >= 0
      invariant node < |parent|
      invariant Descends(parent, a, n) == Descends(parent, a, node)
      decreases node
    {
      if parent[node] == a {
        return true;
      }
      node := parent[node];
    }
    return false;
  }

  /**
   * Move node `c` and every node below it by `shift`, and nothing else:
   * `currNode.x += shift`, then the same for each descendant.
   */
  method ShiftSubtree(x: array<real>, parent: seq<int>, c: nat, shift: real)
    requires x.Length == |parent| && c < x.Length
    requires forall i :: 0 <= i < |parent| ==> -1 <= parent[i] < i
    modifies x
    ensures forall i :: 0 <= i < x.Length ==>
              x[i] == old(x[i]) + (if i == c || Descends(parent, c, i) then shift else 0.0)
  {
    x[c] := x[c] + shift;
    for k := 0 to x.Length
      invariant forall i :: 0 <= i < k ==>
                  x[i] == old(x[i]) + (if i == c || Descends(parent, c, i) then shift else 0.0)
      invariant forall i :: k <= i < x.Length ==> x[i] == old(x[i]) + (if i == c then shift else 0.0)
    {
      if k != c {
        var below := IsDescendant(parent, c, k);
        if below {
          x[k] := x[k] + shift;
        }
      }
    }
  }

  // ---------------------------------------------------------------------------
  // Levels
  // ---------------------------------------------------------------------------

  /** The nodes at depth `d`, in `descendants()` order. */
  function AtDepth(depth: seq<nat>, d: nat): (r: seq<nat>)
    ensures forall k :: 0 <= k < |r| ==> r[k] < |depth|
  {
    if depth == [] then []
    else AtDepth(depth[..|depth| - 1], d) + (if depth[|depth| - 1] == d then [|depth| - 1] else [])
  }

  predicate Distinct(s: seq<nat>) {
    forall p, q :: 0 <= p < q < |s| ==> s[p] != s[q]
  }

  /** A level holds exactly the nodes at its depth, in increasing order. */
  lemma {:induction false} AtDepthSpec(depth: seq<nat>, d: nat)
    ensures forall i: nat :: i in AtDepth(depth, d) <==> i < |depth| && depth[i] == d
    ensures forall p, q :: 0 <= p < q < |AtDepth(depth, d)| ==> AtDepth(depth, d)[p] < AtDepth(depth, d)[q]
  {
    if depth != [] {
      var init := depth[..|depth| - 1];
      AtDepthSpec(init, d);
      assert forall i :: 0 <= i < |init| ==> depth[i] == init[i];
      var a := AtDepth(init, d);
      assert forall k :: 0 <= k < |a| ==> a[k] in a && a[k] < |init|;
    }
  }

  lemma {:induction false} AtDepthAbsent(depth: seq<nat>, d: nat)
    ensures d !in depth ==> AtDepth(depth, d) == []
  {
    if depth != [] {
      AtDepthAbsent(depth[..|depth| - 1], d);
      assert forall x :: x in depth[..|depth| - 1] ==> x in depth;
    }
  }

  lemma AtDepthStep(depth: seq<nat>, i: nat)
    requires i < |depth|
    ensures forall d :: AtDepth(depth[..i + 1], d) == AtDepth(depth[..i], d) + (if d == depth[i] then [i] else [])
    ensures forall d :: d in depth[..i + 1] <==> d in depth[..i] || d == depth[i]
  {
    assert depth[..i + 1][..i] == depth[..i];
    assert depth[..i + 1] == depth[..i] + [depth[i]];
  }

  /** `nodesByLevel`: each node is appended to the list of its depth. */
  method GroupByLevel(depth: seq<nat>) returns (byLevel: map<nat, seq<nat>>)
    ensures forall d :: d in byLevel <==> d in depth
    ensures forall d :: d in byLevel ==> byLevel[d] == AtDepth(depth, d)
  {
    byLevel := map[];
    for i := 0 to |depth|
      invariant forall d :: d in byLevel <==> d in depth[..i]
      invariant forall d :: d in byLevel ==> byLevel[d] == AtDepth(depth[..i], d)
    {
      var level := depth[i];
      AtDepthStep(depth, i);
      var group: seq<nat> := [];
      if level in byLevel {
        group := byLevel[level];
      } else {
        AtDepthAbsent(depth[..i], level);
      }
      byLevel := byLevel[level := group + [i]];
    }
    assert depth[..|depth|] == depth;
  }

  // ---------------------------------------------------------------------------
  // `nodesAtLevel.sort((a, b) => a.x - b.x)`
  // ---------------------------------------------------------------------------

  predicate InRange(xs: seq<real>, s: seq<nat>) {
    forall k :: 0 <= k < |s| ==> s[k] < |xs|
  }

  predicate SortedBy(xs: seq<real>, s: seq<nat>)
    requires InRange(xs, s)
  {
    forall p, q :: 0 <= p < q < |s| ==> xs[s[p]] <= xs[s[q]]
  }

  /** Insert `v` after every entry whose x is not greater: ties keep their order. */
  function Insert(xs: seq<real>, s: seq<nat>, v: nat): (r: seq<nat>)
    requires InRange(xs, s) && v < |xs|
    ensures InRange(xs, r) && multiset(r) == multiset(s) + multiset{v}
  {
    if s == [] then [v]
    else if xs[s[|s| - 1]] <= xs[v] then s + [v]
    else
      assert s == s[..|s| - 1] + [s[|s| - 1]];
      Insert(xs, s[..|s| - 1], v) + [s[|s| - 1]]
  }

  lemma {:induction false} InsertSorted(xs: seq<real>, s: seq<nat>, v: nat)
    requires InRange(xs, s) && v < |xs| && SortedBy(xs, s)
    ensures SortedBy(xs, Insert(xs, s, v))
    decreases |s|
  {
    if s != [] && xs[s[|s| - 1]] > xs[v] {
      var init, last := s[..|s| - 1], s[|s| - 1];
      InsertSorted(xs, init, v);
      var r := Insert(xs, init, v);
      forall k | 0 <= k < |r| ensures xs[r[k]] <= xs[last] {
        assert r[k] in multiset(r);
        if r[k] != v {
          assert r[k] in multiset(init);
          var p :| 0 <= p < |init| && init[p] == r[k];
          assert s[p] == r[k];
        }
      }
    }
  }

  /** A stable sort of a level's nodes by their current x. */
  function SortByX(xs: seq<real>, level: seq<nat>): (sorted: seq<nat>)
    requires InRange(xs, level)
    ensures InRange(xs, sorted) && multiset(sorted) == multiset(level) && SortedBy(xs, sorted)
  {
    if level == [] then []
    else
      var init := level[..|level| - 1];
      assert level == init + [level[|level| - 1]];
      var sortedInit := SortByX(xs, init);
      InsertSorted(xs, sortedInit, level[|level| - 1]);
      Insert(xs, sortedInit, level[|level| - 1])
  }

  /** The entries of `s` whose x is exactly `v`, in their order in `s`. */
  function Ties(xs: seq<real>, s: seq<nat>, v: real): seq<nat>
    requires InRange(xs, s)
  {
    if s == [] then []
    else Ties(xs, s[..|s| - 1], v) + (if xs[s[|s| - 1]] == v then [s[|s| - 1]] else [])
  }

  /** Inserting `e` adds it after the entries that tie with it, and leaves every other tie group alone. */
  lemma {:induction false} InsertTies(xs: seq<real>, s: seq<nat>, e: nat, v: real)
    requires InRange(xs, s) && e < |xs|
    ensures Ties(xs, Insert(xs, s, e), v) == Ties(xs, s, v) + (if xs[e] == v then [e] else [])
    decreases |s|
  {
    if s == [] {
    } else if xs[s[|s| - 1]] <= xs[e] {
      assert Insert(xs, s, e) == s + [e];
      assert (s + [e])[..|s|] == s;
    } else {
      var init, last := s[..|s| - 1], s[|s| - 1];
      var tail := if xs[last] == v then [last] else [];
      InsertTies(xs, init, e, v);
      var r := Insert(xs, init, e) + [last];
      assert Insert(xs, s, e) == r;
      assert r[..|r| - 1] == Insert(xs, init, e);
      assert Ties(xs, r, v) == Ties(xs, Insert(xs, init, e), v) + tail;
      assert Ties(xs, s, v) == Ties(xs, init, v) + tail;
      if xs[e] == v {
        assert tail == [];
      } else {
        assert Ties(xs, Insert(xs, init, e), v) == Ties(xs, init, v);
      }
    }
  }

  /**
   * `SortByX` is stable: the nodes that share an x keep the order they had
   * in the level, as `Array.prototype.sort` guarantees.
   */
  lemma {:induction false} SortByXStable(xs: seq<real>, level: seq<nat>, v: real)
    requires InRange(xs, level)
    ensures Ties(xs, SortByX(xs, level), v) == Ties(xs, level, v)
    decreases |level|
  {
    if level != [] {
      var init := level[..|level| - 1];
      SortByXStable(xs, init, v);
      InsertTies(xs, SortByX(xs, init), level[|level| - 1], v);
    }
  }

  lemma {:induction false} DistinctCount(s: seq<nat>, v: nat)
    requires Distinct(s)
    ensures multiset(s)[v] <= 1
    decreases |s|
  {
    if s != [] {
      var init := s[..|s| - 1];
      assert s == init + [s[|s| - 1]];
      DistinctCount(init, v);
      if s[|s| - 1] == v {
        assert v !in init;
      }
    }
  }

  lemma CountRepeated(b: seq<nat>, p: nat, q: nat)
    requires p < q < |b|
    ensures b[p] == b[q] ==> multiset(b)[b[q]] >= 2
  {
    assert b == b[..q] + [b[q]] + b[q + 1..];
    assert b[p] in b[..q];
  }

  /** A permutation of a list without repeats has none either. */
  lemma DistinctPermutation(a: seq<nat>, b: seq<nat>)
    requires Distinct(a) && multiset(a) == multiset(b)
    ensures Distinct(b)
  {
    forall p, q | 0 <= p < q < |b| ensures b[p] != b[q] {
      DistinctCount(a, b[q]);
      CountRepeated(b, p, q);
    }
  }

  // ---------------------------------------------------------------------------
  // The sweep
  // ---------------------------------------------------------------------------

  /** Neighbours in `s` are at least their half-widths apart. */
  predicate Spread(xs: seq<real>, names: seq<string>, s: seq<nat>)
    requires |names| == |xs| && InRange(xs, s)
  {
    forall j :: 1 <= j < |s| ==> xs[s[j]] - xs[s[j - 1]] >= MinDistance(names[s[j - 1]], names[s[j]])
  }

  /** No two boxes at depth `e` overlap: the right one is at least both half-widths further on. */
  predicate Separated(xs: seq<real>, depth: seq<nat>, names: seq<string>, e: nat)
    requires |xs| == |depth| == |names|
  {
    forall i, j {:trigger xs[i], xs[j]} :: 0 <= i < |xs| && 0 <= j < |xs| && i != j && depth[i] == e && depth[j] == e && xs[i] <= xs[j] ==>
      xs[j] - xs[i] >= MinDistance(names[i], names[j])
  }

  /** Gaps add up along a spread sequence: any two of its nodes are far enough apart. */
  lemma {:induction false} GapChain(xs: seq<real>, names: seq<string>, s: seq<nat>, p: nat, q: nat)
    requires |names| == |xs| && InRange(xs, s) && Spread(xs, names, s)
    requires p < q < |s|
    ensures xs[s[q]] - xs[s[p]] >= MinDistance(names[s[p]], names[s[q]])
    decreases q
  {
    if p < q - 1 {
      GapChain(xs, names, s, p, q - 1);
    }
  }

  /** A spread level that lists every node of its depth is separated. */
  lemma LevelSeparated(xs: seq<real>, depth: seq<nat>, names: seq<string>, s: seq<nat>, e: nat)
    requires |xs| == |depth| == |names| && InRange(xs, s) && Spread(xs, names, s)
    requires forall i :: 0 <= i < |xs| && depth[i] == e ==> i in s
    ensures Separated(xs, depth, names, e)
  {
    forall p, q | 0 <= p < q < |s| ensures xs[s[q]] - xs[s[p]] >= MinDistance(names[s[p]], names[s[q]]) {
      GapChain(xs, names, s, p, q);
    }
  }

  /** Separation at a depth only looks at the nodes of that depth. */
  lemma SeparatedFrame(a: seq<real>, b: seq<real>, depth: seq<nat>, names: seq<string>, e: nat)
    requires |a| == |b| == |depth| == |names|
    requires forall i :: 0 <= i < |a| && depth[i] == e ==> a[i] == b[i]
    requires Separated(a, depth, names, e)
    ensures Separated(b, depth, names, e)
  {
  }

  /**
   * The positions after one step of the sweep: when `curr` is closer to
   * `prev` than their minimum distance, `curr` and every node below it move
   * right by the shortfall, and otherwise nothing moves.
   */
  function Pushed(xs: seq<real>, parent: seq<int>, names: seq<string>, prev: nat, curr: nat): (r: seq<real>)
    requires |xs| == |parent| == |names| && prev < |xs| && curr < |xs|
    requires forall i :: 0 <= i < |parent| ==> -1 <= parent[i] < i
    ensures |r| == |xs|
  {
    var m := MinDistance(names[prev], names[curr]);
    var gap := xs[curr] - xs[prev];
    seq(|xs|, i requires 0 <= i < |xs| =>
      xs[i] + (if gap < m && (i == curr || Descends(parent, curr, i)) then m - gap else 0.0))
  }

  /**
   * One step clears the pair: afterwards `curr` is far enough right of
   * `prev`, no node on the level or above it other than `curr` has moved,
   * no node has moved left, and a pair already far enough apart moves nothing.
   */
  lemma PushedSpec(xs: seq<real>, parent: seq<int>, depth: seq<nat>, names: seq<string>, prev: nat, curr: nat, d: nat)
    requires IsTree(parent, depth) && |xs| == |parent| == |names|
    requires prev < |xs| && curr < |xs| && prev != curr && depth[prev] == d && depth[curr] == d
    ensures Pushed(xs, parent, names, prev, curr)[curr] - Pushed(xs, parent, names, prev, curr)[prev]
              >= MinDistance(names[prev], names[curr])
    ensures forall i {:trigger Pushed(xs, parent, names, prev, curr)[i]} ::
              0 <= i < |xs| && depth[i] <= d && i != curr ==> Pushed(xs, parent, names, prev, curr)[i] == xs[i]
    ensures forall i {:trigger Pushed(xs, parent, names, prev, curr)[i]} ::
              0 <= i < |xs| ==> Pushed(xs, parent, names, prev, curr)[i] >= xs[i]
    ensures xs[curr] - xs[prev] >= MinDistance(names[prev], names[curr]) ==> Pushed(xs, parent, names, prev, curr) == xs
  {
    forall i | 0 <= i < |xs| && Descends(parent, curr, i) ensures depth[i] > d {
      DescendsDeeper(parent, depth, curr, i);
    }
  }

  /** The positions after sweeping the neighbouring pairs of `sorted` from left to right. */
  function Swept(xs: seq<real>, parent: seq<int>, names: seq<string>, sorted: seq<nat>): (r: seq<real>)
    requires |xs| == |parent| == |names| && InRange(xs, sorted)
    requires forall i :: 0 <= i < |parent| ==> -1 <= parent[i] < i
    ensures |r| == |xs|
    decreases |sorted|
  {
    if |sorted| < 2 then xs
    else
      Pushed(Swept(xs, parent, names, sorted[..|sorted| - 1]), parent, names,
             sorted[|sorted| - 2], sorted[|sorted| - 1])
  }

  lemma SweptStep(xs: seq<real>, parent: seq<int>, names: seq<string>, sorted: seq<nat>, k: nat)
    requires |xs| == |parent| == |names| && InRange(xs, sorted) && 1 <= k < |sorted|
    requires forall i :: 0 <= i < |parent| ==> -1 <= parent[i] < i
    ensures Swept(xs, parent, names, sorted[..k + 1]) ==
            Pushed(Swept(xs, parent, names, sorted[..k]), parent, names, sorted[k - 1], sorted[k])
  {
    assert sorted[..k + 1][..k] == sorted[..k];
  }

  /** One level's pass over positions `xs`: sort the level by x, then sweep it. */
  function Adjusted(xs: seq<real>, parent: seq<int>, depth: seq<nat>, names: seq<string>, d: nat): (r: seq<real>)
    requires IsTree(parent, depth) && |xs| == |parent| == |names|
    ensures |r| == |xs|
  {
    Swept(xs, parent, names, SortByX(xs, AtDepth(depth, d)))
  }

  /** A depth no node has leaves the positions as they are. */
  lemma AdjustedEmpty(xs: seq<real>, parent: seq<int>, depth: seq<nat>, names: seq<string>, d: nat)
    requires IsTree(parent, depth) && |xs| == |parent| == |names| && d !in depth
    ensures Adjusted(xs, parent, depth, names, d) == xs
    ensures Separated(xs, depth, names, d)
  {
    AtDepthAbsent(depth, d);
    forall i | 0 <= i < |xs| ensures depth[i] != d {
      assert depth[i] in depth;
    }
  }

  /** The positions after levels 0 to n - 1 have been adjusted, one after the other. */
  function Resolved(xs: seq<real>, parent: seq<int>, depth: seq<nat>, names: seq<string>, n: nat): (r: seq<real>)
    requires IsTree(parent, depth) && |xs| == |parent| == |names|
    ensures |r| == |xs|
  {
    if n == 0 then xs
    else Adjusted(Resolved(xs, parent, depth, names, n - 1), parent, depth, names, n - 1)
  }

  /** Depths run below the number of nodes, so levels from there on are empty. */
  lemma SeparatedBeyond(xs: seq<real>, parent: seq<int>, depth: seq<nat>, names: seq<string>)
    requires IsTree(parent, depth) && |xs| == |parent| == |names|
    requires forall e: nat :: e < |xs| ==> Separated(xs, depth, names, e)
    ensures forall e: nat :: Separated(xs, depth, names, e)
  {
    forall i | 0 <= i < |xs| ensures depth[i] < |xs| {
      DepthBelowIndex(parent, depth, i);
    }
  }

  lemma ResolvedStep(xs: seq<real>, parent: seq<int>, depth: seq<nat>, names: seq<string>, d: nat)
    requires IsTree(parent, depth) && |xs| == |parent| == |names|
    ensures Resolved(xs, parent, depth, names, d + 1) == Adjusted(Resolved(xs, parent, depth, names, d), parent, depth, names, d)
  {
  }

  /**
   * Sweeping a level clears every neighbouring pair of it, leaves the other
   * nodes on that level and above where they were, and moves nothing left.
   */
  lemma {:induction false} SweptSpec(xs: seq<real>, parent: seq<int>, depth: seq<nat>, names: seq<string>,
                                     sorted: seq<nat>, d: nat)
    requires IsTree(parent, depth) && |xs| == |parent| == |names|
    requires InRange(xs, sorted) && Distinct(sorted)
    requires forall k :: 0 <= k < |sorted| ==> depth[sorted[k]] == d
    ensures Spread(Swept(xs, parent, names, sorted), names, sorted)
    ensures forall i {:trigger Swept(xs, parent, names, sorted)[i]} ::
              0 <= i < |xs| && depth[i] <= d && i !in sorted ==> Swept(xs, parent, names, sorted)[i] == xs[i]
    ensures forall i {:trigger Swept(xs, parent, names, sorted)[i]} ::
              0 <= i < |xs| ==> Swept(xs, parent, names, sorted)[i] >= xs[i]
    decreases |sorted|
  {
    var n := |sorted|;
    if n >= 2 {
      var init := sorted[..n - 1];
      SweptSpec(xs, parent, depth, names, init, d);
      var before := Swept(xs, parent, names, init);
      PushedSpec(before, parent, depth, names, sorted[n - 2], sorted[n - 1], d);
      var r := Swept(xs, parent, names, sorted);
      assert r == Pushed(before, parent, names, sorted[n - 2], sorted[n - 1]);
      forall j | 1 <= j < n
        ensures r[sorted[j]] - r[sorted[j - 1]] >= MinDistance(names[sorted[j - 1]], names[sorted[j]])
      {
        if j < n - 1 {
          assert init[j - 1] == sorted[j - 1] && init[j] == sorted[j];
          assert r[sorted[j]] == before[sorted[j]] && r[sorted[j - 1]] == before[sorted[j - 1]];
        }
      }
      forall i | 0 <= i < |xs| && depth[i] <= d && i !in sorted ensures r[i] == xs[i] {
        assert i !in init;
      }
    }
  }

  /**
   * One level's pass leaves no overlap on that level, leaves the levels
   * above it as they were, and moves nothing left.
   */
  lemma AdjustedSpec(xs: seq<real>, parent: seq<int>, depth: seq<nat>, names: seq<string>, d: nat)
    requires IsTree(parent, depth) && |xs| == |parent| == |names|
    ensures Separated(Adjusted(xs, parent, depth, names, d), depth, names, d)
    ensures forall i {:trigger Adjusted(xs, parent, depth, names, d)[i]} ::
              0 <= i < |xs| && depth[i] < d ==> Adjusted(xs, parent, depth, names, d)[i] == xs[i]
    ensures forall i {:trigger Adjusted(xs, parent, depth, names, d)[i]} ::
              0 <= i < |xs| ==> Adjusted(xs, parent, depth, names, d)[i] >= xs[i]
  {
    var level := AtDepth(depth, d);
    AtDepthSpec(depth, d);
    assert forall k :: 0 <= k < |level| ==> level[k] in level;
    var sorted := SortByX(xs, level);
    DistinctPermutation(level, sorted);
    forall k | 0 <= k < |sorted| ensures depth[sorted[k]] == d {
      assert sorted[k] in multiset(level);
    }
    SweptSpec(xs, parent, depth, names, sorted, d);
    forall i | 0 <= i < |xs| && depth[i] == d ensures i in sorted {
      assert i in multiset(level);
    }
    LevelSeparated(Swept(xs, parent, names, sorted), depth, names, sorted, d);
  }

  /** Levels 0 to n - 1 of `xs` have no overlapping boxes. */
  predicate Settled(xs: seq<real>, depth: seq<nat>, names: seq<string>, n: nat)
    requires |xs| == |depth| == |names|
  {
    n == 0 || (Settled(xs, depth, names, n - 1) && Separated(xs, depth, names, n - 1))
  }

  lemma {:induction false} SettledAll(xs: seq<real>, depth: seq<nat>, names: seq<string>, n: nat)
    requires |xs| == |depth| == |names|
    ensures Settled(xs, depth, names, n) <==> forall e: nat :: e < n ==> Separated(xs, depth, names, e)
    decreases n
  {
    if n > 0 {
      SettledAll(xs, depth, names, n - 1);
    }
  }

  /** Adjusting level d of positions whose levels above it are settled settles one more level. */
  lemma AdjustedSettles(xs: seq<real>, parent: seq<int>, depth: seq<nat>, names: seq<string>, d: nat)
    requires IsTree(parent, depth) && |xs| == |parent| == |names|
    requires Settled(xs, depth, names, d)
    ensures Settled(Adjusted(xs, parent, depth, names, d), depth, names, d + 1)
  {
    var next := Adjusted(xs, parent, depth, names, d);
    AdjustedSpec(xs, parent, depth, names, d);
    SettledAll(xs, depth, names, d);
    SeparatedAbove(xs, next, depth, names, d);
    SettledAll(next, depth, names, d);
  }

  /** After levels 0 to n - 1 have been adjusted in turn, none of them has overlapping boxes. */
  lemma {:induction false} ResolvedSpec(xs: seq<real>, parent: seq<int>, depth: seq<nat>, names: seq<string>, n: nat)
    requires IsTree(parent, depth) && |xs| == |parent| == |names|
    ensures Settled(Resolved(xs, parent, depth, names, n), depth, names, n)
    decreases n
  {
    if n > 0 {
      ResolvedSpec(xs, parent, depth, names, n - 1);
      AdjustedSettles(Resolved(xs, parent, depth, names, n - 1), parent, depth, names, n - 1);
    }
  }

  /** Once every level that can hold a node has been adjusted, no level has overlapping boxes. */
  lemma ResolvedSeparated(xs: seq<real>, parent: seq<int>, depth: seq<nat>, names: seq<string>)
    requires IsTree(parent, depth) && |xs| == |parent| == |names|
    ensures forall e: nat :: Separated(Resolved(xs, parent, depth, names, |xs|), depth, names, e)
  {
    var r := Resolved(xs, parent, depth, names, |xs|);
    ResolvedSpec(xs, parent, depth, names, |xs|);
    SettledAll(r, depth, names, |xs|);
    SeparatedBeyond(r, parent, depth, names);
  }

  /** Adjusting one level keeps the levels above it separated. */
  lemma SeparatedAbove(a: seq<real>, b: seq<real>, depth: seq<nat>, names: seq<string>, d: nat)
    requires |a| == |b| == |depth| == |names|
    requires forall i {:trigger b[i]} :: 0 <= i < |a| && depth[i] < d ==> a[i] == b[i]
    requires forall e: nat :: e < d ==> Separated(a, depth, names, e)
    ensures forall e: nat :: e < d ==> Separated(b, depth, names, e)
  {
    forall e: nat | e < d ensures Separated(b, depth, names, e) {
      SeparatedFrame(a, b, depth, names, e);
    }
  }

  /**
   * One level's pass: walk the level in sorted order and push each node
   * (with its subtree) right until it clears its left neighbour.
   */
  method SweepLevel(x: array<real>, parent: seq<int>, depth: seq<nat>, names: seq<string>, sorted: seq<nat>, d: nat)
    requires IsTree(parent, depth) && x.Length == |parent| == |names|
    requires InRange(x[..], sorted) && Distinct(sorted)
    requires forall k :: 0 <= k < |sorted| ==> depth[sorted[k]] == d
    modifies x
    ensures x[..] == Swept(old(x[..]), parent, names, sorted)
    ensures Spread(x[..], names, sorted)
    ensures forall i :: 0 <= i < x.Length && depth[i] <= d && i !in sorted ==> x[i] == old(x[i])
    ensures forall i :: 0 <= i < x.Length ==> x[i] >= old(x[i])
  {
    var k := 1;
    while k < |sorted|
      invariant 1 <= k && (k <= |sorted| || |sorted| == 0)
      invariant |sorted| == 0 ==> x[..] == old(x[..])
      invariant 0 < |sorted| ==> x[..] == Swept(old(x[..]), parent, names, sorted[..k])
    {
      SweptStep(old(x[..]), parent, names, sorted, k);
      PushApart(x, parent, depth, names, sorted[k - 1], sorted[k], d);
      k := k + 1;
    }
    assert |sorted| > 0 ==> sorted[..k] == sorted;
    SweptSpec(old(x[..]), parent, depth, names, sorted, d);
  }

  /**
   * One step of the sweep: when `curr` is closer to `prev` than their minimum
   * distance, shift `curr` and its subtree right by the shortfall.
   */
  method PushApart(x: array<real>, parent: seq<int>, depth: seq<nat>, names: seq<string>, prev: nat, curr: nat, d: nat)
    requires IsTree(parent, depth) && x.Length == |parent| == |names|
    requires prev < x.Length && curr < x.Length && prev != curr && depth[prev] == d && depth[curr] == d
    modifies x
    ensures x[..] == Pushed(old(x[..]), parent, names, prev, curr)
    ensures x[curr] - x[prev] >= MinDistance(names[prev], names[curr])
    ensures forall i :: 0 <= i < x.Length && depth[i] <= d && i != curr ==> x[i] == old(x[i])
    ensures forall i :: 0 <= i < x.Length ==> x[i] >= old(x[i])
  {
    var minDistance := MinDistance(names[prev], names[curr]);
    var actualDistance := x[curr] - x[prev];
    if actualDistance < minDistance {
      var shift := minDistance - actualDistance;
      forall i | 0 <= i < x.Length && Descends(parent, curr, i) ensures depth[i] > d {
        DescendsDeeper(parent, depth, curr, i);
      }
      ShiftSubtree(x, parent, curr, shift);
    }
  }

  /** The body of the per-level loop: sort the level by x, then sweep it. */
  method AdjustLevel(x: array<real>, parent: seq<int>, depth: seq<nat>, names: seq<string>,
                     nodesAtLevel: seq<nat>, d: nat)
    requires IsTree(parent, depth) && x.Length == |parent| == |names|
    requires nodesAtLevel == AtDepth(depth, d)
    modifies x
    ensures x[..] == Adjusted(old(x[..]), parent, depth, names, d)
    ensures Separated(x[..], depth, names, d)
    ensures forall i :: 0 <= i < x.Length && depth[i] < d ==> x[i] == old(x[i])
    ensures forall i :: 0 <= i < x.Length ==> x[i] >= old(x[i])
  {
    AtDepthSpec(depth, d);
    assert forall k :: 0 <= k < |nodesAtLevel| ==> nodesAtLevel[k] in nodesAtLevel;
    var sorted := SortByX(x[..], nodesAtLevel);
    DistinctPermutation(nodesAtLevel, sorted);
    forall k | 0 <= k < |sorted| ensures depth[sorted[k]] == d {
      assert sorted[k] in multiset(nodesAtLevel);
    }
    SweepLevel(x, parent, depth, names, sorted, d);
    forall i | 0 <= i < x.Length && depth[i] == d ensures i in sorted {
      assert i in multiset(nodesAtLevel);
    }
    LevelSeparated(x[..], depth, names, sorted, d);
  }

  /** The per-level step of the pass: a depth no node has is left alone. */
  method AdjustDepth(x: array<real>, parent: seq<int>, depth: seq<nat>, names: seq<string>,
                     byLevel: map<nat, seq<nat>>, d: nat)
    requires IsTree(parent, depth) && x.Length == |parent| == |names|
    requires forall e :: e in byLevel <==> e in depth
    requires forall e :: e in byLevel ==> byLevel[e] == AtDepth(depth, e)
    modifies x
    ensures x[..] == Adjusted(old(x[..]), parent, depth, names, d)
    ensures forall i :: 0 <= i < x.Length ==> x[i] >= old(x[i])
  {
    if d in byLevel {
      AdjustLevel(x, parent, depth, names, byLevel[d], d);
    } else {
      AdjustedEmpty(x[..], parent, depth, names, d);
    }
  }

  /**
   * The whole pass: levels from the top down (`Object.keys` lists integer
   * keys in ascending order), each sorted by its current x and swept. On
   * return no two boxes on one level overlap, and no node moved left.
   */
  method ResolveOverlaps(x: array<real>, parent: seq<int>, depth: seq<nat>, names: seq<string>)
    requires IsTree(parent, depth) && x.Length == |parent| == |names|
    modifies x
    ensures x[..] == Resolved(old(x[..]), parent, depth, names, x.Length)
    ensures forall e: nat :: Separated(x[..], depth, names, e)
    ensures forall i :: 0 <= i < x.Length ==> x[i] >= old(x[i])
  {
    var byLevel := GroupByLevel(depth);
    for d := 0 to x.Length
      invariant x[..] == Resolved(old(x[..]), parent, depth, names, d)
      invariant forall i :: 0 <= i < x.Length ==> x[i] >= old(x[i])
    {
      ResolvedStep(old(x[..]), parent, depth, names, d);
      AdjustDepth(x, parent, depth, names, byLevel, d);
    }
    ResolvedSeparated(old(x[..]), parent, depth, names);
  }
}
