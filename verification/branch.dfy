/**
 * `getBranchOntologyData`: the part of the class graph around one class, its
 * subclasses (following links forward) and its superclasses (following them
 * backward), with the links among them.
 */
module Branch {
  import opened OntologyGraph
  import Hierarchy

  // ---------------------------------------------------------------------------
  // Reachability
  // ---------------------------------------------------------------------------

  /** `w` follows links: each step goes from a link's source to its target. */
  ghost predicate IsWalk(links: seq<Link>, w: seq<string>) {
    |w| >= 1 && forall k :: 0 <= k < |w| - 1 ==> Link(w[k], w[k + 1]) in links
  }

  /** `b` is reached from `a` by one or more links. */
  ghost predicate Reaches(links: seq<Link>, a: string, b: string) {
    exists w :: IsWalk(links, w) && |w| >= 2 && w[0] == a && w[|w| - 1] == b
  }

  ghost predicate Acyclic(links: seq<Link>) {
    forall a :: !Reaches(links, a, a)
  }

  /** Every class below `a`: the transitive subclasses. */
  ghost function Below(links: seq<Link>, a: string): set<string> {
    set b | b in Hierarchy.Targets(links) && Reaches(links, a, b)
  }

  /** No class below `a` lies on a cycle: following links forward from `a` always ends. */
  ghost predicate NoCycleBelow(links: seq<Link>, a: string) {
    forall b :: b in Below(links, a) ==> !Reaches(links, b, b)
  }

  /** The links turned around, so that following them forward goes up. */
  function Flip(links: seq<Link>): (r: seq<Link>)
    ensures |r| == |links| && forall k :: 0 <= k < |links| ==> r[k] == Link(links[k].target, links[k].source)
  {
    seq(|links|, k requires 0 <= k < |links| => Link(links[k].target, links[k].source))
  }

  /** Every class above `a`: the transitive superclasses. */
  ghost function Above(links: seq<Link>, a: string): set<string> {
    Below(Flip(links), a)
  }

  lemma OneStep(links: seq<Link>, a: string, b: string)
    requires Link(a, b) in links
    ensures Reaches(links, a, b) && b in Hierarchy.Targets(links)
  {
    assert IsWalk(links, [a, b]);
  }

  /** A walk to `u` followed by a link out of `u`. */
  lemma Extend(links: seq<Link>, a: string, u: string, b: string)
    requires Reaches(links, a, u) && Link(u, b) in links
    ensures Reaches(links, a, b) && b in Hierarchy.Targets(links)
  {
    var w :| IsWalk(links, w) && |w| >= 2 && w[0] == a && w[|w| - 1] == u;
    var w' := w + [b];
    assert IsWalk(links, w');
  }

  /** A link into `u` followed by a walk from `u`. */
  lemma Prepend(links: seq<Link>, a: string, u: string, b: string)
    requires Link(a, u) in links && Reaches(links, u, b)
    ensures Reaches(links, a, b)
  {
    var w :| IsWalk(links, w) && |w| >= 2 && w[0] == u && w[|w| - 1] == b;
    var w' := [a] + w;
    assert IsWalk(links, w');
  }

  /** Reversing the links reverses the walks. */
  lemma FlipReaches(links: seq<Link>, a: string, b: string)
    ensures Reaches(Flip(links), a, b) <==> Reaches(links, b, a)
  {
    if Reaches(links, b, a) {
      ReachesFlipped(links, b, a);
    }
    if Reaches(Flip(links), a, b) {
      ReachesFlipped(Flip(links), a, b);
      FlipFlip(links);
    }
  }

  lemma ReachesFlipped(links: seq<Link>, a: string, b: string)
    requires Reaches(links, a, b)
    ensures Reaches(Flip(links), b, a)
  {
    var w :| IsWalk(links, w) && |w| >= 2 && w[0] == a && w[|w| - 1] == b;
    ReverseWalk(links, w);
    var r := Reverse(w);
    assert r[0] == b && r[|r| - 1] == a;
  }

  function Reverse(w: seq<string>): (r: seq<string>)
    ensures |r| == |w| && forall k :: 0 <= k < |w| ==> r[k] == w[|w| - 1 - k]
  {
    seq(|w|, k requires 0 <= k < |w| => w[|w| - 1 - k])
  }

  lemma FlipFlip(links: seq<Link>)
    ensures Flip(Flip(links)) == links
  {
  }

  lemma ReverseWalk(links: seq<Link>, w: seq<string>)
    requires IsWalk(links, w)
    ensures IsWalk(Flip(links), Reverse(w))
  {
    var r := Reverse(w);
    forall k | 0 <= k < |r| - 1 ensures Link(r[k], r[k + 1]) in Flip(links) {
      var j := |w| - 2 - k;
      assert Link(w[j], w[j + 1]) in links;
      var i :| 0 <= i < |links| && links[i] == Link(w[j], w[j + 1]);
      assert Flip(links)[i] == Link(r[k], r[k + 1]);
    }
  }

  lemma JoinWalk(links: seq<Link>, a: seq<string>, b: seq<string>)
    requires IsWalk(links, a) && IsWalk(links, b) && a[|a| - 1] == b[0]
    ensures IsWalk(links, a[..|a| - 1] + b)
  {
    var j := a[..|a| - 1] + b;
    forall k | 0 <= k < |j| - 1 ensures Link(j[k], j[k + 1]) in links {
      if k < |a| - 2 {
        assert j[k] == a[k] && j[k + 1] == a[k + 1];
      } else if k == |a| - 2 {
        assert j[k] == a[k] && j[k + 1] == b[0];
      } else {
        assert j[k] == b[k - |a| + 1] && j[k + 1] == b[k - |a| + 2];
      }
    }
  }

  /**
   * Below `id` are exactly the targets of the links out of `id` together with
   * everything below those targets.
   */
  ghost function BelowVia(links: seq<Link>, ls: seq<Link>, id: string): set<string> {
    set b | b in Hierarchy.Targets(links) &&
      exists l :: l in ls && l.source == id && (b == l.target || Reaches(links, l.target, b))
  }

  lemma BelowUnfold(links: seq<Link>, id: string)
    ensures Below(links, id) == BelowVia(links, links, id)
  {
    forall b | b in Below(links, id) ensures b in BelowVia(links, links, id) {
      var w :| IsWalk(links, w) && |w| >= 2 && w[0] == id && w[|w| - 1] == b;
      var l := Link(w[0], w[1]);
      assert l in links;
      if |w| > 2 {
        assert IsWalk(links, w[1..]);
        assert Reaches(links, l.target, b);
      }
    }
    forall b | b in BelowVia(links, links, id) ensures b in Below(links, id) {
      var l :| l in links && l.source == id && (b == l.target || Reaches(links, l.target, b));
      OneStep(links, l.source, l.target);
      if b != l.target {
        Prepend(links, id, l.target, b);
      }
    }
  }

  lemma BelowViaStep(links: seq<Link>, i: nat, id: string)
    requires i < |links|
    ensures BelowVia(links, links[..i + 1], id) ==
      BelowVia(links, links[..i], id) +
      (if links[i].source == id then {links[i].target} + Below(links, links[i].target) else {})
  {
    var l := links[i];
    assert links[..i + 1] == links[..i] + [l];
    if l.source == id {
      OneStep(links, l.source, l.target);
    }
  }

  lemma BelowViaEmpty(links: seq<Link>, id: string)
    ensures BelowVia(links, links[..0], id) == {}
  {
  }

  /** Without cycles below `id`, a subclass has strictly fewer classes below it, and no cycles below it either. */
  lemma BelowShrinks(links: seq<Link>, id: string, t: string)
    requires NoCycleBelow(links, id) && Link(id, t) in links
    ensures Below(links, t) < Below(links, id)
    ensures |Below(links, t)| < |Below(links, id)|
    ensures NoCycleBelow(links, t)
  {
    forall b | b in Below(links, t) ensures b in Below(links, id) {
      Prepend(links, id, t, b);
    }
    OneStep(links, id, t);
    assert t in Below(links, id);
    assert !Reaches(links, t, t);
    assert Below(links, id) == Below(links, t) + (Below(links, id) - Below(links, t));
  }

  // ---------------------------------------------------------------------------
  // The traversal as written: no record of visited classes
  // ---------------------------------------------------------------------------

  /**
   * `findSubclasses`: for every link out of `id`, records its target and
   * recurses into it. The shared set is threaded through as a value. The
   * recursion ends only when no cycle can be reached from `id`.
   */
  method FindSubclasses(links: seq<Link>, id: string, subclasses: set<string>) returns (found: set<string>)
    requires NoCycleBelow(links, id)
    ensures found == subclasses + Below(links, id)
    decreases |Below(links, id)|
  {
    found := subclasses;
    BelowViaEmpty(links, id);
    for i := 0 to |links|
      invariant found == subclasses + BelowVia(links, links[..i], id)
    {
      var link := links[i];
      if link.source == id {
        found := found + {link.target};
        BelowShrinks(links, id, link.target);
        found := FindSubclasses(links, link.target, found);
      }
      BelowViaStep(links, i, id);
    }
    assert links[..|links|] == links;
    BelowUnfold(links, id);
  }

  /** No class above `a` lies on a cycle: following links backward from `a` always ends. */
  ghost predicate NoCycleAbove(links: seq<Link>, a: string) {
    NoCycleBelow(Flip(links), a)
  }

  /** The classes above `id` reached through the first `i` links into it. */
  ghost function AboveVia(links: seq<Link>, i: nat, id: string): set<string>
    requires i <= |links|
  {
    BelowVia(Flip(links), Flip(links)[..i], id)
  }

  lemma AboveViaStep(links: seq<Link>, i: nat, id: string)
    requires i < |links|
    ensures AboveVia(links, i + 1, id) ==
      AboveVia(links, i, id) +
      (if links[i].target == id then {links[i].source} + Above(links, links[i].source) else {})
  {
    var up := Flip(links);
    assert up[i] == Link(links[i].target, links[i].source);
    BelowViaStep(up, i, id);
  }

  lemma AboveViaEnds(links: seq<Link>, id: string)
    ensures AboveVia(links, 0, id) == {}
    ensures AboveVia(links, |links|, id) == Above(links, id)
  {
    var up := Flip(links);
    BelowViaEmpty(up, id);
    assert up[..|up|] == up;
    BelowUnfold(up, id);
  }

  /** Without cycles above `id`, a superclass has strictly fewer classes above it, and no cycles above it either. */
  lemma AboveShrinks(links: seq<Link>, id: string, i: nat)
    requires NoCycleAbove(links, id) && i < |links| && links[i].target == id
    ensures |Above(links, links[i].source)| < |Above(links, id)|
    ensures NoCycleAbove(links, links[i].source)
  {
    var up := Flip(links);
    assert up[i] == Link(id, links[i].source);
    BelowShrinks(up, id, links[i].source);
  }

  /**
   * `findSuperclasses`: for every link into `id`, records its source and
   * recurses into it; the mirror image of `FindSubclasses`.
   */
  method FindSuperclasses(links: seq<Link>, id: string, superclasses: set<string>) returns (found: set<string>)
    requires NoCycleAbove(links, id)
    ensures found == superclasses + Above(links, id)
    decreases |Above(links, id)|
  {
    found := superclasses;
    AboveViaEnds(links, id);
    for i := 0 to |links|
      invariant found == superclasses + AboveVia(links, i, id)
    {
      var link := links[i];
      if link.target == id {
        found := found + {link.source};
        AboveShrinks(links, id, i);
        found := FindSuperclasses(links, link.source, found);
      }
      AboveViaStep(links, i, id);
    }
  }

  /** `c` lists nested calls: the call for `c[k]` makes the call for `c[k + 1]`. */
  ghost predicate CallChain(links: seq<Link>, c: seq<string>) {
    IsWalk(links, c)
  }

  function Repeat(cyc: seq<string>, t: nat): (r: seq<string>)
    ensures |cyc| >= 1 ==> |r| >= t
  {
    if t == 0 then [] else cyc + Repeat(cyc, t - 1)
  }

  lemma {:induction false} RepeatWalk(links: seq<Link>, w: seq<string>, t: nat)
    requires IsWalk(links, w) && |w| >= 2 && w[0] == w[|w| - 1]
    ensures IsWalk(links, Repeat(w[..|w| - 1], t) + [w[0]])
  {
    var cyc := w[..|w| - 1];
    if t > 0 {
      RepeatWalk(links, w, t - 1);
      var rest := Repeat(cyc, t - 1) + [w[0]];
      assert rest[0] == w[0] by {
        if t - 1 > 0 {
          assert Repeat(cyc, t - 1)[0] == cyc[0];
        }
      }
      JoinWalk(links, w, rest);
      assert w[..|w| - 1] + rest == Repeat(cyc, t) + [w[0]];
    }
  }

  /**
   * On links with a cycle through `x`, `findSubclasses(x)` starts a chain of
   * nested calls of every length: the recursion never returns.
   */
  lemma EndlessRecursion(links: seq<Link>, x: string, n: nat)
    requires Reaches(links, x, x)
    ensures exists c :: |c| == n + 1 && c[0] == x && CallChain(links, c)
  {
    var w :| IsWalk(links, w) && |w| >= 2 && w[0] == x && w[|w| - 1] == x;
    RepeatWalk(links, w, n + 1);
    var cyc := w[..|w| - 1];
    var long := Repeat(cyc, n + 1) + [w[0]];
    assert |Repeat(cyc, n + 1)| >= n + 1;
    var c := long[..n + 1];
    assert long[0] == cyc[0] == x;
    assert c[0] == long[0];
    assert IsWalk(links, c) by {
      forall k | 0 <= k < |c| - 1 ensures Link(c[k], c[k + 1]) in links {
        assert c[k] == long[k] && c[k + 1] == long[k + 1];
      }
    }
  }

  /**
   * More generally, a cycle anywhere below `x` is reached by the recursion,
   * which then never returns: `NoCycleBelow` is exactly when it ends.
   */
  lemma CycleBelowEndless(links: seq<Link>, x: string, n: nat)
    requires !NoCycleBelow(links, x)
    ensures exists c :: |c| == n + 1 && c[0] == x && CallChain(links, c)
  {
    var b :| b in Below(links, x) && Reaches(links, b, b);
    var w :| IsWalk(links, w) && |w| >= 2 && w[0] == x && w[|w| - 1] == b;
    EndlessRecursion(links, b, n);
    var c0 :| |c0| == n + 1 && c0[0] == b && CallChain(links, c0);
    JoinWalk(links, w, c0);
    var long := w[..|w| - 1] + c0;
    var c := long[..n + 1];
    assert c[0] == w[0] == x;
    assert IsWalk(links, c) by {
      forall k | 0 <= k < |c| - 1 ensures Link(c[k], c[k + 1]) in links {
        assert c[k] == long[k] && c[k + 1] == long[k + 1];
      }
    }
  }

  /** Two classes, each a subclass of the other: a cycle through "A", so the recursion from "A" never ends. */
  lemma TwoClassCycle(links: seq<Link>)
    requires links == [Link("A", "B"), Link("B", "A")]
    ensures Reaches(links, "A", "A") && !NoCycleBelow(links, "A") && !Acyclic(links)
  {
    assert IsWalk(links, ["A", "B", "A"]);
    assert Link("B", "A") in links;
    assert "A" in Hierarchy.Targets(links);
    assert "A" in Below(links, "A");
  }

  /** A cycle that cannot be reached from "A" does not stop the recursion from "A". */
  lemma UnrelatedCycle(links: seq<Link>)
    requires links == [Link("A", "B"), Link("C", "D"), Link("D", "C")]
    ensures NoCycleBelow(links, "A") && Below(links, "A") == {"B"} && !Acyclic(links)
  {
    assert IsWalk(links, ["C", "D", "C"]);
    assert Reaches(links, "C", "C");
    ClosedHoldsBelow(links, {"B"}, "A");
    ClosedHoldsBelow(links, {}, "B");
    OneStep(links, "A", "B");
    assert "B" in Hierarchy.Targets(links);
  }


  // ---------------------------------------------------------------------------
  // The traversal with a visited set
  // ---------------------------------------------------------------------------

  /** A set that holds every successor of each of its members holds all below them. */
  lemma ClosedHoldsBelow(links: seq<Link>, s: set<string>, a: string)
    requires forall l :: l in links && l.source == a ==> l.target in s
    requires forall l :: l in links && l.source in s ==> l.target in s
    ensures Below(links, a) <= s
  {
    forall b | b in Below(links, a) ensures b in s {
      var w :| IsWalk(links, w) && |w| >= 2 && w[0] == a && w[|w| - 1] == b;
      var k := 1;
      assert Link(w[0], w[1]) in links;
      while k < |w| - 1
        invariant 1 <= k <= |w| - 1 && w[k] in s
      {
        assert Link(w[k], w[k + 1]) in links;
        k := k + 1;
      }
    }
  }

  lemma StepBelow(links: seq<Link>, start: string, u: string, t: string)
    requires u == start || u in Below(links, start)
    requires Link(u, t) in links
    ensures t in Below(links, start)
  {
    if u == start {
      OneStep(links, u, t);
    } else {
      Extend(links, start, u, t);
    }
  }

  /** Finding more targets leaves fewer targets to find. */
  lemma FewerLeft(targets: set<string>, f0: set<string>, f: set<string>)
    requires f0 <= f && f - f0 <= targets
    ensures f == f0 || |targets - f| < |targets - f0|
  {
    if f != f0 {
      assert f == f0 + (f - f0);
      var t :| t in f - f0;
      assert targets - f0 == (targets - f) + ((targets - f0) - (targets - f));
      assert t in (targets - f0) - (targets - f);
    }
  }

  /** Targets of links out of a class below `start` (or `start` itself) are below `start`. */
  lemma StepsStayBelow(links: seq<Link>, start: string, u: string, f0: set<string>, f: set<string>)
    requires u == start || u in Below(links, start)
    requires f0 <= Below(links, start)
    requires forall v :: v in f - f0 ==> Link(u, v) in links
    ensures f0 + f <= Below(links, start)
  {
    forall v | v in f - f0 ensures v in Below(links, start) {
      StepBelow(links, start, u, v);
    }
  }

  /**
   * One step of the traversal: records every target of a link out of `u`
   * not yet found, and queues it for expansion.
   */
  method Expand(links: seq<Link>, u: string, found: set<string>, work: set<string>)
    returns (found': set<string>, work': set<string>)
    ensures found <= found'
    ensures forall v :: v in found' - found ==> Link(u, v) in links
    ensures forall l :: l in links && l.source == u ==> l.target in found'
    ensures work' == work + (found' - found)
  {
    found', work' := found, work;
    for i := 0 to |links|
      invariant found <= found'
      invariant forall v :: v in found' - found ==> Link(u, v) in links
      invariant forall l :: l in links[..i] && l.source == u ==> l.target in found'
      invariant work' == work + (found' - found)
    {
      var link := links[i];
      if link.source == u && link.target !in found' {
        found' := found' + {link.target};
        work' := work' + {link.target};
      }
      assert links[..i + 1] == links[..i] + [link];
    }
    assert links[..|links|] == links;
  }

  /**
   * The traversal's bookkeeping: classes waiting in `work` are found (or the
   * start), each found class is waiting or expanded, and the links out of an
   * expanded class all lead to found classes.
   */
  ghost predicate Frontier(links: seq<Link>, start: string, found: set<string>, work: set<string>, expanded: set<string>) {
    (forall u :: u in work ==> u == start || u in found) &&
    (forall u :: u in found ==> u in expanded || u in work) &&
    (start in expanded || start in work) &&
    (forall l :: l in links && l.source in expanded ==> l.target in found)
  }

  lemma FrontierStep(links: seq<Link>, start: string, found: set<string>, work: set<string>, expanded: set<string>,
                     u: string, found': set<string>, work': set<string>)
    requires Frontier(links, start, found, work, expanded) && u in work
    requires found <= found' && work' == (work - {u}) + (found' - found)
    requires forall l :: l in links && l.source == u ==> l.target in found'
    ensures Frontier(links, start, found', work', expanded + {u})
  {
  }

  /** With nothing left to expand, every found class and the start are expanded. */
  lemma FrontierDone(links: seq<Link>, start: string, found: set<string>, expanded: set<string>)
    requires Frontier(links, start, found, {}, expanded)
    ensures Below(links, start) <= found
  {
    ClosedHoldsBelow(links, found, start);
  }

  /**
   * The traversal the branch view needs: every class below `start`, each
   * expanded once, so that it ends on any links, cyclic or not.
   */
  method CollectBelow(links: seq<Link>, start: string) returns (found: set<string>)
    ensures found == Below(links, start)
  {
    found := {};
    var work := {start};
    ghost var expanded: set<string> := {};
    while work != {}
      invariant found <= Below(links, start)
      invariant Frontier(links, start, found, work, expanded)
      decreases |Hierarchy.Targets(links) - found|, |work|
    {
      var u :| u in work;
      ghost var before, waiting := found, work;
      found, work := Expand(links, u, found, work - {u});
      StepsStayBelow(links, start, u, before, found);
      forall v | v in found - before ensures v in Hierarchy.Targets(links) {
        assert Link(u, v) in links;
      }
      FewerLeft(Hierarchy.Targets(links), before, found);
      FrontierStep(links, start, before, waiting, expanded, u, found, work);
      expanded := expanded + {u};
    }
    FrontierDone(links, start, found, expanded);
  }

  /** Every class above `start`: the same traversal over the turned-around links. */
  method CollectAbove(links: seq<Link>, start: string) returns (found: set<string>)
    ensures found == Above(links, start)
  {
    found := CollectBelow(Flip(links), start);
  }

  // ---------------------------------------------------------------------------
  // The branch
  // ---------------------------------------------------------------------------

  /** `x` is the focal class, one of its subclasses or one of its superclasses. */
  ghost predicate InBranch(links: seq<Link>, focal: string, x: string) {
    x == focal || Reaches(links, focal, x) || Reaches(links, x, focal)
  }

  /** The nodes whose id is in `ids`, in their original order. */
  function NodesIn(nodes: seq<ClassNode>, ids: set<string>): (r: seq<ClassNode>)
    ensures |r| <= |nodes|
    ensures forall n :: n in r <==> n in nodes && n.id in ids
  {
    if nodes == [] then []
    else
      var n := nodes[|nodes| - 1];
      NodesIn(nodes[..|nodes| - 1], ids) + (if n.id in ids then [n] else [])
  }

  /** The links with both ends in `ids`, in their original order. */
  function LinksAmong(links: seq<Link>, ids: set<string>): (r: seq<Link>)
    ensures |r| <= |links|
    ensures forall l :: l in r <==> l in links && l.source in ids && l.target in ids
  {
    if links == [] then []
    else
      var l := links[|links| - 1];
      LinksAmong(links[..|links| - 1], ids) + (if l.source in ids && l.target in ids then [l] else [])
  }

  /** Filtering a concatenation filters each part: the filter keeps the input order. */
  lemma {:induction false} NodesInAppend(a: seq<ClassNode>, b: seq<ClassNode>, ids: set<string>)
    ensures NodesIn(a + b, ids) == NodesIn(a, ids) + NodesIn(b, ids)
    decreases |b|
  {
    if b != [] {
      var init := b[..|b| - 1];
      NodesInAppend(a, init, ids);
      assert (a + b)[..|a + b| - 1] == a + init;
      assert (a + b)[|a + b| - 1] == b[|b| - 1];
    } else {
      assert a + b == a;
    }
  }

  /** A single node is kept exactly when its id is in the set. */
  lemma NodesInOne(n: ClassNode, ids: set<string>)
    ensures NodesIn([n], ids) == if n.id in ids then [n] else []
  {
    assert [n][..0] == [];
    assert NodesIn([n][..0], ids) == [];
  }

  lemma {:induction false} LinksAmongAppend(a: seq<Link>, b: seq<Link>, ids: set<string>)
    ensures LinksAmong(a + b, ids) == LinksAmong(a, ids) + LinksAmong(b, ids)
    decreases |b|
  {
    if b != [] {
      var init := b[..|b| - 1];
      LinksAmongAppend(a, init, ids);
      assert (a + b)[..|a + b| - 1] == a + init;
      assert (a + b)[|a + b| - 1] == b[|b| - 1];
    } else {
      assert a + b == a;
    }
  }

  /** A single link is kept exactly when both of its ends are in the set. */
  lemma LinksAmongOne(l: Link, ids: set<string>)
    ensures LinksAmong([l], ids) == if l.source in ids && l.target in ids then [l] else []
  {
    assert [l][..0] == [];
    assert LinksAmong([l][..0], ids) == [];
  }

  lemma NodesInAll(nodes: seq<ClassNode>, ids: set<string>)
    requires forall n :: n in nodes ==> n.id in ids
    ensures NodesIn(nodes, ids) == nodes
  {
    if nodes != [] {
      NodesInAll(nodes[..|nodes| - 1], ids);
      assert nodes[..|nodes| - 1] + [nodes[|nodes| - 1]] == nodes;
    }
  }

  lemma LinksAmongAll(links: seq<Link>, ids: set<string>)
    requires forall l :: l in links ==> l.source in ids && l.target in ids
    ensures LinksAmong(links, ids) == links
  {
    if links != [] {
      LinksAmongAll(links[..|links| - 1], ids);
      assert links[..|links| - 1] + [links[|links| - 1]] == links;
    }
  }

  /** The ids of the branch: the focal class, the classes below it and the classes above it. */
  ghost function BranchSet(links: seq<Link>, focal: string): set<string> {
    {focal} + Below(links, focal) + Above(links, focal)
  }

  lemma BranchIds(links: seq<Link>, focal: string, below: set<string>, above: set<string>, x: string)
    requires below == Below(links, focal) && above == Above(links, focal)
    ensures x in {focal} + below + above <==> InBranch(links, focal, x)
  {
    FlipReaches(links, focal, x);
    if Reaches(links, focal, x) {
      ReachEnds(links, focal, x);
    }
    if Reaches(links, x, focal) {
      ReachEnds(links, x, focal);
      ReachesFlipped(links, x, focal);
      ReachEnds(Flip(links), focal, x);
    }
  }

  /** A walk ends at the target of a link. */
  lemma ReachEnds(links: seq<Link>, a: string, b: string)
    requires Reaches(links, a, b)
    ensures b in Hierarchy.Targets(links)
  {
    var w :| IsWalk(links, w) && |w| >= 2 && w[0] == a && w[|w| - 1] == b;
    assert Link(w[|w| - 2], w[|w| - 1]) in links;
  }

  /** A walk along some of the links is a walk along all of them. */
  lemma WalkWider(sub: seq<Link>, links: seq<Link>, w: seq<string>)
    requires (forall l :: l in sub ==> l in links) && IsWalk(sub, w)
    ensures IsWalk(links, w)
  {
  }

  /** A walk that stays inside `ids` only uses links among `ids`. */
  lemma WalkInside(links: seq<Link>, ids: set<string>, w: seq<string>)
    requires IsWalk(links, w) && forall k :: 0 <= k < |w| ==> w[k] in ids
    ensures IsWalk(LinksAmong(links, ids), w)
  {
    forall k | 0 <= k < |w| - 1 ensures Link(w[k], w[k + 1]) in LinksAmong(links, ids) {
      assert Link(w[k], w[k + 1]) in links && w[k] in ids && w[k + 1] in ids;
    }
  }

  /** A walk from the focal class stays inside its branch. */
  lemma WalkFromInside(links: seq<Link>, focal: string, ids: set<string>, w: seq<string>)
    requires forall y :: y in ids <==> InBranch(links, focal, y)
    requires IsWalk(links, w) && |w| >= 2 && w[0] == focal
    ensures IsWalk(LinksAmong(links, ids), w)
  {
    forall k | 0 <= k < |w| ensures w[k] in ids {
      if k > 0 {
        var p := w[..k + 1];
        assert IsWalk(links, p) && |p| >= 2 && p[0] == focal && p[|p| - 1] == w[k];
      }
    }
    WalkInside(links, ids, w);
  }

  /** A walk to the focal class stays inside its branch. */
  lemma WalkToInside(links: seq<Link>, focal: string, ids: set<string>, w: seq<string>)
    requires forall y :: y in ids <==> InBranch(links, focal, y)
    requires IsWalk(links, w) && |w| >= 2 && w[|w| - 1] == focal
    ensures IsWalk(LinksAmong(links, ids), w)
  {
    forall k | 0 <= k < |w| ensures w[k] in ids {
      if k < |w| - 1 {
        var p := w[k..];
        assert IsWalk(links, p) && |p| >= 2 && p[0] == w[k] && p[|p| - 1] == focal;
      }
    }
    WalkInside(links, ids, w);
  }

  /**
   * Every walk from or to the focal class stays inside its branch, so the
   * links among the branch give the focal class the same branch again.
   */
  lemma BranchOfBranchIds(links: seq<Link>, focal: string, ids: set<string>, x: string)
    requires forall y :: y in ids <==> InBranch(links, focal, y)
    ensures InBranch(LinksAmong(links, ids), focal, x) <==> InBranch(links, focal, x)
  {
    var sub := LinksAmong(links, ids);
    if Reaches(sub, focal, x) {
      var w :| IsWalk(sub, w) && |w| >= 2 && w[0] == focal && w[|w| - 1] == x;
      WalkWider(sub, links, w);
    }
    if Reaches(sub, x, focal) {
      var w :| IsWalk(sub, w) && |w| >= 2 && w[0] == x && w[|w| - 1] == focal;
      WalkWider(sub, links, w);
    }
    if Reaches(links, focal, x) {
      var w :| IsWalk(links, w) && |w| >= 2 && w[0] == focal && w[|w| - 1] == x;
      WalkFromInside(links, focal, ids, w);
    }
    if Reaches(links, x, focal) {
      var w :| IsWalk(links, w) && |w| >= 2 && w[0] == x && w[|w| - 1] == focal;
      WalkToInside(links, focal, ids, w);
    }
  }

  /**
   * Extracting the branch is idempotent: on the nodes and links it returns,
   * the same focal class has the same branch, and filtering again changes
   * nothing.
   */
  lemma BranchOfBranch(nodes: seq<ClassNode>, links: seq<Link>, focal: string)
    ensures BranchSet(LinksAmong(links, BranchSet(links, focal)), focal) == BranchSet(links, focal)
    ensures NodesIn(NodesIn(nodes, BranchSet(links, focal)), BranchSet(links, focal)) == NodesIn(nodes, BranchSet(links, focal))
    ensures LinksAmong(LinksAmong(links, BranchSet(links, focal)), BranchSet(links, focal)) ==
            LinksAmong(links, BranchSet(links, focal))
  {
    var ids := BranchSet(links, focal);
    var sub := LinksAmong(links, ids);
    forall y ensures y in ids <==> InBranch(links, focal, y) {
      BranchIds(links, focal, Below(links, focal), Above(links, focal), y);
    }
    forall y ensures y in BranchSet(sub, focal) <==> y in ids {
      BranchIds(sub, focal, Below(sub, focal), Above(sub, focal), y);
      BranchOfBranchIds(links, focal, ids, y);
    }
    NodesInAll(NodesIn(nodes, ids), ids);
    LinksAmongAll(sub, ids);
  }

  /**
   * `getBranchOntologyData`: the focal class with everything below and above
   * it; the nodes among them and the links between two of them, both in their
   * original order.
   */
  method GetBranch(nodes: seq<ClassNode>, links: seq<Link>, focal: string)
    returns (branchNodes: seq<ClassNode>, branchLinks: seq<Link>)
    ensures branchNodes == NodesIn(nodes, BranchSet(links, focal))
    ensures branchLinks == LinksAmong(links, BranchSet(links, focal))
    ensures forall n :: n in branchNodes <==> n in nodes && InBranch(links, focal, n.id)
    ensures forall l :: l in branchLinks <==> l in links && InBranch(links, focal, l.source) && InBranch(links, focal, l.target)
    ensures |branchNodes| <= |nodes| && |branchLinks| <= |links|
    ensures (forall n :: n in nodes ==> InBranch(links, focal, n.id)) ==> branchNodes == nodes
    ensures (forall l :: l in links ==> InBranch(links, focal, l.source) && InBranch(links, focal, l.target)) ==>
              branchLinks == links
  {
    var below := CollectBelow(links, focal);
    var above := CollectAbove(links, focal);
    var ids := {focal} + below + above;
    forall x ensures x in ids <==> InBranch(links, focal, x) {
      BranchIds(links, focal, below, above, x);
    }
    branchNodes := NodesIn(nodes, ids);
    branchLinks := LinksAmong(links, ids);
    if forall n :: n in nodes ==> InBranch(links, focal, n.id) {
      NodesInAll(nodes, ids);
    }
    if forall l :: l in links ==> InBranch(links, focal, l.source) && InBranch(links, focal, l.target) {
      LinksAmongAll(links, ids);
    }
  }

  // ---------------------------------------------------------------------------
  // The diamond A -> B, A -> C, B -> D, C -> D
  // ---------------------------------------------------------------------------

  /** The branch of the bottom class "D" is the whole diamond, nodes and links. */
  lemma DiamondBranchOfBottom(nodes: seq<ClassNode>, links: seq<Link>)
    requires nodes == Hierarchy.DiamondNodes() && links == Hierarchy.DiamondLinks()
    ensures forall n :: n in nodes ==> InBranch(links, "D", n.id)
    ensures forall l :: l in links ==> InBranch(links, "D", l.source) && InBranch(links, "D", l.target)
  {
    assert links[0] == Link("A", "B") && links[2] == Link("B", "D") && links[3] == Link("C", "D");
    OneStep(links, "B", "D");
    OneStep(links, "C", "D");
    Prepend(links, "A", "B", "D");
    assert InBranch(links, "D", "A") && InBranch(links, "D", "B") && InBranch(links, "D", "C");
    assert forall n :: n in nodes ==> n.id in {"A", "B", "C", "D"};
    assert forall l :: l in links ==> l.source in {"A", "B", "C"} && l.target in {"B", "C", "D"};
  }

  /** A class that is no link's target occurs only at the start of a walk. */
  lemma OnlyAtStart(links: seq<Link>, w: seq<string>, x: string, k: nat)
    requires IsWalk(links, w) && x !in Hierarchy.Targets(links) && 1 <= k < |w|
    ensures w[k] != x
  {
    assert Link(w[k - 1], w[k]) in links;
  }

  /** Neither of two sibling classes is in the other's branch. */
  lemma DiamondSiblingsApart(links: seq<Link>)
    requires links == Hierarchy.DiamondLinks()
    ensures !InBranch(links, "B", "C") && !InBranch(links, "C", "B")
  {
    assert "A" !in Hierarchy.Targets(links);
    forall w | IsWalk(links, w) && |w| >= 2 && w[|w| - 1] in {"B", "C"}
      ensures w[0] == "A"
    {
      var k := |w| - 2;
      assert Link(w[k], w[k + 1]) in links;
      assert w[k] == "A";
      if k > 0 {
        OnlyAtStart(links, w, "A", k);
      }
    }
  }
}
