/**
 * The hierarchy builder of `createVisualization`: it reduces the class graph
 * (a link runs from a superclass to its subclass) to one display tree. The
 * first link naming a class as its target makes that link's source the
 * class's tree parent; a class no link targets is a root candidate; every
 * other link between classes shown in the tree is a secondary link.
 */
module Hierarchy {
  import opened Optional
  import opened OntologyGraph

  /** The id of the synthetic root introduced when several classes have no parent. */
  const VirtualRootId: string := "OntologyRoot"

  /** The tree's root: the virtual root over the candidates, or one class. */
  datatype Root = VirtualRoot(candidates: seq<string>) | ClassRoot(id: string)

  /** What the builder records on `nodeMap` and beside it. */
  datatype Tree = Tree(
    root: Root,
    relationships: seq<Link>,            // `allRelationships`
    parents: map<string, seq<string>>,   // `nodeMap[id].parents`
    treeParent: map<string, string>,     // `nodeMap[id].treePath[0]`
    children: map<string, seq<string>>,  // `nodeMap[id].children`, by id
    secondary: seq<Link>)                // the links added with `primary: false`

  function NodeIds(nodes: seq<ClassNode>): set<string> {
    set n | n in nodes :: n.id
  }

  // ---------------------------------------------------------------------------
  // First pass: the links between known classes and every class's parents
  // ---------------------------------------------------------------------------

  /** The links whose both ends are classes, in link order. */
  function Kept(links: seq<Link>, ids: set<string>): seq<Link> {
    if links == [] then []
    else
      var l := links[|links| - 1];
      Kept(links[..|links| - 1], ids) + (if l.source in ids && l.target in ids then [l] else [])
  }

  lemma {:induction false} KeptSpec(links: seq<Link>, ids: set<string>, l: Link)
    ensures l in Kept(links, ids) <==> l in links && l.source in ids && l.target in ids
  {
    if links != [] {
      var init := links[..|links| - 1];
      KeptSpec(init, ids, l);
      assert links == init + [links[|links| - 1]];
    }
  }

  function Targets(rel: seq<Link>): set<string> {
    set l | l in rel :: l.target
  }

  /** The sources of the links naming `x` as their target, in link order. */
  function ParentsOf(rel: seq<Link>, x: string): seq<string> {
    if rel == [] then []
    else
      var l := rel[|rel| - 1];
      ParentsOf(rel[..|rel| - 1], x) + (if l.target == x then [l.source] else [])
  }

  function ParentMap(ids: set<string>, rel: seq<Link>): map<string, seq<string>> {
    map id | id in ids :: ParentsOf(rel, id)
  }

  lemma {:induction false} ParentsOfSpec(rel: seq<Link>, x: string, p: string)
    ensures p in ParentsOf(rel, x) <==> Link(p, x) in rel
  {
    if rel != [] {
      var init := rel[..|rel| - 1];
      ParentsOfSpec(init, x, p);
      assert rel == init + [rel[|rel| - 1]];
    }
  }

  // ---------------------------------------------------------------------------
  // Second pass: the tree parent of each class and the tree children
  // ---------------------------------------------------------------------------

  /** `treePath`: a class's tree parent is the source of the first link targeting it. */
  function PrimaryParents(rel: seq<Link>): map<string, string> {
    if rel == [] then map[]
    else
      var l := rel[|rel| - 1];
      var m := PrimaryParents(rel[..|rel| - 1]);
      if l.target in m then m else m[l.target := l.source]
  }

  /** The first link of `rel` naming `x` as its target is at index `i`. */
  predicate FirstTargeting(rel: seq<Link>, x: string, i: int) {
    0 <= i < |rel| && rel[i].target == x && forall j :: 0 <= j < i ==> rel[j].target != x
  }

  lemma {:induction false} PrimaryParentsSpec(rel: seq<Link>, x: string)
    ensures x in PrimaryParents(rel) <==> x in Targets(rel)
    ensures x in PrimaryParents(rel) ==>
              exists i :: FirstTargeting(rel, x, i) && PrimaryParents(rel)[x] == rel[i].source
  {
    if rel != [] {
      var init := rel[..|rel| - 1];
      var l := rel[|rel| - 1];
      PrimaryParentsSpec(init, x);
      assert rel == init + [l];
      assert Targets(rel) == Targets(init) + {l.target};
      if x in PrimaryParents(init) {
        var i :| FirstTargeting(init, x, i) && PrimaryParents(init)[x] == init[i].source;
        assert FirstTargeting(rel, x, i);
      } else if l.target == x {
        assert forall j :: 0 <= j < |init| ==> init[j].target != x by {
          forall j | 0 <= j < |init| ensures init[j].target != x {
            assert init[j] in init;
          }
        }
        assert FirstTargeting(rel, x, |init|);
      }
    }
  }

  /** `nodeMap[s].children`: targets of the links that made `s` their tree parent, in link order. */
  function ChildrenOf(rel: seq<Link>, s: string): seq<string> {
    if rel == [] then []
    else
      var l := rel[|rel| - 1];
      var init := rel[..|rel| - 1];
      ChildrenOf(init, s) + (if l.source == s && l.target !in PrimaryParents(init) then [l.target] else [])
  }

  function ChildMap(ids: set<string>, rel: seq<Link>): map<string, seq<string>> {
    map id | id in ids :: ChildrenOf(rel, id)
  }

  /** A class is a tree child of `s` exactly when `s` is its tree parent; none is listed twice. */
  lemma {:induction false} ChildrenOfSpec(rel: seq<Link>, s: string)
    ensures forall c :: c in ChildrenOf(rel, s) <==> c in PrimaryParents(rel) && PrimaryParents(rel)[c] == s
    ensures forall i, j :: 0 <= i < j < |ChildrenOf(rel, s)| ==> ChildrenOf(rel, s)[i] != ChildrenOf(rel, s)[j]
  {
    if rel != [] {
      var init := rel[..|rel| - 1];
      ChildrenOfSpec(init, s);
    }
  }

  // ---------------------------------------------------------------------------
  // Roots and tree membership
  // ---------------------------------------------------------------------------

  /** `rootNodes`: ids of the classes no link targets, in node order. */
  function Candidates(nodes: seq<ClassNode>, targets: set<string>): seq<string> {
    if nodes == [] then []
    else
      var n := nodes[|nodes| - 1];
      Candidates(nodes[..|nodes| - 1], targets) + (if n.id !in targets then [n.id] else [])
  }

  lemma {:induction false} CandidatesSpec(nodes: seq<ClassNode>, targets: set<string>, c: string)
    ensures c in Candidates(nodes, targets) <==> c in NodeIds(nodes) && c !in targets
  {
    if nodes != [] {
      var init := nodes[..|nodes| - 1];
      CandidatesSpec(init, targets, c);
      assert nodes == init + [nodes[|nodes| - 1]];
      assert NodeIds(nodes) == NodeIds(init) + {nodes[|nodes| - 1].id};
    }
  }

  /** The candidates of a concatenation are those of each part, in order. */
  lemma {:induction false} CandidatesAppend(a: seq<ClassNode>, b: seq<ClassNode>, targets: set<string>)
    ensures Candidates(a + b, targets) == Candidates(a, targets) + Candidates(b, targets)
    decreases |b|
  {
    if b != [] {
      var init := b[..|b| - 1];
      CandidatesAppend(a, init, targets);
      assert (a + b)[..|a + b| - 1] == a + init;
      assert (a + b)[|a + b| - 1] == b[|b| - 1];
      var tail := if b[|b| - 1].id !in targets then [b[|b| - 1].id] else [];
      assert Candidates(b, targets) == Candidates(init, targets) + tail;
    } else {
      assert a + b == a;
    }
  }

  /** A single class is a candidate exactly when no link targets it. */
  lemma CandidatesOne(n: ClassNode, targets: set<string>)
    ensures Candidates([n], targets) == if n.id !in targets then [n.id] else []
  {
    assert [n][..0] == [];
    assert Candidates([n][..0], targets) == [];
  }

  /** With distinct class ids, every candidate is listed once. */
  lemma {:induction false} CandidatesOnce(nodes: seq<ClassNode>, targets: set<string>)
    requires forall i, j :: 0 <= i < j < |nodes| ==> nodes[i].id != nodes[j].id
    ensures var cs := Candidates(nodes, targets);
            forall i, j :: 0 <= i < j < |cs| ==> cs[i] != cs[j]
    decreases |nodes|
  {
    if nodes != [] {
      var init, n := nodes[..|nodes| - 1], nodes[|nodes| - 1];
      CandidatesOnce(init, targets);
      CandidatesSpec(init, targets, n.id);
    }
  }

  /** Several candidates: the virtual root; one: that class; none: the first class; no classes: an error. */
  function RootOf(nodes: seq<ClassNode>, candidates: seq<string>): Option<Root> {
    if |candidates| > 1 then Some(VirtualRoot(candidates))
    else if |candidates| == 1 then Some(ClassRoot(candidates[0]))
    else if nodes != [] then Some(ClassRoot(nodes[0].id))
    else None
  }

  /** The classes directly under the root of the tree. */
  function Tops(root: Root): set<string> {
    match root
    case VirtualRoot(cs) => set c | c in cs
    case ClassRoot(id) => {id}
  }

  /**
   * The classes `treeData.descendants()` lists: those whose chain of tree
   * parents reaches a top within `fuel` steps.
   */
  predicate InTree(primary: map<string, string>, tops: set<string>, x: string, fuel: nat)
    decreases fuel
  {
    x in tops || (fuel > 0 && x in primary && InTree(primary, tops, primary[x], fuel - 1))
  }

  /** `isInPrimaryTree` fails and both ends are drawn: the link is secondary. */
  predicate IsSecondary(primary: map<string, string>, tops: set<string>, fuel: nat, l: Link) {
    InTree(primary, tops, l.source, fuel) && InTree(primary, tops, l.target, fuel) &&
    !(l.target in primary && primary[l.target] == l.source)
  }

  function SecondaryOf(rel: seq<Link>, primary: map<string, string>, tops: set<string>, fuel: nat): seq<Link> {
    if rel == [] then []
    else
      var l := rel[|rel| - 1];
      SecondaryOf(rel[..|rel| - 1], primary, tops, fuel) + (if IsSecondary(primary, tops, fuel, l) then [l] else [])
  }

  lemma {:induction false} SecondaryOfSpec(rel: seq<Link>, primary: map<string, string>, tops: set<string>, fuel: nat, l: Link)
    ensures l in SecondaryOf(rel, primary, tops, fuel) <==> l in rel && IsSecondary(primary, tops, fuel, l)
  {
    if rel != [] {
      var init := rel[..|rel| - 1];
      SecondaryOfSpec(init, primary, tops, fuel, l);
      assert rel == init + [rel[|rel| - 1]];
    }
  }

  /** The whole hierarchy for a non-empty class list. */
  function TreeOf(nodes: seq<ClassNode>, links: seq<Link>): Option<Tree> {
    var ids := NodeIds(nodes);
    var rel := Kept(links, ids);
    var primary := PrimaryParents(rel);
    var root := RootOf(nodes, Candidates(nodes, Targets(rel)));
    if root.None? then None
    else
      Some(Tree(root.value, rel, ParentMap(ids, rel), primary, ChildMap(ids, rel),
                SecondaryOf(rel, primary, Tops(root.value), |nodes|)))
  }

  // ---------------------------------------------------------------------------
  // The builder
  // ---------------------------------------------------------------------------

  lemma KeptStep(links: seq<Link>, ids: set<string>, i: int)
    requires 0 <= i < |links|
    ensures Kept(links[..i + 1], ids) ==
            Kept(links[..i], ids) + (if links[i].source in ids && links[i].target in ids then [links[i]] else [])
  {
    assert links[..i + 1][..i] == links[..i];
  }

  lemma FirstPassStep(ids: set<string>, rel: seq<Link>, l: Link)
    requires l.target in ids
    ensures ParentMap(ids, rel + [l]) == ParentMap(ids, rel)[l.target := ParentMap(ids, rel)[l.target] + [l.source]]
    ensures Targets(rel + [l]) == Targets(rel) + {l.target}
  {
    assert (rel + [l])[..|rel|] == rel;
    var before, after := ParentMap(ids, rel), ParentMap(ids, rel + [l]);
    forall k | k in ids ensures after[k] == before[l.target := before[l.target] + [l.source]][k] {
    }
  }

  lemma SecondPassStep(ids: set<string>, rel: seq<Link>, l: Link)
    requires l.source in ids
    ensures PrimaryParents(rel + [l]) ==
            if l.target in PrimaryParents(rel) then PrimaryParents(rel) else PrimaryParents(rel)[l.target := l.source]
    ensures ChildMap(ids, rel + [l]) ==
            if l.target in PrimaryParents(rel) then ChildMap(ids, rel)
            else ChildMap(ids, rel)[l.source := ChildMap(ids, rel)[l.source] + [l.target]]
  {
    assert (rel + [l])[..|rel|] == rel;
    var before, after := ChildMap(ids, rel), ChildMap(ids, rel + [l]);
    var stepped := if l.target in PrimaryParents(rel) then before else before[l.source := before[l.source] + [l.target]];
    forall k | k in ids ensures after[k] == stepped[k] {
    }
  }

  /** First pass: every link between classes, and the parents it records. */
  method FirstPass(links: seq<Link>, ids: set<string>)
    returns (relationships: seq<Link>, parents: map<string, seq<string>>, childNodes: set<string>)
    ensures relationships == Kept(links, ids)
    ensures parents == ParentMap(ids, relationships)
    ensures childNodes == Targets(relationships)
  {
    parents := map id | id in ids :: [];
    relationships := [];
    childNodes := {};
    assert parents == ParentMap(ids, relationships);
    for i := 0 to |links|
      invariant relationships == Kept(links[..i], ids)
      invariant childNodes == Targets(relationships)
      invariant parents == ParentMap(ids, relationships)
    {
      var l := links[i];
      KeptStep(links, ids, i);
      if l.source in ids && l.target in ids {
        FirstPassStep(ids, relationships, l);
        relationships := relationships + [l];
        parents := parents[l.target := parents[l.target] + [l.source]];
        childNodes := childNodes + {l.target};
      }
    }
    assert links[..|links|] == links;
  }

  /** Second pass: the first link targeting a class makes its source the tree parent. */
  method SecondPass(links: seq<Link>, ids: set<string>)
    returns (treeParent: map<string, string>, children: map<string, seq<string>>)
    ensures treeParent == PrimaryParents(Kept(links, ids))
    ensures children == ChildMap(ids, Kept(links, ids))
  {
    children := map id | id in ids :: [];
    treeParent := map[];
    ghost var done: seq<Link> := [];
    assert children == ChildMap(ids, done);
    for i := 0 to |links|
      invariant done == Kept(links[..i], ids)
      invariant treeParent == PrimaryParents(done)
      invariant children == ChildMap(ids, done)
    {
      var l := links[i];
      KeptStep(links, ids, i);
      if l.source in ids && l.target in ids {
        SecondPassStep(ids, done, l);
        if l.target !in treeParent {
          children := children[l.source := children[l.source] + [l.target]];
          treeParent := treeParent[l.target := l.source];
        }
        done := done + [l];
      }
    }
    assert links[..|links|] == links;
  }

  /** `rootNodes`: the classes no kept link targets. */
  method RootCandidates(nodes: seq<ClassNode>, childNodes: set<string>) returns (rootNodes: seq<string>)
    ensures rootNodes == Candidates(nodes, childNodes)
  {
    rootNodes := [];
    for i := 0 to |nodes|
      invariant rootNodes == Candidates(nodes[..i], childNodes)
    {
      assert nodes[..i + 1][..i] == nodes[..i];
      if nodes[i].id !in childNodes {
        rootNodes := rootNodes + [nodes[i].id];
      }
    }
    assert nodes[..|nodes|] == nodes;
  }

  /** The links drawn as secondary: both ends in the tree, not the tree-parent link. */
  method SecondaryPass(relationships: seq<Link>, treeParent: map<string, string>, tops: set<string>, fuel: nat)
    returns (secondary: seq<Link>)
    ensures secondary == SecondaryOf(relationships, treeParent, tops, fuel)
  {
    secondary := [];
    for i := 0 to |relationships|
      invariant secondary == SecondaryOf(relationships[..i], treeParent, tops, fuel)
    {
      var rel := relationships[i];
      assert relationships[..i + 1][..i] == relationships[..i];
      if InTree(treeParent, tops, rel.source, fuel) && InTree(treeParent, tops, rel.target, fuel) {
        var isInPrimaryTree := rel.target in treeParent && treeParent[rel.target] == rel.source;
        if !isInPrimaryTree {
          secondary := secondary + [rel];
        }
      }
    }
    assert relationships[..|relationships|] == relationships;
  }

  /**
   * The two passes over the links, the root choice and the secondary links
   * of `createVisualization`; `None` is the `TypeError` an empty class list
   * raises when the first class is read.
   */
  method BuildHierarchy(nodes: seq<ClassNode>, links: seq<Link>) returns (tree: Option<Tree>)
    ensures tree == TreeOf(nodes, links)
    ensures tree.None? <==> nodes == []
  {
    var ids := NodeIds(nodes);
    var relationships, parents, childNodes := FirstPass(links, ids);
    var treeParent, children := SecondPass(links, ids);
    var rootNodes := RootCandidates(nodes, childNodes);

    var root: Root;
    if |rootNodes| > 1 {
      root := VirtualRoot(rootNodes);
    } else if |rootNodes| == 1 {
      root := ClassRoot(rootNodes[0]);
    } else if nodes != [] {
      root := ClassRoot(nodes[0].id);
    } else {
      return None;
    }

    var secondary := SecondaryPass(relationships, treeParent, Tops(root), |nodes|);
    tree := Some(Tree(root, relationships, parents, treeParent, children, secondary));
  }

  // ---------------------------------------------------------------------------
  // What the hierarchy promises
  // ---------------------------------------------------------------------------

  /** The builder fails exactly on an empty class list. */
  lemma TreeOfDefined(nodes: seq<ClassNode>, links: seq<Link>)
    ensures TreeOf(nodes, links).Some? <==> nodes != []
  {
    if nodes == [] {
      assert Candidates(nodes, Targets(Kept(links, NodeIds(nodes)))) == [];
    }
  }

  /** A class is a root candidate exactly when it has no tree parent. */
  lemma CandidateIffParentless(nodes: seq<ClassNode>, links: seq<Link>, c: string)
    ensures var rel := Kept(links, NodeIds(nodes));
            c in Candidates(nodes, Targets(rel)) <==> c in NodeIds(nodes) && c !in PrimaryParents(rel)
  {
    var rel := Kept(links, NodeIds(nodes));
    CandidatesSpec(nodes, Targets(rel), c);
    PrimaryParentsSpec(rel, c);
  }

  /**
   * The root: the virtual root over all parentless classes when there are
   * several, the only one when there is one, and the first class otherwise.
   */
  lemma RootChoice(nodes: seq<ClassNode>, links: seq<Link>)
    requires nodes != []
    ensures var t := TreeOf(nodes, links).value;
            var ids := NodeIds(nodes);
            var parentless := set c | c in ids && c !in t.treeParent;
            match t.root
            case VirtualRoot(cs) =>
              |cs| > 1 && (set c | c in cs) == parentless &&
              cs == Candidates(nodes, Targets(Kept(links, ids)))
            case ClassRoot(r) =>
              (parentless == {r}) || (parentless == {} && r == nodes[0].id)
  {
    var ids := NodeIds(nodes);
    var rel := Kept(links, ids);
    var cands := Candidates(nodes, Targets(rel));
    var t := TreeOf(nodes, links).value;
    assert t.root == RootOf(nodes, cands).value && t.treeParent == PrimaryParents(rel);
    var parentless := set c | c in ids && c !in t.treeParent;
    forall c ensures c in cands <==> c in parentless {
      CandidateIffParentless(nodes, links, c);
    }
    RootOfParentless(nodes, cands, parentless);
  }

  /** The root choice over candidates that are exactly the parentless classes. */
  lemma RootOfParentless(nodes: seq<ClassNode>, cands: seq<string>, parentless: set<string>)
    requires nodes != []
    requires forall c :: c in cands <==> c in parentless
    ensures match RootOf(nodes, cands).value
            case VirtualRoot(cs) => |cs| > 1 && (set c | c in cs) == parentless && cs == cands
            case ClassRoot(r) => (parentless == {r}) || (parentless == {} && r == nodes[0].id)
  {
    if |cands| == 1 {
      assert forall c :: c in cands <==> c == cands[0];
      assert parentless == {cands[0]};
    } else if |cands| == 0 {
      assert parentless == {};
    }
  }

  /** A class's tree parent is the source of the first link between classes that targets it. */
  lemma TreeParentIsFirstLink(nodes: seq<ClassNode>, links: seq<Link>, x: string)
    requires nodes != []
    ensures var t := TreeOf(nodes, links).value;
            (x in t.treeParent <==> exists l :: l in t.relationships && l.target == x) &&
            (x in t.treeParent ==> exists i :: FirstTargeting(t.relationships, x, i) &&
                                               t.treeParent[x] == t.relationships[i].source)
  {
    var rel := Kept(links, NodeIds(nodes));
    PrimaryParentsSpec(rel, x);
    assert x in Targets(rel) <==> exists l :: l in rel && l.target == x;
  }

  /** A class's tree children are the classes it is tree parent of, each once. */
  lemma ChildrenAreTreeChildren(nodes: seq<ClassNode>, links: seq<Link>, s: string)
    requires nodes != [] && s in NodeIds(nodes)
    ensures var t := TreeOf(nodes, links).value;
            s in t.children &&
            (forall c :: c in t.children[s] <==> c in t.treeParent && t.treeParent[c] == s) &&
            (forall i, j :: 0 <= i < j < |t.children[s]| ==> t.children[s][i] != t.children[s][j])
  {
    ChildrenOfSpec(Kept(links, NodeIds(nodes)), s);
  }

  /** A class's recorded parents are exactly the sources of the links between classes that target it. */
  lemma ParentsRecorded(nodes: seq<ClassNode>, links: seq<Link>, x: string, p: string)
    requires nodes != [] && x in NodeIds(nodes)
    ensures var t := TreeOf(nodes, links).value;
            x in t.parents && (p in t.parents[x] <==> Link(p, x) in links && p in NodeIds(nodes))
  {
    ParentsOfSpec(Kept(links, NodeIds(nodes)), x, p);
    KeptSpec(links, NodeIds(nodes), Link(p, x));
  }

  /**
   * No link drawn in the tree is lost: a link between classes both shown in
   * the tree is either the tree link to its target's parent or secondary,
   * never both; and every secondary link is such a link.
   */
  lemma EdgePartition(nodes: seq<ClassNode>, links: seq<Link>, l: Link)
    requires nodes != []
    ensures var t := TreeOf(nodes, links).value;
            var tops := Tops(t.root);
            var shown := l in t.relationships && InTree(t.treeParent, tops, l.source, |nodes|) &&
                         InTree(t.treeParent, tops, l.target, |nodes|);
            var primary := l.source in t.children && l.target in t.children[l.source];
            (l in t.secondary ==> shown && !primary) &&
            (shown ==> primary || l in t.secondary)
  {
    var ids := NodeIds(nodes);
    var rel := Kept(links, ids);
    var t := TreeOf(nodes, links).value;
    var tops := Tops(t.root);
    assert t.relationships == rel && t.treeParent == PrimaryParents(rel) && t.children == ChildMap(ids, rel);
    assert t.secondary == SecondaryOf(rel, t.treeParent, tops, |nodes|);
    SecondaryOfSpec(rel, t.treeParent, tops, |nodes|, l);
    ChildrenOfSpec(rel, l.source);
    PrimaryParentsSpec(rel, l.target);
    KeptSpec(links, ids, l);
    if l in rel {
      assert l.target in Targets(rel);
      assert l.source in t.children;
    }
  }

  function ClassNamed(id: string): ClassNode {
    ClassNode(id, id, [], [], map[])
  }

  function DiamondNodes(): seq<ClassNode> {
    [ClassNamed("A"), ClassNamed("B"), ClassNamed("C"), ClassNamed("D")]
  }

  function DiamondLinks(): seq<Link> {
    [Link("A", "B"), Link("A", "C"), Link("B", "D"), Link("C", "D")]
  }

  lemma DiamondPrefixes()
    ensures DiamondLinks()[..3] == [Link("A", "B"), Link("A", "C"), Link("B", "D")]
    ensures DiamondLinks()[..3][..2] == [Link("A", "B"), Link("A", "C")]
    ensures DiamondLinks()[..3][..2][..1] == [Link("A", "B")]
    ensures DiamondLinks()[..3][..2][..1][..0] == []
  {
  }

  lemma DiamondIds()
    ensures NodeIds(DiamondNodes()) == {"A", "B", "C", "D"}
  {
    var nodes := DiamondNodes();
    assert nodes[0].id == "A" && nodes[1].id == "B" && nodes[2].id == "C" && nodes[3].id == "D";
  }

  lemma DiamondKept()
    ensures Kept(DiamondLinks(), NodeIds(DiamondNodes())) == DiamondLinks()
  {
    DiamondPrefixes();
    DiamondIds();
    var links: seq<Link>, ids: set<string> := DiamondLinks(), {"A", "B", "C", "D"};
    assert Kept(links[..3][..2][..1], ids) == links[..3][..2][..1];
    assert Kept(links[..3][..2], ids) == links[..3][..2];
    assert Kept(links[..3], ids) == links[..3];
  }

  lemma DiamondPrimary()
    ensures PrimaryParents(DiamondLinks()) == map["B" := "A", "C" := "A", "D" := "B"]
  {
    DiamondPrefixes();
    var links := DiamondLinks();
    assert PrimaryParents(links[..3][..2][..1]) == map["B" := "A"];
    assert PrimaryParents(links[..3][..2]) == map["B" := "A", "C" := "A"];
    assert PrimaryParents(links[..3]) == map["B" := "A", "C" := "A", "D" := "B"];
  }

  lemma DiamondChildren()
    ensures ChildrenOf(DiamondLinks(), "A") == ["B", "C"]
  {
    DiamondPrefixes();
    var links := DiamondLinks();
    assert PrimaryParents(links[..3][..2][..1][..0]) == map[];
    assert PrimaryParents(links[..3][..2][..1]) == map["B" := "A"];
    assert PrimaryParents(links[..3][..2]) == map["B" := "A", "C" := "A"];
    assert ChildrenOf(links[..3][..2][..1], "A") == ["B"];
    assert ChildrenOf(links[..3][..2], "A") == ["B", "C"];
    assert ChildrenOf(links[..3], "A") == ["B", "C"];
  }

  lemma DiamondSecondary()
    ensures var primary := map["B" := "A", "C" := "A", "D" := "B"];
            SecondaryOf(DiamondLinks(), primary, {"A"}, 4) == [Link("C", "D")]
  {
    DiamondPrefixes();
    var links := DiamondLinks();
    var primary := map["B" := "A", "C" := "A", "D" := "B"];
    var tops: set<string> := {"A"};
    assert InTree(primary, tops, "A", 4);
    assert InTree(primary, tops, "A", 3) && InTree(primary, tops, "B", 4) && InTree(primary, tops, "C", 4);
    assert InTree(primary, tops, "A", 2) && InTree(primary, tops, "B", 3) && InTree(primary, tops, "D", 4);
    assert SecondaryOf(links[..3][..2][..1], primary, tops, 4) == [];
    assert SecondaryOf(links[..3][..2], primary, tops, 4) == [];
    assert SecondaryOf(links[..3], primary, tops, 4) == [];
  }

  lemma DiamondTargets()
    ensures Targets(DiamondLinks()) == {"B", "C", "D"}
  {
    var links := DiamondLinks();
    assert links[0] in links && links[1] in links && links[2] in links;
    forall x | x in Targets(links) ensures x in {"B", "C", "D"} {
      var l :| l in links && l.target == x;
    }
  }

  lemma DiamondCandidates()
    ensures Candidates(DiamondNodes(), {"B", "C", "D"}) == ["A"]
  {
    var nodes := DiamondNodes();
    assert nodes[..3] == [ClassNamed("A"), ClassNamed("B"), ClassNamed("C")];
    assert nodes[..3][..2] == [ClassNamed("A"), ClassNamed("B")];
    assert nodes[..3][..2][..1] == [ClassNamed("A")];
    assert nodes[..3][..2][..1][..0] == [];
    var targets: set<string> := {"B", "C", "D"};
    assert Candidates(nodes[..3][..2][..1], targets) == ["A"];
    assert Candidates(nodes[..3][..2], targets) == ["A"];
    assert Candidates(nodes[..3], targets) == ["A"];
  }

  /** The parts of a built hierarchy, one by one. */
  lemma TreeOfParts(nodes: seq<ClassNode>, links: seq<Link>)
    requires nodes != []
    ensures var ids := NodeIds(nodes);
            var rel := Kept(links, ids);
            var t := TreeOf(nodes, links).value;
            t.root == RootOf(nodes, Candidates(nodes, Targets(rel))).value &&
            t.treeParent == PrimaryParents(rel) &&
            t.secondary == SecondaryOf(rel, PrimaryParents(rel), Tops(t.root), |nodes|) &&
            forall s :: s in ids ==> s in t.children && t.children[s] == ChildrenOf(rel, s)
  {
    TreeOfDefined(nodes, links);
  }

  /**
   * D is a subclass of B and of C, both subclasses of A: A is the root with
   * children B and C, D hangs under B (the first link naming it), and the
   * link from C to D is the one secondary link.
   */
  lemma DiamondExample(nodes: seq<ClassNode>, links: seq<Link>)
    requires nodes == DiamondNodes() && links == DiamondLinks()
    ensures TreeOf(nodes, links).Some?
    ensures var t := TreeOf(nodes, links).value;
            t.root == ClassRoot("A") && "A" in t.children && t.children["A"] == ["B", "C"] &&
            "D" in t.treeParent &&
            t.treeParent["D"] == "B" && t.secondary == [Link("C", "D")]
  {
    var ids := NodeIds(nodes);
    assert "A" in ids && |nodes| == 4;
    TreeOfParts(nodes, links);
    DiamondKept();
    DiamondPrimary();
    DiamondChildren();
    DiamondSecondary();
    DiamondTargets();
    DiamondCandidates();
  }

}
