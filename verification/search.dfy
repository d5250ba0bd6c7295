/**
 * `findClassesByQuery`: the classes of the displayed tree whose name, id or
 * any label contains the query once lower-cased. Lower-casing is a parameter.
 */
module Search {
  import opened OntologyGraph
  import Hierarchy

  /** `q` occurs in `s` starting at position `i`. */
  predicate OccursAt(s: string, q: string, i: nat) {
    i + |q| <= |s| && s[i..i + |q|] == q
  }

  /** `s.includes(q)`: `q` occurs in `s` at some position. */
  predicate Includes(s: string, q: string) {
    exists i: nat | i <= |s| :: OccursAt(s, q, i)
  }

  /** The node matches: not the virtual root, and some of its texts include the query. */
  predicate Matches(n: ClassNode, query: string, lower: string -> string) {
    n.id != Hierarchy.VirtualRootId &&
    ((n.name != [] && Includes(lower(n.name), query)) ||
     (n.id != [] && Includes(lower(n.id), query)) ||
     exists k :: k in n.labels && Includes(lower(n.labels[k]), query))
  }

  /** The matching nodes, in tree order. */
  function FindClassesByQuery(nodes: seq<ClassNode>, query: string, lower: string -> string): (r: seq<ClassNode>)
    ensures |r| <= |nodes|
    ensures forall n :: n in r <==> n in nodes && Matches(n, query, lower)
  {
    if nodes == [] then []
    else
      var n := nodes[|nodes| - 1];
      FindClassesByQuery(nodes[..|nodes| - 1], query, lower) + (if Matches(n, query, lower) then [n] else [])
  }

  /** Searching a concatenation searches each part: results keep the tree order. */
  lemma {:induction false} FindAppend(a: seq<ClassNode>, b: seq<ClassNode>, query: string, lower: string -> string)
    ensures FindClassesByQuery(a + b, query, lower) ==
            FindClassesByQuery(a, query, lower) + FindClassesByQuery(b, query, lower)
    decreases |b|
  {
    if b != [] {
      var init := b[..|b| - 1];
      FindAppend(a, init, query, lower);
      assert (a + b)[..|a + b| - 1] == a + init;
      assert (a + b)[|a + b| - 1] == b[|b| - 1];
    } else {
      assert a + b == a;
    }
  }

  /** A single node is a result exactly when it matches. */
  lemma FindOne(n: ClassNode, query: string, lower: string -> string)
    ensures FindClassesByQuery([n], query, lower) == if Matches(n, query, lower) then [n] else []
  {
    assert [n][..0] == [];
    assert FindClassesByQuery([n][..0], query, lower) == [];
  }

  /** The virtual root is never a search result. */
  lemma VirtualRootNotFound(nodes: seq<ClassNode>, query: string, lower: string -> string, n: ClassNode)
    requires n in FindClassesByQuery(nodes, query, lower)
    ensures n.id != Hierarchy.VirtualRootId && n in nodes
  {
  }

  lemma IncludesEmpty(s: string)
    ensures Includes(s, [])
  {
    assert OccursAt(s, [], 0);
  }

  /** An occurrence of `q2` holds an occurrence of any part `q1` of it. */
  lemma IncludesTransitive(s: string, q2: string, q1: string)
    requires Includes(s, q2) && Includes(q2, q1)
    ensures Includes(s, q1)
  {
    var i: nat :| i <= |s| && OccursAt(s, q2, i);
    var j: nat :| j <= |q2| && OccursAt(q2, q1, j);
    assert i + |q2| <= |s| && s[i..i + |q2|] == q2;
    assert j + |q1| <= |q2| && q2[j..j + |q1|] == q1;
    var a, b := s[i + j..i + j + |q1|], s[i..i + |q2|][j..j + |q1|];
    forall k | 0 <= k < |q1| ensures a[k] == b[k] {
      assert b[k] == s[i..i + |q2|][j + k];
    }
    assert a == b;
    assert OccursAt(s, q1, i + j);
  }

  /**
   * The empty query finds every node but the virtual root that has a
   * non-empty name or id, or any label.
   */
  lemma EmptyQuery(nodes: seq<ClassNode>, lower: string -> string, n: ClassNode)
    ensures n in FindClassesByQuery(nodes, [], lower) <==>
              n in nodes && n.id != Hierarchy.VirtualRootId && (n.name != [] || n.id != [] || n.labels != map[])
  {
    IncludesEmpty(lower(n.name));
    IncludesEmpty(lower(n.id));
    if n.labels != map[] {
      var k :| k in n.labels;
      IncludesEmpty(lower(n.labels[k]));
    }
  }

  /** Extending the query never adds results: a node found by `q2` is found by any part of it. */
  lemma NarrowingQuery(nodes: seq<ClassNode>, q1: string, q2: string, lower: string -> string, n: ClassNode)
    requires Includes(q2, q1)
    requires n in FindClassesByQuery(nodes, q2, lower)
    ensures n in FindClassesByQuery(nodes, q1, lower)
  {
    if n.name != [] && Includes(lower(n.name), q2) {
      IncludesTransitive(lower(n.name), q2, q1);
    } else if n.id != [] && Includes(lower(n.id), q2) {
      IncludesTransitive(lower(n.id), q2, q1);
    } else {
      var k :| k in n.labels && Includes(lower(n.labels[k]), q2);
      IncludesTransitive(lower(n.labels[k]), q2, q1);
    }
  }
}
