/**
 * The ontology graph builder (`extractOntologyData`) and the label choice it
 * shares with `getLocalizedLabel`. Class records become nodes keyed by local
 * name in first-insertion order (a JavaScript `Map`), and every declared
 * superclass that names a built node becomes a `subClassOf` link from the
 * superclass (source) to the class (target).
 */
module OntologyGraph {
  import opened Optional
  import opened Identifiers
  import opened Markup

  /** A graph node: the `{id, name, comments, superClasses, labels}` object. */
  datatype ClassNode = ClassNode(
    id: string,
    name: string,
    comments: seq<string>,
    superClasses: seq<string>,
    labels: map<string, string>)

  /** A `subClassOf` link; its `type` field is always the same and is not kept. */
  datatype Link = Link(source: string, target: string)

  /** The language an untagged label and a missing language preference stand for. */
  const Fallback: string := "en"

  /** `window.currentLanguage || 'en'`. */
  function ActiveLanguage(lang: string): string {
    if lang == [] then Fallback else lang
  }

  /** `label.getAttribute('xml:lang') || 'en'`. */
  function LabelLanguage(e: LabelEntry): string {
    if Truthy(e.lang) then e.lang.value else Fallback
  }

  // ---------------------------------------------------------------------------
  // Per-record extraction: labels, comments, superclasses
  // ---------------------------------------------------------------------------

  /** The label map the `forEach` over `rdfs:label` leaves after the entries `es`. */
  function LabelsOf(es: seq<LabelEntry>): map<string, string> {
    if es == [] then map[]
    else
      var m := LabelsOf(es[..|es| - 1]);
      var e := es[|es| - 1];
      var text := Trim(e.text);
      if text != [] then m[LabelLanguage(e) := text] else m
  }

  /** Entry `i` carries a non-blank label for language `k`. */
  predicate Tags(es: seq<LabelEntry>, i: nat, k: string)
    requires i < |es|
  {
    LabelLanguage(es[i]) == k && Trim(es[i].text) != []
  }

  /** One more entry: it sets its language's label when its trimmed text is not blank. */
  lemma LabelsOfStep(es: seq<LabelEntry>, k: string)
    requires es != []
    ensures var m, m' := LabelsOf(es[..|es| - 1]), LabelsOf(es);
            (Tags(es, |es| - 1, k) ==> k in m' && m'[k] == Trim(es[|es| - 1].text)) &&
            (!Tags(es, |es| - 1, k) ==> (k in m' <==> k in m) && (k in m ==> m'[k] == m[k]))
  {
  }

  /** A language has a label exactly when some entry tags it with non-blank text. */
  lemma {:induction false} LabelsOfKeys(es: seq<LabelEntry>, k: string)
    ensures k in LabelsOf(es) <==> exists i :: 0 <= i < |es| && Tags(es, i, k)
  {
    if es != [] {
      var init := es[..|es| - 1];
      var last := |es| - 1;
      LabelsOfKeys(init, k);
      LabelsOfStep(es, k);
      assert forall i :: 0 <= i < |init| ==> (Tags(init, i, k) <==> Tags(es, i, k));
      if !Tags(es, last, k) {
        if exists i :: 0 <= i < |es| && Tags(es, i, k) {
          var i :| 0 <= i < |es| && Tags(es, i, k);
          assert i < |init| && Tags(init, i, k);
        }
      }
    }
  }

  /** Entry `i` is the last one tagging language `k`. */
  predicate LastTagging(es: seq<LabelEntry>, i: nat, k: string) {
    i < |es| && Tags(es, i, k) && forall j :: i < j < |es| ==> !Tags(es, j, k)
  }

  /** The label of a language is the trimmed text of the LAST entry that tags it. */
  lemma {:induction false} LabelsOfValue(es: seq<LabelEntry>, k: string)
    requires k in LabelsOf(es)
    ensures exists i: nat :: LastTagging(es, i, k) && LabelsOf(es)[k] == Trim(es[i].text)
  {
    var init := es[..|es| - 1];
    var last := |es| - 1;
    LabelsOfStep(es, k);
    if !Tags(es, last, k) {
      LabelsOfValue(init, k);
      var i: nat :| LastTagging(init, i, k) && LabelsOf(init)[k] == Trim(init[i].text);
      LastTaggingInit(es, i, k);
    } else {
      assert LastTagging(es, last, k);
    }
  }

  lemma LastTaggingInit(es: seq<LabelEntry>, i: nat, k: string)
    requires es != [] && !Tags(es, |es| - 1, k)
    requires LastTagging(es[..|es| - 1], i, k)
    ensures LastTagging(es, i, k) && es[..|es| - 1][i] == es[i]
  {
    var init := es[..|es| - 1];
    forall j | i < j < |es| ensures !Tags(es, j, k) {
      if j < |init| { assert init[j] == es[j]; assert !Tags(init, j, k); }
    }
  }

  /** The `forEach` over the label elements, as a loop. */
  method CollectLabels(es: seq<LabelEntry>) returns (labels: map<string, string>)
    ensures labels == LabelsOf(es)
  {
    labels := map[];
    for i := 0 to |es|
      invariant labels == LabelsOf(es[..i])
    {
      assert es[..i + 1][..i] == es[..i];
      var text := Trim(es[i].text);
      if text != [] {
        labels := labels[LabelLanguage(es[i]) := text];
      }
    }
    assert es[..|es|] == es;
  }

  /** The comments, each trimmed, blank ones included. */
  method CollectComments(cs: seq<string>) returns (comments: seq<string>)
    ensures |comments| == |cs|
    ensures forall i :: 0 <= i < |cs| ==> comments[i] == Trim(cs[i])
  {
    comments := [];
    for i := 0 to |cs|
      invariant |comments| == i
      invariant forall j :: 0 <= j < i ==> comments[j] == Trim(cs[j])
    {
      comments := comments + [Trim(cs[i])];
    }
  }

  /** The local names of the `rdfs:subClassOf` resources, skipping the ones without a resource. */
  function SuperClassesOf(subs: seq<SubClassOf>): seq<string> {
    if subs == [] then []
    else
      var rest := SuperClassesOf(subs[..|subs| - 1]);
      var sub := subs[|subs| - 1];
      if Truthy(sub.resource) then rest + [LocalName(sub.resource.value)] else rest
  }

  /** A name is a declared superclass exactly when some subClassOf resource resolves to it. */
  lemma {:induction false} SuperClassesOfSpec(subs: seq<SubClassOf>, s: string)
    ensures s in SuperClassesOf(subs) <==>
              exists i :: 0 <= i < |subs| && Truthy(subs[i].resource) && LocalName(subs[i].resource.value) == s
  {
    if subs != [] {
      var init := subs[..|subs| - 1];
      SuperClassesOfSpec(init, s);
      assert forall i :: 0 <= i < |init| ==> init[i] == subs[i];
    }
  }

  method CollectSuperClasses(subs: seq<SubClassOf>) returns (supers: seq<string>)
    ensures supers == SuperClassesOf(subs)
  {
    supers := [];
    for i := 0 to |subs|
      invariant supers == SuperClassesOf(subs[..i])
    {
      assert subs[..i + 1][..i] == subs[..i];
      if Truthy(subs[i].resource) {
        supers := supers + [LocalName(subs[i].resource.value)];
      }
    }
    assert subs[..|subs|] == subs;
  }

  /** The label shown for a class: the active language, then English, then `fallback`. */
  function ChooseLabel(labels: map<string, string>, lang: string, fallback: string): string {
    if lang in labels && labels[lang] != [] then labels[lang]
    else if Fallback in labels && labels[Fallback] != [] then labels[Fallback]
    else fallback
  }

  /** The node a class record with an `rdf:about` becomes. */
  function NodeOf(rec: ClassRecord, lang: string): ClassNode
    requires Truthy(rec.about)
  {
    var id := LocalName(rec.about.value);
    var labels := LabelsOf(rec.labels);
    ClassNode(id, ChooseLabel(labels, ActiveLanguage(lang), id),
              seq(|rec.comments|, i requires 0 <= i < |rec.comments| => Trim(rec.comments[i])),
              SuperClassesOf(rec.subClassOf), labels)
  }

  /** The body of the first `forEach`: one record to one node. */
  method MakeNode(rec: ClassRecord, lang: string) returns (node: ClassNode)
    requires Truthy(rec.about)
    ensures node == NodeOf(rec, lang)
  {
    var id := LocalName(rec.about.value);
    var labels := CollectLabels(rec.labels);
    var currentLang := ActiveLanguage(lang);
    var displayName := id;
    if currentLang in labels && labels[currentLang] != [] {
      displayName := labels[currentLang];
    } else if Fallback in labels && labels[Fallback] != [] {
      displayName := labels[Fallback];
    }
    var comments := CollectComments(rec.comments);
    var supers := CollectSuperClasses(rec.subClassOf);
    node := ClassNode(id, displayName, comments, supers, labels);
  }

  /**
   * The display name of a built node: the last non-blank label tagged with the
   * active language, else the last one tagged English (untagged labels count
   * as English), else the class id.
   */
  lemma DisplayNameSpec(rec: ClassRecord, lang: string)
    requires Truthy(rec.about)
    ensures var n := NodeOf(rec, lang);
            var es := rec.labels;
            var k := ActiveLanguage(lang);
            ((exists i :: 0 <= i < |es| && Tags(es, i, k)) ==>
               exists i: nat :: LastTagging(es, i, k) && n.name == Trim(es[i].text)) &&
            ((forall i :: 0 <= i < |es| ==> !Tags(es, i, k)) &&
             (exists i :: 0 <= i < |es| && Tags(es, i, Fallback)) ==>
               exists i: nat :: LastTagging(es, i, Fallback) && n.name == Trim(es[i].text)) &&
            ((forall i :: 0 <= i < |es| ==> !Tags(es, i, k) && !Tags(es, i, Fallback)) ==>
               n.name == n.id)
  {
    var es, k := rec.labels, ActiveLanguage(lang);
    LabelsOfKeys(es, k);
    LabelsOfKeys(es, Fallback);
    if k in LabelsOf(es) { LabelsOfValue(es, k); }
    if Fallback in LabelsOf(es) { LabelsOfValue(es, Fallback); }
  }

  // ---------------------------------------------------------------------------
  // The class map: ids in first-insertion order, the last record winning
  // ---------------------------------------------------------------------------

  /** A JavaScript `Map` from id to node: keys in insertion order, and the entries. */
  datatype ClassIndex = ClassIndex(order: seq<string>, byId: map<string, ClassNode>)

  /** Keys distinct, exactly the map's keys, each node filed under its own id. */
  ghost predicate WellIndexed(idx: ClassIndex) {
    (forall a, b :: 0 <= a < b < |idx.order| ==> idx.order[a] != idx.order[b]) &&
    (forall k :: k in idx.byId <==> k in idx.order) &&
    (forall k :: k in idx.byId ==> idx.byId[k].id == k)
  }

  /** Record `i` declares the class `id`. */
  predicate Declares(recs: seq<ClassRecord>, i: nat, id: string)
    requires i < |recs|
  {
    Truthy(recs[i].about) && LocalName(recs[i].about.value) == id
  }

  /** `classes.set(node.id, node)` for every record with an `rdf:about`, in order. */
  function IndexOf(recs: seq<ClassRecord>, lang: string): (idx: ClassIndex)
    ensures WellIndexed(idx)
  {
    if recs == [] then ClassIndex([], map[])
    else
      var idx := IndexOf(recs[..|recs| - 1], lang);
      var rec := recs[|recs| - 1];
      if !Truthy(rec.about) then idx
      else
        var id := LocalName(rec.about.value);
        var node := NodeOf(rec, lang);
        assert node.id == id;
        ClassIndex(if id in idx.byId then idx.order else idx.order + [id], idx.byId[id := node])
  }

  /** Dropping the last record: the earlier records declare what they declared. */
  lemma DeclaresInit(recs: seq<ClassRecord>, id: string)
    requires recs != []
    ensures forall i :: 0 <= i < |recs| - 1 ==> (Declares(recs[..|recs| - 1], i, id) <==> Declares(recs, i, id))
  {
  }

  /** The class map after one more record. */
  lemma IndexStep(recs: seq<ClassRecord>, lang: string)
    requires recs != []
    ensures var idx := IndexOf(recs, lang);
            var idx0 := IndexOf(recs[..|recs| - 1], lang);
            var rec := recs[|recs| - 1];
            (!Truthy(rec.about) ==> idx == idx0) &&
            (Truthy(rec.about) ==>
               var id := LocalName(rec.about.value);
               idx.byId == idx0.byId[id := NodeOf(rec, lang)] &&
               idx.order == (if id in idx0.byId then idx0.order else idx0.order + [id]))
  {
  }

  /** The built ids are exactly the local names of the records that have an `rdf:about`. */
  lemma {:induction false} IndexIds(recs: seq<ClassRecord>, lang: string, id: string)
    ensures id in IndexOf(recs, lang).byId <==> exists i :: 0 <= i < |recs| && Declares(recs, i, id)
  {
    if recs != [] {
      var init := recs[..|recs| - 1];
      var last := |recs| - 1;
      IndexIds(init, lang, id);
      DeclaresInit(recs, id);
      IndexStep(recs, lang);
      if Declares(recs, last, id) {
        assert id in IndexOf(recs, lang).byId;
      } else {
        assert id in IndexOf(recs, lang).byId <==> id in IndexOf(init, lang).byId;
        if exists i :: 0 <= i < |recs| && Declares(recs, i, id) {
          var i :| 0 <= i < |recs| && Declares(recs, i, id);
          assert i < |init| && Declares(init, i, id);
        }
        if id in IndexOf(init, lang).byId {
          var i :| 0 <= i < |init| && Declares(init, i, id);
          assert Declares(recs, i, id);
        }
      }
    }
  }

  /** Record `i` is the last one declaring `id`. */
  predicate LastDeclaring(recs: seq<ClassRecord>, i: nat, id: string) {
    i < |recs| && Declares(recs, i, id) && forall j :: i < j < |recs| ==> !Declares(recs, j, id)
  }

  /** A later record with the same id overwrites the node: each node is built from the LAST record declaring it. */
  lemma {:induction false} IndexLastWins(recs: seq<ClassRecord>, lang: string, id: string)
    requires id in IndexOf(recs, lang).byId
    ensures exists i: nat :: LastDeclaring(recs, i, id) && IndexOf(recs, lang).byId[id] == NodeOf(recs[i], lang)
  {
    var init := recs[..|recs| - 1];
    var last := |recs| - 1;
    IndexEntry(recs, lang, id);
    if !Declares(recs, last, id) {
      IndexLastWins(init, lang, id);
      var i: nat :| LastDeclaring(init, i, id) && IndexOf(init, lang).byId[id] == NodeOf(init[i], lang);
      LastDeclaringInit(recs, i, id);
    } else {
      assert LastDeclaring(recs, last, id);
    }
  }

  /** The entry for `id` after one more record. */
  lemma IndexEntry(recs: seq<ClassRecord>, lang: string, id: string)
    requires recs != []
    ensures var idx, idx0 := IndexOf(recs, lang), IndexOf(recs[..|recs| - 1], lang);
            var last := |recs| - 1;
            (Declares(recs, last, id) ==> id in idx.byId && idx.byId[id] == NodeOf(recs[last], lang)) &&
            (!Declares(recs, last, id) ==> (id in idx.byId <==> id in idx0.byId) &&
                                           (id in idx0.byId ==> idx.byId[id] == idx0.byId[id]))
  {
    IndexStep(recs, lang);
  }

  lemma LastDeclaringInit(recs: seq<ClassRecord>, i: nat, id: string)
    requires recs != [] && !Declares(recs, |recs| - 1, id)
    requires LastDeclaring(recs[..|recs| - 1], i, id)
    ensures LastDeclaring(recs, i, id) && recs[..|recs| - 1][i] == recs[i]
  {
    DeclaresInit(recs, id);
  }

  /**
   * Ids keep the position of their FIRST declaration: of two built ids, the one
   * earlier in the order was declared before the other was first declared.
   */
  lemma {:induction false} IndexFirstInsertion(recs: seq<ClassRecord>, lang: string, a: nat, b: nat)
    requires a < b < |IndexOf(recs, lang).order|
    ensures var order := IndexOf(recs, lang).order;
            exists i :: 0 <= i < |recs| && Declares(recs, i, order[a]) &&
              forall j :: 0 <= j <= i ==> !Declares(recs, j, order[b])
  {
    var init := recs[..|recs| - 1];
    var order := IndexOf(recs, lang).order;
    var order0 := IndexOf(init, lang).order;
    IndexStep(recs, lang);
    assert order[..|order0|] == order0;
    if b < |order0| {
      IndexFirstInsertion(init, lang, a, b);
      var i :| 0 <= i < |init| && Declares(init, i, order0[a]) &&
               forall j :: 0 <= j <= i ==> !Declares(init, j, order0[b]);
      DeclaresInit(recs, order[a]);
      DeclaresInit(recs, order[b]);
      assert order0[a] == order[a] && order0[b] == order[b];
      assert Declares(recs, i, order[a]);
    } else {
      // order[b] is new with the last record, so no earlier record declares it
      var x := order[b];
      assert x !in IndexOf(init, lang).byId;
      IndexIds(init, lang, x);
      IndexIds(init, lang, order[a]);
      assert order[a] == order0[a];
      assert order[a] in IndexOf(init, lang).byId;
      var i :| 0 <= i < |init| && Declares(init, i, order[a]);
      DeclaresInit(recs, order[a]);
      DeclaresInit(recs, x);
      assert Declares(recs, i, order[a]);
      forall j | 0 <= j <= i ensures !Declares(recs, j, x) {
        assert !Declares(init, j, x);
      }
    }
  }

  /** `Array.from(classes.values())`. */
  function NodesOf(idx: ClassIndex): (nodes: seq<ClassNode>)
    requires WellIndexed(idx)
    ensures |nodes| == |idx.order|
    ensures forall i :: 0 <= i < |nodes| ==> nodes[i].id == idx.order[i]
    ensures forall i, j :: 0 <= i < j < |nodes| ==> nodes[i].id != nodes[j].id
  {
    seq(|idx.order|, i requires 0 <= i < |idx.order| => idx.byId[idx.order[i]])
  }

  // ---------------------------------------------------------------------------
  // Links
  // ---------------------------------------------------------------------------

  /** The links one class contributes: one per declared superclass that is a built id, in order, duplicates kept. */
  function SuperLinks(id: string, supers: seq<string>, ids: set<string>): seq<Link> {
    if supers == [] then []
    else
      var rest := SuperLinks(id, supers[..|supers| - 1], ids);
      var s := supers[|supers| - 1];
      if s in ids then rest + [Link(s, id)] else rest
  }

  /** The links of a node list, node by node. */
  function LinksOf(nodes: seq<ClassNode>, ids: set<string>): seq<Link> {
    if nodes == [] then []
    else
      var n := nodes[|nodes| - 1];
      LinksOf(nodes[..|nodes| - 1], ids) + SuperLinks(n.id, n.superClasses, ids)
  }

  lemma {:induction false} SuperLinksSpec(id: string, supers: seq<string>, ids: set<string>, l: Link)
    ensures l in SuperLinks(id, supers, ids) <==> l.target == id && l.source in supers && l.source in ids
  {
    if supers != [] {
      var init := supers[..|supers| - 1];
      SuperLinksSpec(id, init, ids, l);
      assert supers == init + [supers[|supers| - 1]];
    }
  }

  /**
   * A link is built exactly when its target is a node that declares its
   * source as a superclass and the source is a built id.
   */
  lemma {:induction false} LinksOfSpec(nodes: seq<ClassNode>, ids: set<string>, l: Link)
    ensures l in LinksOf(nodes, ids) <==>
              l.source in ids && exists n :: n in nodes && n.id == l.target && l.source in n.superClasses
  {
    if nodes != [] {
      var init := nodes[..|nodes| - 1];
      var n := nodes[|nodes| - 1];
      LinksOfSpec(init, ids, l);
      SuperLinksSpec(n.id, n.superClasses, ids, l);
      assert nodes == init + [n];
    }
  }

  /**
   * `extractOntologyData`: the node list in first-insertion order and the
   * `subClassOf` links, node by node and superclass by superclass.
   */
  method ExtractOntologyData(recs: seq<ClassRecord>, lang: string) returns (nodes: seq<ClassNode>, links: seq<Link>)
    ensures var idx := IndexOf(recs, lang);
            nodes == NodesOf(idx) && links == LinksOf(nodes, idx.byId.Keys)
    ensures forall l :: l in links ==> l.source in IndexOf(recs, lang).byId && l.target in IndexOf(recs, lang).byId
  {
    var order, classes := IndexClasses(recs, lang);
    nodes := NodesOf(ClassIndex(order, classes));
    links := CollectLinks(order, classes);
    forall l | l in links ensures l.source in classes && l.target in classes {
      LinksOfSpec(nodes, classes.Keys, l);
    }
  }

  /** The first loop: `classes.set(node.id, node)` per record with an `rdf:about`. */
  method IndexClasses(recs: seq<ClassRecord>, lang: string) returns (order: seq<string>, classes: map<string, ClassNode>)
    ensures ClassIndex(order, classes) == IndexOf(recs, lang)
  {
    order, classes := [], map[];
    for i := 0 to |recs|
      invariant ClassIndex(order, classes) == IndexOf(recs[..i], lang)
    {
      assert recs[..i + 1][..i] == recs[..i];
      if Truthy(recs[i].about) {
        var node := MakeNode(recs[i], lang);
        if node.id !in classes {
          order := order + [node.id];
        }
        classes := classes[node.id := node];
      }
    }
    assert recs[..|recs|] == recs;
  }

  /** The second loop: the links of every node, in the map's order. */
  method CollectLinks(order: seq<string>, classes: map<string, ClassNode>) returns (links: seq<Link>)
    requires WellIndexed(ClassIndex(order, classes))
    ensures links == LinksOf(NodesOf(ClassIndex(order, classes)), classes.Keys)
  {
    ghost var nodes := NodesOf(ClassIndex(order, classes));
    links := [];
    for k := 0 to |order|
      invariant links == LinksOf(nodes[..k], classes.Keys)
    {
      var cls := classes[order[k]];
      assert nodes[..k + 1] == nodes[..k] + [cls];
      assert nodes[..k + 1][..k] == nodes[..k];
      var more := LinksFrom(cls, classes);
      links := links + more;
    }
    assert nodes[..|order|] == nodes;
  }

  /** One node's links: one per superclass that is a class id. */
  method LinksFrom(cls: ClassNode, classes: map<string, ClassNode>) returns (links: seq<Link>)
    ensures links == SuperLinks(cls.id, cls.superClasses, classes.Keys)
  {
    links := [];
    for j := 0 to |cls.superClasses|
      invariant links == SuperLinks(cls.id, cls.superClasses[..j], classes.Keys)
    {
      assert cls.superClasses[..j + 1][..j] == cls.superClasses[..j];
      var superClass := cls.superClasses[j];
      if superClass in classes {
        links := links + [Link(superClass, cls.id)];
      }
    }
    assert cls.superClasses[..|cls.superClasses|] == cls.superClasses;
  }

  // ---------------------------------------------------------------------------
  // getLocalizedLabel
  // ---------------------------------------------------------------------------

  /** `nodes.find(node => node.data.id === id)`. */
  function FindNode(nodes: seq<ClassNode>, id: string): (r: Option<ClassNode>)
    ensures r.Some? ==> r.value in nodes && r.value.id == id
    ensures r.Some? ==> exists k :: 0 <= k < |nodes| && nodes[k] == r.value &&
                          forall j :: 0 <= j < k ==> nodes[j].id != id
    ensures r.None? <==> forall n :: n in nodes ==> n.id != id
  {
    if nodes == [] then None
    else if nodes[0].id == id then Some(nodes[0])
    else
      var r := FindNode(nodes[1..], id);
      assert forall n :: n in nodes ==> n == nodes[0] || n in nodes[1..];
      if r.Some? then
        var k :| 0 <= k < |nodes[1..]| && nodes[1..][k] == r.value &&
                 forall j :: 0 <= j < k ==> nodes[1..][j].id != id;
        assert nodes[k + 1] == r.value;
        assert forall j :: 0 <= j < k + 1 ==> nodes[j].id != id by {
          forall j | 0 <= j < k + 1 ensures nodes[j].id != id {
            if j > 0 { assert nodes[j] == nodes[1..][j - 1]; }
          }
        }
        r
      else r
  }

  /**
   * `getLocalizedLabel(classId)` over the nodes of the displayed tree: the
   * first node with that id supplies the label; an unknown id is its own label.
   */
  function LocalizedLabel(classId: string, nodes: seq<ClassNode>, lang: string): (r: string)
    ensures (forall n :: n in nodes ==> n.id != classId) ==> r == classId
    ensures r == classId || exists n :: n in nodes && n.id == classId && r in n.labels.Values
  {
    match FindNode(nodes, classId)
    case Some(n) => ChooseLabel(n.labels, ActiveLanguage(lang), classId)
    case None => classId
  }

  /** A node whose display name is the label choice over its own labels. */
  predicate NamedFor(n: ClassNode, lang: string) {
    n.name == ChooseLabel(n.labels, ActiveLanguage(lang), n.id)
  }

  lemma {:induction false} IndexNamedFor(recs: seq<ClassRecord>, lang: string, id: string)
    requires id in IndexOf(recs, lang).byId
    ensures NamedFor(IndexOf(recs, lang).byId[id], lang)
  {
    IndexLastWins(recs, lang, id);
    var i: nat :| LastDeclaring(recs, i, id) && IndexOf(recs, lang).byId[id] == NodeOf(recs[i], lang);
    var n := NodeOf(recs[i], lang);
    assert n.labels == LabelsOf(recs[i].labels);
  }

  /** On the nodes of a built graph, the localized label of a node is its display name. */
  lemma LocalizedLabelIsName(recs: seq<ClassRecord>, lang: string, k: nat)
    requires k < |NodesOf(IndexOf(recs, lang))|
    ensures var nodes := NodesOf(IndexOf(recs, lang));
            LocalizedLabel(nodes[k].id, nodes, lang) == nodes[k].name
  {
    var idx := IndexOf(recs, lang);
    var nodes := NodesOf(idx);
    var id := idx.order[k];
    assert nodes[k] == idx.byId[id];
    assert nodes[k].id == id;
    var f := FindNode(nodes, id);
    var m :| 0 <= m < |nodes| && nodes[m] == f.value && forall j :: 0 <= j < m ==> nodes[j].id != id;
    assert nodes[m].id == idx.order[m];
    assert m == k;
    IndexNamedFor(recs, lang, id);
  }
}
