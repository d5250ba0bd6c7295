/**
 * The parsed ontology document, abstracted from the DOM: element trees for the
 * class-expression markup, and one record per `owl:Class` element for the
 * parts the graph builder and the axiom listing read.
 */
module Markup {
  import opened Optional

  /** An XML element: its qualified name, its attributes and its element children. */
  datatype Element = Element(name: string, attrs: map<string, string>, children: seq<Element>)

  /** `getAttribute(key)`: the value, or `None` (JavaScript `null`) when absent. */
  function Attr(e: Element, key: string): (r: Option<string>)
    ensures r.Some? <==> key in e.attrs
    ensures r.Some? ==> r.value == e.attrs[key]
  {
    if key in e.attrs then Some(e.attrs[key]) else None
  }

  function EndsWith(s: string, suffix: string): bool {
    |suffix| <= |s| && s[|s| - |suffix|..] == suffix
  }

  /** The two spellings a selector such as `owl\:onProperty, onProperty` accepts. */
  predicate HasName(e: Element, qualified: string, local: string) {
    e.name == qualified || e.name == local
  }

  /**
   * `querySelector(':scope > P\:L, :scope > L')`: the first direct child with
   * either spelling of the name, in document order.
   */
  function FirstChild(e: Element, qualified: string, local: string): (r: Option<Element>)
    ensures r.Some? ==> r.value in e.children && HasName(r.value, qualified, local)
    ensures r.None? <==> forall c :: c in e.children ==> !HasName(c, qualified, local)
  {
    FirstNamed(e.children, qualified, local)
  }

  function FirstNamed(cs: seq<Element>, qualified: string, local: string): (r: Option<Element>)
    ensures r.Some? ==> r.value in cs && HasName(r.value, qualified, local)
    ensures r.None? <==> forall c :: c in cs ==> !HasName(c, qualified, local)
  {
    if cs == [] then None
    else if HasName(cs[0], qualified, local) then Some(cs[0])
    else
      assert forall c :: c in cs ==> c == cs[0] || c in cs[1..];
      FirstNamed(cs[1..], qualified, local)
  }

  /** The child found is the first one with the name: every earlier child has another name. */
  lemma {:induction false} FirstNamedFirst(cs: seq<Element>, qualified: string, local: string)
    requires FirstNamed(cs, qualified, local).Some?
    ensures exists k :: 0 <= k < |cs| && cs[k] == FirstNamed(cs, qualified, local).value &&
                        forall j :: 0 <= j < k ==> !HasName(cs[j], qualified, local)
  {
    if !HasName(cs[0], qualified, local) {
      var r := FirstNamed(cs[1..], qualified, local);
      FirstNamedFirst(cs[1..], qualified, local);
      var k :| 0 <= k < |cs[1..]| && cs[1..][k] == r.value &&
               forall j :: 0 <= j < k ==> !HasName(cs[1..][j], qualified, local);
      assert cs[k + 1] == r.value;
      forall j | 0 <= j < k + 1 ensures !HasName(cs[j], qualified, local) {
        if j > 0 { assert cs[j] == cs[1..][j - 1]; }
      }
    } else {
      assert cs[0] == FirstNamed(cs, qualified, local).value;
    }
  }

  /** The search in a concatenation: the first part, then the second. */
  lemma {:induction false} FirstNamedAppend(a: seq<Element>, b: seq<Element>, qualified: string, local: string)
    ensures FirstNamed(a + b, qualified, local) ==
            if FirstNamed(a, qualified, local).Some? then FirstNamed(a, qualified, local) else FirstNamed(b, qualified, local)
  {
    if a != [] {
      assert (a + b)[0] == a[0];
      assert (a + b)[1..] == a[1..] + b;
      FirstNamedAppend(a[1..], b, qualified, local);
    } else {
      assert a + b == b;
    }
  }

  /** An `rdfs:label` element: its `xml:lang` attribute and its raw text content. */
  datatype LabelEntry = LabelEntry(lang: Option<string>, text: string)

  /**
   * The first `owl:Restriction` inside an `rdfs:subClassOf`, reduced to the
   * `rdf:resource` of its `onProperty` (None when the element or the attribute
   * is missing) and, for `someValuesFrom` and `allValuesFrom`, whether the
   * element is there (outer Option) and its `rdf:resource` (inner Option).
   */
  datatype RestrictionRecord = RestrictionRecord(
    onProperty: Option<string>,
    someValuesFrom: Option<Option<string>>,
    allValuesFrom: Option<Option<string>>)

  /** An `rdfs:subClassOf` element: its `rdf:resource` and the restriction inside it, if any. */
  datatype SubClassOf = SubClassOf(resource: Option<string>, restriction: Option<RestrictionRecord>)

  /**
   * An `owl:Class` element: `rdf:about`, its `rdfs:subClassOf`, `rdfs:label`
   * and `rdfs:comment` elements (text content as given), and its
   * `owl:equivalentClass` elements.
   */
  datatype ClassRecord = ClassRecord(
    about: Option<string>,
    subClassOf: seq<SubClassOf>,
    labels: seq<LabelEntry>,
    comments: seq<string>,
    equivalentClasses: seq<Element>)
}
