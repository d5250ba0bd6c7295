/**
 * `extractClassAxioms`: what the info panel lists for one class: the classes
 * that name it as a superclass, its parsed equivalent-class axioms, and the
 * object-property restrictions among its own `rdfs:subClassOf` elements.
 */
module ClassAxioms {
  import opened Optional
  import opened Identifiers
  import opened Markup
  import opened ClassExpressions

  /** One `{type, value}` entry of `objectProperties`. */
  datatype PropertyValue = PropertyValue(kind: RestrictionKind, value: string)

  datatype Axioms = Axioms(
    subClasses: seq<string>,
    equivalentClasses: seq<ClassExpr>,
    objectProperties: map<string, seq<PropertyValue>>)

  /** The class a record declares, when its `rdf:about` is present and non-empty. */
  function DeclaredName(rec: ClassRecord): (r: Option<string>)
    ensures r.Some? <==> Truthy(rec.about)
    ensures r.Some? ==> r.value == LocalName(rec.about.value)
  {
    if Truthy(rec.about) then Some(LocalName(rec.about.value)) else None
  }

  // ---------------------------------------------------------------------------
  // Subclasses
  // ---------------------------------------------------------------------------

  /** `sub` names `className` through its `rdf:resource`. */
  predicate NamesSuper(sub: SubClassOf, className: string) {
    Truthy(sub.resource) && LocalName(sub.resource.value) == className
  }

  /** The class `name`, once for each of `subs` naming `className`. */
  function SubClassesFrom(name: string, subs: seq<SubClassOf>, className: string): seq<string> {
    if subs == [] then []
    else
      SubClassesFrom(name, subs[..|subs| - 1], className) +
      (if NamesSuper(subs[|subs| - 1], className) then [name] else [])
  }

  /** Every declared class other than `className`, once per `subClassOf` naming `className`. */
  function SubClassesOf(recs: seq<ClassRecord>, className: string): seq<string> {
    if recs == [] then []
    else
      SubClassesOf(recs[..|recs| - 1], className) + ContributedBy(recs[|recs| - 1], className)
  }

  /** What one record adds to the subclass list. */
  function ContributedBy(rec: ClassRecord, className: string): seq<string> {
    var name := DeclaredName(rec);
    if name.Some? && name.value != className then SubClassesFrom(name.value, rec.subClassOf, className) else []
  }

  /** Some element of `subs` names `className`. */
  predicate AnyNamesSuper(subs: seq<SubClassOf>, className: string) {
    subs != [] && (AnyNamesSuper(subs[..|subs| - 1], className) || NamesSuper(subs[|subs| - 1], className))
  }

  lemma {:induction false} AnyNamesSuperSpec(subs: seq<SubClassOf>, className: string)
    ensures AnyNamesSuper(subs, className) <==> exists j :: 0 <= j < |subs| && NamesSuper(subs[j], className)
  {
    if subs != [] {
      var init := subs[..|subs| - 1];
      AnyNamesSuperSpec(init, className);
      if exists j :: 0 <= j < |init| && NamesSuper(init[j], className) {
        var j :| 0 <= j < |init| && NamesSuper(init[j], className);
        assert subs[j] == init[j];
      }
      if exists j :: 0 <= j < |subs| && NamesSuper(subs[j], className) {
        var j :| 0 <= j < |subs| && NamesSuper(subs[j], className);
        if j < |init| {
          assert init[j] == subs[j];
        }
      }
    }
  }

  lemma {:induction false} SubClassesFromSpec(name: string, subs: seq<SubClassOf>, className: string, c: string)
    ensures c in SubClassesFrom(name, subs, className) <==> c == name && AnyNamesSuper(subs, className)
  {
    if subs != [] {
      SubClassesFromSpec(name, subs[..|subs| - 1], className, c);
    }
  }

  /** `rec` declares `c`, a class other than `className`, and names `className` as a superclass. */
  predicate SubClassRecord(rec: ClassRecord, c: string, className: string) {
    DeclaredName(rec) == Some(c) && c != className && AnyNamesSuper(rec.subClassOf, className)
  }

  lemma ContributedBySpec(rec: ClassRecord, className: string, c: string)
    ensures c in ContributedBy(rec, className) <==> SubClassRecord(rec, c, className)
  {
    var name := DeclaredName(rec);
    if name.Some? && name.value != className {
      SubClassesFromSpec(name.value, rec.subClassOf, className, c);
    }
  }

  /**
   * A class is listed exactly when some record declares it, it is not the
   * class asked about, and one of that record's `subClassOf` names the class.
   */
  lemma {:induction false} SubClassesSpec(recs: seq<ClassRecord>, className: string, c: string)
    ensures c in SubClassesOf(recs, className) <==>
              exists rec :: rec in recs && SubClassRecord(rec, c, className)
  {
    if recs != [] {
      var init := recs[..|recs| - 1];
      var rec := recs[|recs| - 1];
      assert recs == init + [rec];
      SubClassesSpec(init, className, c);
      ContributedBySpec(rec, className, c);
      assert SubClassesOf(recs, className) == SubClassesOf(init, className) + ContributedBy(rec, className);
      if exists r :: r in init && SubClassRecord(r, c, className) {
        var r :| r in init && SubClassRecord(r, c, className);
        assert r in recs;
      }
      if exists r :: r in recs && SubClassRecord(r, c, className) {
        var r :| r in recs && SubClassRecord(r, c, className);
        if r != rec {
          assert r in init;
        }
      }
    }
  }

  // ---------------------------------------------------------------------------
  // Equivalent classes
  // ---------------------------------------------------------------------------

  /** The parse of an `owl:equivalentClass` element's first element child, if any. */
  function AxiomOf(eq: Element): (r: Option<ClassExpr>)
    ensures eq.children == [] ==> r.None?
    ensures eq.children != [] ==> r == Parse(eq.children[0])
  {
    if eq.children == [] then None else Parse(eq.children[0])
  }

  /** The axioms that parse, in element order. */
  function EquivalentsFrom(eqs: seq<Element>): seq<ClassExpr> {
    if eqs == [] then []
    else
      var a := AxiomOf(eqs[|eqs| - 1]);
      EquivalentsFrom(eqs[..|eqs| - 1]) + (if a.Some? then [a.value] else [])
  }

  /** The equivalent-class axioms of every record declaring `className`, in record order. */
  function EquivalentsOf(recs: seq<ClassRecord>, className: string): seq<ClassExpr> {
    if recs == [] then []
    else
      EquivalentsOf(recs[..|recs| - 1], className) + EquivalentsIn(recs[|recs| - 1], className)
  }

  /** What one record adds to the equivalent-class list. */
  function EquivalentsIn(rec: ClassRecord, className: string): seq<ClassExpr> {
    if DeclaredName(rec) == Some(className) then EquivalentsFrom(rec.equivalentClasses) else []
  }

  lemma {:induction false} EquivalentsFromSpec(eqs: seq<Element>, x: ClassExpr)
    ensures x in EquivalentsFrom(eqs) <==> exists e :: e in eqs && AxiomOf(e) == Some(x)
    ensures |EquivalentsFrom(eqs)| <= |eqs|
  {
    if eqs != [] {
      var init := eqs[..|eqs| - 1];
      EquivalentsFromSpec(init, x);
      assert eqs == init + [eqs[|eqs| - 1]];
    }
  }

  /** `rec` declares `className` and lists `x` among its parsed equivalent classes. */
  predicate EquivalentRecord(rec: ClassRecord, className: string, x: ClassExpr) {
    DeclaredName(rec) == Some(className) && x in EquivalentsFrom(rec.equivalentClasses)
  }

  /**
   * Each listed axiom is the parse of an `owl:equivalentClass` of a record
   * declaring the class, and each such parse that succeeds is listed.
   */
  lemma {:induction false} EquivalentsSpec(recs: seq<ClassRecord>, className: string, x: ClassExpr)
    ensures x in EquivalentsOf(recs, className) <==> exists rec :: rec in recs && EquivalentRecord(rec, className, x)
  {
    if recs != [] {
      var init, last := recs[..|recs| - 1], recs[|recs| - 1];
      EquivalentsSpec(init, className, x);
      assert recs == init + [last];
      assert EquivalentsOf(recs, className) == EquivalentsOf(init, className) + EquivalentsIn(last, className);
      assert x in EquivalentsIn(last, className) <==> EquivalentRecord(last, className, x);
      if exists rec :: rec in init && EquivalentRecord(rec, className, x) {
        var rec :| rec in init && EquivalentRecord(rec, className, x);
        assert rec in recs;
      }
      if exists rec :: rec in recs && EquivalentRecord(rec, className, x) {
        var rec :| rec in recs && EquivalentRecord(rec, className, x);
        if rec != last {
          assert rec in init;
        }
      }
    }
  }

  // ---------------------------------------------------------------------------
  // Object-property restrictions
  // ---------------------------------------------------------------------------

  /** The last record declaring `className`: the element whose restrictions are read. */
  function TargetRecord(recs: seq<ClassRecord>, className: string): (r: Option<ClassRecord>)
    ensures r.Some? <==> exists i :: 0 <= i < |recs| && DeclaredName(recs[i]) == Some(className)
    ensures r.Some? ==> exists i :: 0 <= i < |recs| && recs[i] == r.value && DeclaredName(recs[i]) == Some(className) &&
                          forall j :: i < j < |recs| ==> DeclaredName(recs[j]) != Some(className)
  {
    if recs == [] then None
    else if DeclaredName(recs[|recs| - 1]) == Some(className) then Some(recs[|recs| - 1])
    else
      var init := recs[..|recs| - 1];
      var r := TargetRecord(init, className);
      assert forall i :: 0 <= i < |init| ==> init[i] == recs[i];
      r
  }

  /** `x ? (x.split('#').pop() || x.split('/').pop()) : null`. */
  function ResolvedOrNull(o: Option<string>): (r: Option<string>)
    ensures r.Some? <==> Truthy(o)
    ensures r.Some? ==> r.value == LocalName(o.value) && r.value != []
  {
    if Truthy(o) then LocalNameEmpty(o.value); Some(LocalName(o.value)) else None
  }

  /**
   * One restriction's entry: its property and `{type, value}`, kept only when
   * both resolve to non-empty names. `allValuesFrom`, when present, decides
   * the value and the kind whatever `someValuesFrom` says.
   */
  function RestrictionEntry(r: RestrictionRecord): (e: Option<(string, PropertyValue)>)
    ensures e.Some? ==> e.value.0 != [] && e.value.1.value != []
    ensures e.Some? ==> (e.value.1.kind == AllValues <==> r.allValuesFrom.Some?)
    ensures e.Some? ==> Truthy(r.onProperty) && e.value.0 == LocalName(r.onProperty.value)
    ensures r.allValuesFrom.Some? && e.Some? ==> Truthy(r.allValuesFrom.value) && e.value.1.value == LocalName(r.allValuesFrom.value.value)
    ensures r.allValuesFrom.None? && e.Some? ==> r.someValuesFrom.Some? && Truthy(r.someValuesFrom.value) &&
                                                 e.value.1.value == LocalName(r.someValuesFrom.value.value)
    ensures r.someValuesFrom.None? && r.allValuesFrom.None? ==> e.None?
    ensures e.Some? <==> Truthy(r.onProperty) &&
                         if r.allValuesFrom.Some? then Truthy(r.allValuesFrom.value)
                         else r.someValuesFrom.Some? && Truthy(r.someValuesFrom.value)
  {
    var property := ResolvedOrNull(r.onProperty);
    var kind := if r.allValuesFrom.Some? then AllValues else SomeValues;
    var value :=
      if r.allValuesFrom.Some? then ResolvedOrNull(r.allValuesFrom.value)
      else if r.someValuesFrom.Some? then ResolvedOrNull(r.someValuesFrom.value)
      else None;
    if Truthy(property) && Truthy(value) then Some((property.value, PropertyValue(kind, value.value))) else None
  }

  /** The entry a `subClassOf` contributes, if it holds a restriction with one. */
  function EntryOf(sub: SubClassOf): Option<(string, PropertyValue)> {
    if sub.restriction.Some? then RestrictionEntry(sub.restriction.value) else None
  }

  /** `objectProperties`: the entries grouped by property, each group in element order. */
  function PropertiesOf(subs: seq<SubClassOf>): map<string, seq<PropertyValue>> {
    if subs == [] then map[]
    else
      var m := PropertiesOf(subs[..|subs| - 1]);
      var e := EntryOf(subs[|subs| - 1]);
      if e.Some? then
        var (p, v) := e.value;
        m[p := (if p in m then m[p] else []) + [v]]
      else m
  }

  /** The entries for property `p`, in element order: the reference the grouping is checked against. */
  function EntriesFor(subs: seq<SubClassOf>, p: string): seq<PropertyValue> {
    if subs == [] then []
    else
      var e := EntryOf(subs[|subs| - 1]);
      EntriesFor(subs[..|subs| - 1], p) + (if e.Some? && e.value.0 == p then [e.value.1] else [])
  }

  /**
   * The grouping lists, for every property, exactly its entries in order, and
   * has a key only for properties with at least one entry.
   */
  lemma {:induction false} PropertiesOfSpec(subs: seq<SubClassOf>, p: string)
    ensures p in PropertiesOf(subs) <==> EntriesFor(subs, p) != []
    ensures p in PropertiesOf(subs) ==> PropertiesOf(subs)[p] == EntriesFor(subs, p)
  {
    if subs != [] {
      PropertiesOfSpec(subs[..|subs| - 1], p);
    }
  }

  // ---------------------------------------------------------------------------
  // The listing
  // ---------------------------------------------------------------------------

  /** What `extractClassAxioms(className)` returns, given the class records. */
  function AxiomsOf(recs: seq<ClassRecord>, className: string): Axioms {
    var target := TargetRecord(recs, className);
    Axioms(
      SubClassesOf(recs, className),
      EquivalentsOf(recs, className),
      if target.Some? then PropertiesOf(target.value.subClassOf) else map[])
  }

  /** The first pass: subclasses of `className` and its equivalent-class axioms. */
  method SubClassesAndEquivalents(recs: seq<ClassRecord>, className: string)
    returns (subClasses: seq<string>, equivalentClasses: seq<ClassExpr>)
    ensures subClasses == SubClassesOf(recs, className)
    ensures equivalentClasses == EquivalentsOf(recs, className)
  {
    subClasses, equivalentClasses := [], [];
    for i := 0 to |recs|
      invariant subClasses == SubClassesOf(recs[..i], className)
      invariant equivalentClasses == EquivalentsOf(recs[..i], className)
    {
      assert recs[..i + 1][..i] == recs[..i];
      var rec := recs[i];
      if Truthy(rec.about) {
        var current := LocalName(rec.about.value);
        if current == className {
          var found := ParsedAxioms(rec.equivalentClasses);
          equivalentClasses := equivalentClasses + found;
        } else {
          var found := NamingRecords(current, rec.subClassOf, className);
          subClasses := subClasses + found;
        }
      }
    }
    assert recs[..|recs|] == recs;
  }

  /** The parsed first children of `eqs`, those that parse. */
  method ParsedAxioms(eqs: seq<Element>) returns (found: seq<ClassExpr>)
    ensures found == EquivalentsFrom(eqs)
  {
    found := [];
    for k := 0 to |eqs|
      invariant found == EquivalentsFrom(eqs[..k])
    {
      assert eqs[..k + 1][..k] == eqs[..k];
      var eq := eqs[k];
      if eq.children != [] {
        var parsed := Parse(eq.children[0]);
        if parsed.Some? {
          found := found + [parsed.value];
        }
      }
    }
    assert eqs[..|eqs|] == eqs;
  }

  /** `current` once for each of `subs` naming `className`. */
  method NamingRecords(current: string, subs: seq<SubClassOf>, className: string) returns (found: seq<string>)
    ensures found == SubClassesFrom(current, subs, className)
  {
    found := [];
    for k := 0 to |subs|
      invariant found == SubClassesFrom(current, subs[..k], className)
    {
      assert subs[..k + 1][..k] == subs[..k];
      var superClassResource := subs[k].resource;
      if Truthy(superClassResource) && LocalName(superClassResource.value) == className {
        found := found + [current];
      }
    }
    assert subs[..|subs|] == subs;
  }

  /** The restriction entries of `subs`, grouped by property. */
  method GroupRestrictions(subs: seq<SubClassOf>) returns (objectProperties: map<string, seq<PropertyValue>>)
    ensures objectProperties == PropertiesOf(subs)
  {
    objectProperties := map[];
    for k := 0 to |subs|
      invariant objectProperties == PropertiesOf(subs[..k])
    {
      assert subs[..k + 1][..k] == subs[..k];
      if subs[k].restriction.Some? {
        var entry := RestrictionEntry(subs[k].restriction.value);
        if entry.Some? {
          var (property, value) := entry.value;
          if property !in objectProperties {
            objectProperties := objectProperties[property := []];
          }
          objectProperties := objectProperties[property := objectProperties[property] + [value]];
        }
      }
    }
    assert subs[..|subs|] == subs;
  }

  /**
   * `extractClassAxioms`: one pass over the records for subclasses and
   * equivalent classes, one for the last record declaring the class, then
   * one over that record's `subClassOf` elements for restrictions.
   */
  method ExtractClassAxioms(recs: seq<ClassRecord>, className: string) returns (result: Axioms)
    ensures result == AxiomsOf(recs, className)
  {
    var subClasses, equivalentClasses := SubClassesAndEquivalents(recs, className);
    var target: Option<ClassRecord> := None;
    for i := 0 to |recs|
      invariant target == TargetRecord(recs[..i], className)
    {
      assert recs[..i + 1][..i] == recs[..i];
      if DeclaredName(recs[i]) == Some(className) {
        target := Some(recs[i]);
      }
    }
    assert recs[..|recs|] == recs;
    var objectProperties: map<string, seq<PropertyValue>> := map[];
    if target.Some? {
      objectProperties := GroupRestrictions(target.value.subClassOf);
    }
    result := Axioms(subClasses, equivalentClasses, objectProperties);
  }
}
