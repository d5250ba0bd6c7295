/**
 * The recursive-descent parser for `owl:equivalentClass` markup
 * (`parseEquivalentClassAxiom`) and the renderer back to readable text
 * (`renderEquivalentAxiom`). The parser works on element trees; each
 * `:scope > X` selector is the first direct child with that name.
 */
module ClassExpressions {
  import opened Optional
  import opened Identifiers
  import opened Markup

  /** `restrictionType`: 'some' (the default, `someValuesFrom`) or 'only' (`allValuesFrom`). */
  datatype RestrictionKind = SomeValues | AllValues

  /** The objects the parser returns, one constructor per `type`. */
  datatype ClassExpr =
    | Named(id: string)
    | Intersection(operands: seq<ClassExpr>)
    | Union(operands: seq<ClassExpr>)
    | Not(operand: Option<ClassExpr>)
    | Restriction(property: Option<string>, value: Option<RestrictionValue>, kind: RestrictionKind)

  /** A restriction's value: a local name (a string in the source) or a nested expression. */
  datatype RestrictionValue = Plain(name: string) | Nested(expr: ClassExpr)

  /** The local name of an attribute that is present and non-empty. */
  function ResourceName(e: Element, key: string): Option<string> {
    var a := Attr(e, key);
    if Truthy(a) then Some(LocalName(a.value)) else None
  }

  /** A parse result in the value position: an object, or `null`. */
  function AsValue(r: Option<ClassExpr>): Option<RestrictionValue> {
    if r.Some? then Some(Nested(r.value)) else None
  }

  /** `parseEquivalentClassAxiom(node)`; `None` is the source's `null`. */
  function Parse(e: Element): Option<ClassExpr>
    decreases e, 1
  {
    if (EndsWith(e.name, "Class") || EndsWith(e.name, "Description")) && Truthy(Attr(e, "rdf:about")) then
      Some(Named(LocalName(e.attrs["rdf:about"])))
    else
      var intersection := FirstChild(e, "owl:intersectionOf", "intersectionOf");
      if intersection.Some? then
        Some(Intersection(ParseItems(intersection.value)))
      else
        var union := FirstChild(e, "owl:unionOf", "unionOf");
        if union.Some? then
          Some(Union(ParseItems(union.value)))
        else
          var complement := FirstChild(e, "owl:complementOf", "complementOf");
          if complement.Some? then
            var c := complement.value;
            if Truthy(Attr(c, "rdf:resource")) then
              Some(Not(Some(Named(LocalName(c.attrs["rdf:resource"])))))
            else if c.children != [] then
              Some(Not(Parse(c.children[0])))
            else
              Some(Not(None))
          else if EndsWith(e.name, "Restriction") then
            Some(ParseRestriction(e))
          else
            None
  }

  /** `Array.from(list.children).map(parse).filter(Boolean)`: the parsed operands, unparsable ones dropped. */
  function ParseItems(list: Element): seq<ClassExpr>
    decreases list, 0
  {
    Somes(seq(|list.children|, i requires 0 <= i < |list.children| => Parse(list.children[i])))
  }

  /** The restriction branch: property first, then the value and its kind. */
  function ParseRestriction(e: Element): ClassExpr
    decreases e, 0
  {
    var onProperty := FirstChild(e, "owl:onProperty", "onProperty");
    var (property, propertyValue) := if onProperty.Some? then ParseOnProperty(onProperty.value) else (None, None);
    if propertyValue.Some? then
      Restriction(property, propertyValue, SomeValues)
    else
      var some := FirstChild(e, "owl:someValuesFrom", "someValuesFrom");
      var afterSome := if some.Some? then ValueOf(some.value) else None;
      var all := FirstChild(e, "owl:allValuesFrom", "allValuesFrom");
      if all.Some? then Restriction(property, ValueOf(all.value), AllValues)
      else Restriction(property, afterSome, SomeValues)
  }

  /**
   * The `onProperty` element: an `inverseOf` inside an `rdf:Description` gives
   * the property `inverse(P)`; failing that, a `Restriction` inside the
   * description becomes the value; failing a property, the element's own
   * `rdf:resource` names it.
   */
  function ParseOnProperty(op: Element): (Option<string>, Option<RestrictionValue>)
    decreases op, 0
  {
    var description := FirstChild(op, "rdf:Description", "Description");
    var inverse := if description.Some? then FirstChild(description.value, "owl:inverseOf", "inverseOf") else None;
    var inverseName := if inverse.Some? then ResourceName(inverse.value, "rdf:resource") else None;
    var inverseProperty := if inverseName.Some? then Some("inverse(" + inverseName.value + ")") else None;
    var value :=
      if description.Some? && inverseProperty.None? then
        var nested := FirstChild(description.value, "owl:Restriction", "Restriction");
        if nested.Some? then AsValue(Parse(nested.value)) else None
      else None;
    var property := if inverseProperty.Some? then inverseProperty else ResourceName(op, "rdf:resource");
    (property, value)
  }

  /** A `someValuesFrom` or `allValuesFrom` element: a nested `Restriction`, else its resource. */
  function ValueOf(v: Element): Option<RestrictionValue>
    decreases v, 0
  {
    var nested := FirstChild(v, "owl:Restriction", "Restriction");
    if nested.Some? then AsValue(Parse(nested.value))
    else
      var name := ResourceName(v, "rdf:resource");
      if name.Some? then Some(Plain(name.value)) else None
  }

  /** The shapes the parser recognises; anything else parses to `null`. */
  predicate Recognised(e: Element) {
    ((EndsWith(e.name, "Class") || EndsWith(e.name, "Description")) && Truthy(Attr(e, "rdf:about"))) ||
    (exists c :: c in e.children && (HasName(c, "owl:intersectionOf", "intersectionOf") || HasName(c, "owl:unionOf", "unionOf") ||
                                    HasName(c, "owl:complementOf", "complementOf"))) ||
    EndsWith(e.name, "Restriction")
  }

  lemma ParseNull(e: Element)
    ensures Parse(e).None? <==> !Recognised(e)
  {
  }

  /** Every operand of a list is the parse of one of its children. */
  lemma ParseItemsFrom(list: Element, x: ClassExpr)
    requires x in ParseItems(list)
    ensures exists i :: 0 <= i < |list.children| && Parse(list.children[i]) == Some(x)
  {
    var parsed := seq(|list.children|, i requires 0 <= i < |list.children| => Parse(list.children[i]));
    assert ParseItems(list) == Somes(parsed);
    assert Some(x) in parsed;
    var i :| 0 <= i < |parsed| && parsed[i] == Some(x);
    assert Parse(list.children[i]) == Some(x);
  }

  /** No child that parses is dropped from the operand list. */
  lemma ParseItemsKeep(list: Element, i: int)
    requires 0 <= i < |list.children| && Parse(list.children[i]).Some?
    ensures Parse(list.children[i]).value in ParseItems(list)
  {
    var parsed := seq(|list.children|, i requires 0 <= i < |list.children| => Parse(list.children[i]));
    assert ParseItems(list) == Somes(parsed);
    assert parsed[i] == Parse(list.children[i]);
  }

  /** A complement is never dropped: it parses with a resource, with a parsed child, or empty. */
  lemma ParseComplement(e: Element, c: Element)
    requires !((EndsWith(e.name, "Class") || EndsWith(e.name, "Description")) && Truthy(Attr(e, "rdf:about")))
    requires FirstChild(e, "owl:intersectionOf", "intersectionOf").None? && FirstChild(e, "owl:unionOf", "unionOf").None?
    requires FirstChild(e, "owl:complementOf", "complementOf") == Some(c)
    ensures Truthy(Attr(c, "rdf:resource")) ==> Parse(e) == Some(Not(Some(Named(LocalName(c.attrs["rdf:resource"])))))
    ensures !Truthy(Attr(c, "rdf:resource")) && c.children != [] ==> Parse(e) == Some(Not(Parse(c.children[0])))
    ensures !Truthy(Attr(c, "rdf:resource")) && c.children == [] ==> Parse(e) == Some(Not(None))
  {
  }

  /**
   * Restrictions: unless the property element supplied the value, the kind is
   * 'some' unless an `allValuesFrom` is present, which then supplies the value
   * (overriding `someValuesFrom`) and makes the kind 'only'.
   */
  lemma ParseRestrictionKind(e: Element)
    requires var op := FirstChild(e, "owl:onProperty", "onProperty");
             op.Some? ==> ParseOnProperty(op.value).1.None?
    ensures var r := ParseRestriction(e);
            var all := FirstChild(e, "owl:allValuesFrom", "allValuesFrom");
            var some := FirstChild(e, "owl:someValuesFrom", "someValuesFrom");
            (all.Some? ==> r.kind == AllValues && r.value == ValueOf(all.value)) &&
            (all.None? && some.Some? ==> r.kind == SomeValues && r.value == ValueOf(some.value)) &&
            (all.None? && some.None? ==> r.kind == SomeValues && r.value.None?)
  {
  }

  /** A value found inside the property element wins, with kind 'some'. */
  lemma ParseRestrictionNested(e: Element)
    requires var op := FirstChild(e, "owl:onProperty", "onProperty");
             op.Some? && ParseOnProperty(op.value).1.Some?
    ensures ParseRestriction(e) ==
            var op := FirstChild(e, "owl:onProperty", "onProperty").value;
            Restriction(ParseOnProperty(op).0, ParseOnProperty(op).1, SomeValues)
  {
  }

  /** A property given through `owl:inverseOf` is named `inverse(P)`. */
  lemma ParseInverseProperty(op: Element, d: Element, inv: Element)
    requires FirstChild(op, "rdf:Description", "Description") == Some(d)
    requires FirstChild(d, "owl:inverseOf", "inverseOf") == Some(inv)
    requires Truthy(Attr(inv, "rdf:resource"))
    ensures ParseOnProperty(op) == (Some("inverse(" + LocalName(inv.attrs["rdf:resource"]) + ")"), None)
  {
  }

  // ---------------------------------------------------------------------------
  // An encoder, for the round trip
  // ---------------------------------------------------------------------------

  /** A name the encoder can write as the fragment of a reference. */
  predicate Fragment(s: string) {
    s != [] && '#' !in s
  }

  /** The expressions canonical markup can carry: names are fragments, nested values are restrictions. */
  predicate WellFormed(x: ClassExpr) {
    match x
    case Named(id) => Fragment(id)
    case Intersection(ops) => forall i :: 0 <= i < |ops| ==> WellFormed(ops[i])
    case Union(ops) => forall i :: 0 <= i < |ops| ==> WellFormed(ops[i])
    case Not(o) => o.Some? ==> WellFormed(o.value)
    case Restriction(p, v, k) =>
      (p.Some? ==> Fragment(p.value)) &&
      (v.Some? && v.value.Plain? ==> Fragment(v.value.name)) &&
      (v.Some? && v.value.Nested? ==> v.value.expr.Restriction? && WellFormed(v.value.expr))
  }

  function Ref(name: string): map<string, string> {
    map["rdf:resource" := "#" + name]
  }

  /** Canonical OWL/RDF markup for an expression. */
  function Encode(x: ClassExpr): Element {
    match x
    case Named(id) => Element("owl:Class", map["rdf:about" := "#" + id], [])
    case Intersection(ops) =>
      Element("owl:Class", map[], [Element("owl:intersectionOf", map[], EncodeAll(ops))])
    case Union(ops) =>
      Element("owl:Class", map[], [Element("owl:unionOf", map[], EncodeAll(ops))])
    case Not(o) =>
      var inner := if o.Some? then [Encode(o.value)] else [];
      Element("owl:Class", map[], [Element("owl:complementOf", map[], inner)])
    case Restriction(p, v, k) =>
      Element("owl:Restriction", map[], PropertyMarkup(p) + ValueMarkup(v, k))
  }

  function PropertyMarkup(p: Option<string>): seq<Element> {
    if p.Some? then [Element("owl:onProperty", Ref(p.value), [])] else []
  }

  function ValueTag(k: RestrictionKind): string {
    if k == SomeValues then "owl:someValuesFrom" else "owl:allValuesFrom"
  }

  /** The value element; a missing 'some' value is left out, a missing 'only' value is an empty element. */
  function ValueMarkup(v: Option<RestrictionValue>, k: RestrictionKind): seq<Element> {
    if v.None? then (if k == SomeValues then [] else [Element(ValueTag(k), map[], [])])
    else if v.value.Plain? then [Element(ValueTag(k), Ref(v.value.name), [])]
    else [Element(ValueTag(k), map[], [Encode(v.value.expr)])]
  }

  function EncodeAll(xs: seq<ClassExpr>): (es: seq<Element>)
    ensures |es| == |xs|
  {
    seq(|xs|, i requires 0 <= i < |xs| => Encode(xs[i]))
  }

  /** The parser reads back every well-formed expression from its canonical markup. */
  lemma {:induction false} ParseEncode(x: ClassExpr)
    requires WellFormed(x)
    ensures Parse(Encode(x)) == Some(x)
    decreases x, 3
  {
    match x
    case Named(id) =>
      LocalNameAfterHash("", id);
      assert "" + "#" + id == "#" + id;
    case Intersection(ops) =>
      ParseEncodeIntersection(x);
    case Union(ops) =>
      ParseEncodeUnion(x);
    case Not(o) =>
      ParseEncodeNot(x);
    case Restriction(p, v, k) =>
      ParseEncodeRestriction(x);
  }

  lemma {:induction false} ParseEncodeAll(xs: seq<ClassExpr>, list: Element)
    requires forall i :: 0 <= i < |xs| ==> WellFormed(xs[i])
    requires list.children == EncodeAll(xs)
    ensures ParseItems(list) == xs
    decreases xs
  {
    var es := EncodeAll(xs);
    forall i | 0 <= i < |xs| ensures Parse(es[i]) == Some(xs[i]) {
      ParseEncode(xs[i]);
    }
    var parsed := seq(|list.children|, i requires 0 <= i < |list.children| => Parse(list.children[i]));
    SomesAllPresent(parsed);
  }

  lemma {:induction false} ParseEncodeIntersection(x: ClassExpr)
    requires x.Intersection? && WellFormed(x)
    ensures Parse(Encode(x)) == Some(x)
    decreases x, 2
  {
    var e := Encode(x);
    assert e.children[0].name == "owl:intersectionOf";
    assert FirstChild(e, "owl:intersectionOf", "intersectionOf") == Some(e.children[0]);
    ParseEncodeAll(x.operands, e.children[0]);
  }

  lemma {:induction false} ParseEncodeUnion(x: ClassExpr)
    requires x.Union? && WellFormed(x)
    ensures Parse(Encode(x)) == Some(x)
    decreases x, 2
  {
    var e := Encode(x);
    assert e.children[0].name == "owl:unionOf";
    assert FirstChild(e, "owl:intersectionOf", "intersectionOf").None?;
    assert FirstChild(e, "owl:unionOf", "unionOf") == Some(e.children[0]);
    ParseEncodeAll(x.operands, e.children[0]);
  }

  lemma {:induction false} ParseEncodeNot(x: ClassExpr)
    requires x.Not? && WellFormed(x)
    ensures Parse(Encode(x)) == Some(x)
    decreases x, 2
  {
    var e := Encode(x);
    var c := e.children[0];
    assert c.name == "owl:complementOf";
    assert FirstChild(e, "owl:intersectionOf", "intersectionOf").None?;
    assert FirstChild(e, "owl:unionOf", "unionOf").None?;
    assert FirstChild(e, "owl:complementOf", "complementOf") == Some(c);
    assert !Truthy(Attr(c, "rdf:resource"));
    if x.operand.Some? {
      ParseEncode(x.operand.value);
    }
  }

  lemma {:induction false} ParseEncodeRestriction(x: ClassExpr)
    requires x.Restriction? && WellFormed(x)
    ensures Parse(Encode(x)) == Some(x)
    decreases x, 2
  {
    var e := Encode(x);
    RestrictionMarkupShape(x);
    RestrictionBranch(e);
    var onProperty := FirstChild(e, "owl:onProperty", "onProperty");
    if x.property.Some? {
      PropertyRoundTrip(x.property.value);
    }
    assert onProperty.Some? ==> ParseOnProperty(onProperty.value) == (x.property, None);
    ParseRestrictionKind(e);
    ValueRoundTrip(x);
  }

  /** An `owl:Restriction` without `rdf:about` or operand lists takes the restriction branch. */
  lemma RestrictionBranch(e: Element)
    requires e.name == "owl:Restriction" && e.attrs == map[]
    requires FirstChild(e, "owl:intersectionOf", "intersectionOf").None? && FirstChild(e, "owl:unionOf", "unionOf").None?
    requires FirstChild(e, "owl:complementOf", "complementOf").None?
    ensures Parse(e) == Some(ParseRestriction(e))
  {
    assert e.name[|e.name| - |"Restriction"|..] == "Restriction";
    assert !Truthy(Attr(e, "rdf:about"));
  }

  /** Canonical restriction markup has no operand lists: the parser takes the restriction branch. */
  lemma RestrictionMarkupShape(x: ClassExpr)
    requires x.Restriction?
    ensures var e := Encode(x);
            FirstChild(e, "owl:intersectionOf", "intersectionOf").None? && FirstChild(e, "owl:unionOf", "unionOf").None? &&
            FirstChild(e, "owl:complementOf", "complementOf").None? &&
            FirstChild(e, "owl:onProperty", "onProperty") == (if x.property.Some? then Some(e.children[0]) else None)
  {
    RestrictionNoOperands(x);
    var ps, vs := PropertyMarkup(x.property), ValueMarkup(x.value, x.kind);
    assert Encode(x).children == ps + vs;
    assert FirstNamed(vs, "owl:onProperty", "onProperty").None?;
    FirstNamedAppend(ps, vs, "owl:onProperty", "onProperty");
  }

  lemma RestrictionNoOperands(x: ClassExpr)
    requires x.Restriction?
    ensures var e := Encode(x);
            FirstChild(e, "owl:intersectionOf", "intersectionOf").None? &&
            FirstChild(e, "owl:unionOf", "unionOf").None? &&
            FirstChild(e, "owl:complementOf", "complementOf").None?
  {
    var ps, vs := PropertyMarkup(x.property), ValueMarkup(x.value, x.kind);
    assert Encode(x).children == ps + vs;
    forall c: Element | c in ps + vs ensures NoOperandName(c.name) {
      if c in ps {
        NoOperandNames("owl:onProperty");
      } else if x.kind == SomeValues {
        NoOperandNames("owl:someValuesFrom");
      } else {
        NoOperandNames("owl:allValuesFrom");
      }
    }
  }

  /** A name no operand-list selector matches. */
  predicate NoOperandName(n: string) {
    n != "owl:intersectionOf" && n != "intersectionOf" && n != "owl:unionOf" && n != "unionOf" &&
    n != "owl:complementOf" && n != "complementOf"
  }

  lemma NoOperandNames(n: string)
    requires n == "owl:onProperty" || n == "owl:someValuesFrom" || n == "owl:allValuesFrom"
    ensures NoOperandName(n)
  {
    assert n[0] == 'o' && n[4] in "osa";
  }

  lemma PropertyRoundTrip(p: string)
    requires Fragment(p)
    ensures ParseOnProperty(Element("owl:onProperty", Ref(p), [])) == (Some(p), None)
  {
    LocalNameAfterHash("", p);
    assert "" + "#" + p == "#" + p;
  }

  lemma {:induction false} ValueRoundTrip(x: ClassExpr)
    requires x.Restriction? && WellFormed(x)
    ensures var e := Encode(x);
            var all := FirstChild(e, "owl:allValuesFrom", "allValuesFrom");
            var some := FirstChild(e, "owl:someValuesFrom", "someValuesFrom");
            (all.Some? ==> x.kind == AllValues && ValueOf(all.value) == x.value) &&
            (all.None? && some.Some? ==> x.kind == SomeValues && ValueOf(some.value) == x.value) &&
            (all.None? && some.None? ==> x.kind == SomeValues && x.value.None?)
    decreases x, 1
  {
    ValueChildren(x);
    ValueElementRoundTrip(x);
  }

  /** Where the value element of canonical restriction markup is found. */
  lemma ValueChildren(x: ClassExpr)
    requires x.Restriction?
    ensures var vs := ValueMarkup(x.value, x.kind);
            var e := Encode(x);
            FirstChild(e, "owl:someValuesFrom", "someValuesFrom") == (if x.kind == SomeValues && vs != [] then Some(vs[0]) else None) &&
            FirstChild(e, "owl:allValuesFrom", "allValuesFrom") == (if x.kind == AllValues then Some(vs[0]) else None)
  {
    var ps, vs := PropertyMarkup(x.property), ValueMarkup(x.value, x.kind);
    assert Encode(x).children == ps + vs;
    FirstNamedAppend(ps, vs, "owl:someValuesFrom", "someValuesFrom");
    FirstNamedAppend(ps, vs, "owl:allValuesFrom", "allValuesFrom");
    if vs != [] {
      assert vs == [vs[0]];
      if x.kind == SomeValues {
        assert vs[0].name == "owl:someValuesFrom";
      } else {
        assert vs[0].name == "owl:allValuesFrom";
      }
    }
  }

  lemma {:induction false} ValueElementRoundTrip(x: ClassExpr)
    requires x.Restriction? && WellFormed(x)
    ensures var vs := ValueMarkup(x.value, x.kind);
            vs != [] ==> ValueOf(vs[0]) == x.value
    decreases x, 0
  {
    var v := x.value;
    if v.Some? && v.value.Plain? {
      PlainValueOf(ValueTag(x.kind), v.value.name);
    } else if v.Some? {
      ParseEncode(v.value.expr);
      NestedValueOf(ValueTag(x.kind), Encode(v.value.expr));
    } else if x.kind == AllValues {
      EmptyValueOf(ValueTag(x.kind));
    }
  }

  lemma PlainValueOf(tag: string, name: string)
    requires Fragment(name)
    ensures ValueOf(Element(tag, Ref(name), [])) == Some(Plain(name))
  {
    LocalNameAfterHash("", name);
    assert "" + "#" + name == "#" + name;
  }

  lemma NestedValueOf(tag: string, inner: Element)
    requires inner.name == "owl:Restriction"
    ensures ValueOf(Element(tag, map[], [inner])) == AsValue(Parse(inner))
  {
    var e := Element(tag, map[], [inner]);
    assert HasName(inner, "owl:Restriction", "Restriction");
    assert FirstChild(e, "owl:Restriction", "Restriction") == Some(inner);
  }

  lemma EmptyValueOf(tag: string)
    ensures ValueOf(Element(tag, map[], [])) == None
  {
  }

  // ---------------------------------------------------------------------------
  // The renderer
  // ---------------------------------------------------------------------------

  /** `Array.prototype.join`: the parts with `sep` between neighbours. */
  function Join(parts: seq<string>, sep: string): string {
    if parts == [] then ""
    else if |parts| == 1 then parts[0]
    else Join(parts[..|parts| - 1], sep) + sep + parts[|parts| - 1]
  }

  function KindWord(k: RestrictionKind): string {
    if k == SomeValues then "some" else "only"
  }

  /**
   * `renderEquivalentAxiom`, reduced to its visible text: a named class shows
   * `labelOf(id)` (the localized label lookup, passed in); the markup around
   * each piece is not modelled.
   */
  function Render(x: ClassExpr, labelOf: string -> string): string
    decreases x, 1
  {
    match x
    case Named(id) => labelOf(id)
    case Intersection(ops) => Join(RenderAll(ops, labelOf), " and ")
    case Union(ops) => Parenthesized(Join(RenderAll(ops, labelOf), " or "))
    case Not(o) => Parenthesized("not " + RenderOption(o, labelOf))
    case Restriction(p, v, k) =>
      Parenthesized((if p.Some? then p.value else "null") + " " + KindWord(k) + " " + RenderValue(v, labelOf))
  }

  function Parenthesized(s: string): string {
    "(" + s + ")"
  }

  function RenderAll(xs: seq<ClassExpr>, labelOf: string -> string): (r: seq<string>)
    ensures |r| == |xs|
    decreases xs, 0
  {
    seq(|xs|, i requires 0 <= i < |xs| => Render(xs[i], labelOf))
  }

  /** `null` renders as the empty string. */
  function RenderOption(o: Option<ClassExpr>, labelOf: string -> string): string
    decreases o, 0
  {
    if o.Some? then Render(o.value, labelOf) else ""
  }

  /** A nested value renders recursively, a non-empty name as its labelOf, anything else as nothing. */
  function RenderValue(v: Option<RestrictionValue>, labelOf: string -> string): string
    decreases v, 0
  {
    if v.None? then ""
    else if v.value.Nested? then Render(v.value.expr, labelOf)
    else if v.value.name != [] then labelOf(v.value.name)
    else ""
  }

  // Every parenthesis the renderer opens it also closes.

  function Delta(c: char): int {
    if c == '(' then 1 else if c == ')' then -1 else 0
  }

  /** Opening minus closing parentheses in `s`. */
  function Depth(s: string): int {
    if s == [] then 0 else Depth(s[..|s| - 1]) + Delta(s[|s| - 1])
  }

  /** No prefix closes more than it opened, and the whole closes everything. */
  predicate Balanced(s: string) {
    Depth(s) == 0 && forall k :: 0 <= k <= |s| ==> Depth(s[..k]) >= 0
  }

  lemma {:induction false} DepthAppend(a: string, b: string)
    ensures Depth(a + b) == Depth(a) + Depth(b)
    decreases |b|
  {
    if b == [] {
      assert a + b == a;
    } else {
      assert (a + b)[..|a + b| - 1] == a + b[..|b| - 1];
      DepthAppend(a, b[..|b| - 1]);
    }
  }

  lemma BalancedAppend(a: string, b: string)
    requires Balanced(a) && Balanced(b)
    ensures Balanced(a + b)
  {
    DepthAppend(a, b);
    forall k | 0 <= k <= |a + b| ensures Depth((a + b)[..k]) >= 0 {
      if k <= |a| {
        assert (a + b)[..k] == a[..k];
      } else {
        assert (a + b)[..k] == a + b[..k - |a|];
        DepthAppend(a, b[..k - |a|]);
      }
    }
  }

  lemma BalancedWrap(a: string)
    requires Balanced(a)
    ensures Balanced(Parenthesized(a))
  {
    var w := "(" + a + ")";
    DepthAppend("(", a);
    DepthAppend("(" + a, ")");
    forall k | 0 <= k <= |w| ensures Depth(w[..k]) >= 0 {
      if 1 <= k <= |a| + 1 {
        assert w[..k] == "(" + a[..k - 1];
        DepthAppend("(", a[..k - 1]);
      } else if k == |w| {
        assert w[..k] == w;
      }
    }
  }

  /** Text without parentheses is balanced. */
  lemma {:induction false} PlainBalanced(s: string)
    requires '(' !in s && ')' !in s
    ensures Balanced(s)
    decreases |s|
  {
    if s != [] {
      var t := s[..|s| - 1];
      assert forall c :: c in t ==> c in s;
      PlainBalanced(t);
      forall k | 0 <= k <= |s| ensures Depth(s[..k]) >= 0 {
        if k < |s| {
          assert s[..k] == t[..k];
        } else {
          assert s[..k] == s;
        }
      }
    }
  }

  lemma {:induction false} JoinBalanced(parts: seq<string>, sep: string)
    requires forall i :: 0 <= i < |parts| ==> Balanced(parts[i])
    requires Balanced(sep)
    ensures Balanced(Join(parts, sep))
    decreases |parts|
  {
    if parts == [] {
      PlainBalanced("");
    } else if |parts| > 1 {
      JoinBalanced(parts[..|parts| - 1], sep);
      BalancedAppend(Join(parts[..|parts| - 1], sep), sep);
      BalancedAppend(Join(parts[..|parts| - 1], sep) + sep, parts[|parts| - 1]);
    }
  }

  /** Every property name in the expression is balanced text. */
  predicate PropertiesBalanced(x: ClassExpr) {
    match x
    case Named(_) => true
    case Intersection(ops) => forall i :: 0 <= i < |ops| ==> PropertiesBalanced(ops[i])
    case Union(ops) => forall i :: 0 <= i < |ops| ==> PropertiesBalanced(ops[i])
    case Not(o) => o.Some? ==> PropertiesBalanced(o.value)
    case Restriction(p, v, _) =>
      (p.Some? ==> Balanced(p.value)) && (v.Some? && v.value.Nested? ==> PropertiesBalanced(v.value.expr))
  }

  /** The label of every class the expression names, as a class or as a value, is balanced text. */
  predicate LabelsBalanced(x: ClassExpr, labelOf: string -> string) {
    match x
    case Named(id) => Balanced(labelOf(id))
    case Intersection(ops) => forall i :: 0 <= i < |ops| ==> LabelsBalanced(ops[i], labelOf)
    case Union(ops) => forall i :: 0 <= i < |ops| ==> LabelsBalanced(ops[i], labelOf)
    case Not(o) => o.Some? ==> LabelsBalanced(o.value, labelOf)
    case Restriction(_, v, _) =>
      v.Some? ==>
        if v.value.Nested? then LabelsBalanced(v.value.expr, labelOf)
        else v.value.name != [] ==> Balanced(labelOf(v.value.name))
  }

  /**
   * Unions, complements and restrictions are wrapped in parentheses, so
   * rendered text is balanced whenever the labels of the classes it names
   * and its property names are.
   */
  lemma {:induction false} RenderBalanced(x: ClassExpr, labelOf: string -> string)
    requires LabelsBalanced(x, labelOf) && PropertiesBalanced(x)
    ensures Balanced(Render(x, labelOf))
    decreases x, 2
  {
    match x
    case Named(id) =>
    case Intersection(ops) =>
      RenderAllBalanced(ops, labelOf);
      PlainBalanced(" and ");
      JoinBalanced(RenderAll(ops, labelOf), " and ");
    case Union(ops) =>
      RenderAllBalanced(ops, labelOf);
      PlainBalanced(" or ");
      JoinBalanced(RenderAll(ops, labelOf), " or ");
      BalancedWrap(Join(RenderAll(ops, labelOf), " or "));
    case Not(o) =>
      NotBalanced(x, labelOf);
    case Restriction(p, v, k) =>
      RestrictionBalanced(x, labelOf);
  }

  lemma {:induction false} NotBalanced(x: ClassExpr, labelOf: string -> string)
    requires x.Not?
    requires LabelsBalanced(x, labelOf) && PropertiesBalanced(x)
    ensures Balanced(Render(x, labelOf))
    decreases x, 1
  {
    var inner := RenderOption(x.operand, labelOf);
    if x.operand.Some? {
      RenderBalanced(x.operand.value, labelOf);
    } else {
      PlainBalanced(inner);
    }
    PlainBalanced("not ");
    BalancedAppend("not ", inner);
    BalancedWrap("not " + inner);
  }

  lemma {:induction false} RestrictionBalanced(x: ClassExpr, labelOf: string -> string)
    requires x.Restriction?
    requires LabelsBalanced(x, labelOf) && PropertiesBalanced(x)
    ensures Balanced(Render(x, labelOf))
    decreases x, 1
  {
    var property := if x.property.Some? then x.property.value else "null";
    var value := RenderValue(x.value, labelOf);
    var word := KindWord(x.kind);
    if x.property.None? {
      PlainBalanced("null");
    }
    ValueBalanced(x, labelOf);
    PlainBalanced(" ");
    PlainBalanced(word);
    BalancedAppend(property, " ");
    BalancedAppend(property + " ", word);
    BalancedAppend(property + " " + word, " ");
    BalancedAppend(property + " " + word + " ", value);
    BalancedWrap(property + " " + word + " " + value);
  }

  lemma {:induction false} ValueBalanced(x: ClassExpr, labelOf: string -> string)
    requires x.Restriction?
    requires LabelsBalanced(x, labelOf) && PropertiesBalanced(x)
    ensures Balanced(RenderValue(x.value, labelOf))
    decreases x, 0
  {
    var v := x.value;
    if v.Some? && v.value.Nested? {
      RenderBalanced(v.value.expr, labelOf);
    } else if v.None? || v.value.name == [] {
      PlainBalanced("");
    }
  }

  lemma {:induction false} RenderAllBalanced(xs: seq<ClassExpr>, labelOf: string -> string)
    requires forall i :: 0 <= i < |xs| ==> LabelsBalanced(xs[i], labelOf) && PropertiesBalanced(xs[i])
    ensures forall i :: 0 <= i < |xs| ==> Balanced(RenderAll(xs, labelOf)[i])
    decreases xs, 2
  {
    forall i | 0 <= i < |xs| ensures Balanced(RenderAll(xs, labelOf)[i]) {
      RenderBalanced(xs[i], labelOf);
    }
  }

  /** The worked example "P some (Q some R)": its markup parses back to it... */
  lemma NestedRestrictionParses()
    ensures var inner := Restriction(Some("Q"), Some(Plain("R")), SomeValues);
            var outer := Restriction(Some("P"), Some(Nested(inner)), SomeValues);
            Parse(Encode(outer)) == Some(outer)
  {
    var inner := Restriction(Some("Q"), Some(Plain("R")), SomeValues);
    var outer := Restriction(Some("P"), Some(Nested(inner)), SomeValues);
    assert WellFormed(inner);
    ParseEncode(outer);
  }

  /** ...and renders, with local names as labels, as "(P some (Q some R))". */
  lemma NestedRestrictionRenders()
    ensures var inner := Restriction(Some("Q"), Some(Plain("R")), SomeValues);
            var outer := Restriction(Some("P"), Some(Nested(inner)), SomeValues);
            Render(outer, s => s) == "(P some (Q some R))"
  {
    var labelOf: string -> string := s => s;
    var inner := Restriction(Some("Q"), Some(Plain("R")), SomeValues);
    var outer := Restriction(Some("P"), Some(Nested(inner)), SomeValues);
    RenderPlainRestriction("Q", "R", labelOf);
    RenderNestedRestriction("P", inner, labelOf);
    assert "(" + ("P" + " " + "some" + " " + "(Q some R)") + ")" == "(P some (Q some R))";
  }

  /** ...and, with local names as labels, it meets the conditions of `RenderBalanced`. */
  lemma NestedRestrictionBalanced()
    ensures var inner := Restriction(Some("Q"), Some(Plain("R")), SomeValues);
            var outer := Restriction(Some("P"), Some(Nested(inner)), SomeValues);
            LabelsBalanced(outer, s => s) && PropertiesBalanced(outer) && Balanced(Render(outer, s => s))
  {
    var labelOf: string -> string := s => s;
    var inner := Restriction(Some("Q"), Some(Plain("R")), SomeValues);
    var outer := Restriction(Some("P"), Some(Nested(inner)), SomeValues);
    PlainBalanced("P");
    PlainBalanced("Q");
    PlainBalanced("R");
    assert LabelsBalanced(inner, labelOf) && PropertiesBalanced(inner);
    RenderBalanced(outer, labelOf);
  }

  lemma RenderPlainRestriction(p: string, v: string, labelOf: string -> string)
    requires v != [] && labelOf(v) == v
    ensures Render(Restriction(Some(p), Some(Plain(v)), SomeValues), labelOf) == "(" + (p + " " + "some" + " " + v) + ")"
  {
  }

  lemma RenderNestedRestriction(p: string, inner: ClassExpr, labelOf: string -> string)
    ensures Render(Restriction(Some(p), Some(Nested(inner)), SomeValues), labelOf) ==
            "(" + (p + " " + "some" + " " + Render(inner, labelOf)) + ")"
  {
  }
}
